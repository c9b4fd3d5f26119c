/** The best bid and offer against a scan of the live orders, and when they move. */
module BookTops {
  import opened Prelude
  import opened Protocol
  import opened Books
  import opened BookProofs
  import opened BookKeys

  function LivePrices(live: Live, side: Side): set<u32> {
    set id | id in live && live[id].side == side :: live[id].price
  }

  /** The best bid and offer found by scanning every live order. */
  ghost function ScanBbo(live: Live): Bbo
    requires Fits(live)
  {
    var bids, asks := LivePrices(live, Buy), LivePrices(live, Sell);
    Bbo(
      if bids == {} then None else Some(Level(LastKey(bids), Resting(live, Buy, LastKey(bids)))),
      if asks == {} then None else Some(Level(FirstKey(asks), Resting(live, Sell, FirstKey(asks))))
    )
  }

  lemma KeysAmongLivePrices(b: Book, side: Side)
    requires Sound(b)
    ensures b.LevelsOf(side).Keys <= LivePrices(b.live, side)
    ensures KeysExact(b) ==> b.LevelsOf(side).Keys == LivePrices(b.live, side)
  {
    hide Resting, Agrees;
    forall price: u32
      ensures HasOrderAt(b.live, side, price) <==> price in LivePrices(b.live, side)
    {
      if HasOrderAt(b.live, side, price) {
        var id :| id in b.live && Rests(b.live[id], side, price);
        assert b.live[id].price in LivePrices(b.live, side);
      }
      if price in LivePrices(b.live, side) {
        var id :| id in b.live && b.live[id].side == side && b.live[id].price == price;
        assert Rests(b.live[id], side, price);
      }
    }
    if KeysExact(b) {
      forall price: u32
        ensures price in b.LevelsOf(side) <==> price in LivePrices(b.live, side)
      {
        assert KeyExactAt(b, side, price);
      }
    }
  }

  /** The best live price on each side has a level. */
  predicate TopsListed(b: Book) {
    var bids, asks := LivePrices(b.live, Buy), LivePrices(b.live, Sell);
    && (bids != {} ==> LastKey(bids) in b.bids)
    && (asks != {} ==> FirstKey(asks) in b.asks)
  }

  lemma SideTopIsScan(keys: set<u32>, prices: set<u32>)
    requires keys <= prices
    ensures prices != {} && LastKey(prices) in keys ==> LastKey(keys) == LastKey(prices)
    ensures prices != {} && FirstKey(prices) in keys ==> FirstKey(keys) == FirstKey(prices)
  {
  }

  /** On a sound book the best bid and offer are those of a scan if and only if the best live prices have levels. */
  lemma BboIsScanExactly(b: Book)
    requires Sound(b) && Fits(b.live)
    ensures BboOf(b) == ScanBbo(b.live) <==> TopsListed(b)
  {
    hide Resting, HasOrderAt;
    var bids, asks := LivePrices(b.live, Buy), LivePrices(b.live, Sell);
    KeysAmongLivePrices(b, Buy);
    KeysAmongLivePrices(b, Sell);
    assert b.LevelsOf(Buy).Keys == b.bids.Keys && b.LevelsOf(Sell).Keys == b.asks.Keys;
    SideTopIsScan(b.bids.Keys, bids);
    SideTopIsScan(b.asks.Keys, asks);
    assert b.bids == map[] <==> b.bids.Keys == {};
    assert b.asks == map[] <==> b.asks.Keys == {};
    if bids != {} {
      assert LevelAt(b.LevelsOf(Buy), LastKey(bids)) == Resting(b.live, Buy, LastKey(bids));
    }
    if asks != {} {
      assert LevelAt(b.LevelsOf(Sell), FirstKey(asks)) == Resting(b.live, Sell, FirstKey(asks));
    }
  }

  lemma BboIsScan(b: Book)
    requires Sound(b) && Fits(b.live) && KeysExact(b)
    ensures BboOf(b) == ScanBbo(b.live)
  {
    hide Sound, Fits, KeysExact, BboOf, ScanBbo;
    KeysAmongLivePrices(b, Buy);
    KeysAmongLivePrices(b, Sell);
    assert b.LevelsOf(Buy).Keys == b.bids.Keys && b.LevelsOf(Sell).Keys == b.asks.Keys;
    BboIsScanExactly(b);
  }

  /** At every point of a run of positive adds whose sums fit, the level keys are the live prices with their
      sums, and the best bid and offer are those of a scan. */
  lemma PositiveRunsAreExact(es: seq<Event>, n: nat)
    requires n <= |es| && forall i :: 0 <= i < n ==> PositiveAdd(es[i])
    requires forall k :: 0 <= k <= n ==> Fits(LiveAll(map[], es[..k]))
    ensures var b := ApplyAll(EMPTY_BOOK, es[..n]);
            SoundKeys(b) && b.live == LiveAll(map[], es[..n]) && BboOf(b) == ScanBbo(b.live)
  {
    hide Sound, Fits, KeysExact, Strands, Apply, BboOf, ScanBbo, AllPositive;
    forall k | 0 <= k < n
      ensures !Strands(LiveAll(map[], es[..k]), es[k])
    {
      RunStaysPositive(es[..k]);
      PositiveNeverStrands(LiveAll(map[], es[..k]), es[k]);
    }
    RunKeepsKeys(es, n);
    ApplyAllLive(EMPTY_BOOK, es[..n]);
    BboIsScan(ApplyAll(EMPTY_BOOK, es[..n]));
  }

  function Top(keys: set<u32>, side: Side): Option<u32> {
    if keys == {} then None else Some(if side == Buy then LastKey(keys) else FirstKey(keys))
  }

  predicate Better(side: Side, price: u32, other: u32) {
    if side == Buy then price > other else price < other
  }

  /** The message puts an order at a price better than the best level, or the best level loses its key or
      changes its total. */
  ghost predicate TopMoves(b: Book, e: Event, side: Side) {
    match Top(b.LevelsOf(side).Keys, side)
    case None => exists price: u32 :: PutsAt(b.live, e, side, price)
    case Some(top) =>
      || (exists price: u32 :: Better(side, price, top) && PutsAt(b.live, e, side, price))
      || (EmptiesAt(b.live, e, side, top) && !PutsAt(b.live, e, side, top))
      || Resting(LiveAfter(b.live, e), side, top) != Resting(b.live, side, top)
  }

  function BestOf(b: Book, side: Side): Option<Level> {
    if side == Buy then BboOf(b).bestBid else BboOf(b).bestAsk
  }

  lemma BestIsTop(b: Book, side: Side)
    requires Sound(b)
    ensures var top := Top(b.LevelsOf(side).Keys, side);
            && (top.None? <==> BestOf(b, side).None?)
            && (top.Some? ==> && BestOf(b, side).Some?
                              && BestOf(b, side).value.price == top.value
                              && BestOf(b, side).value.quantity == Resting(b.live, side, top.value))
  {
    hide Resting;
    var levels := b.LevelsOf(side);
    assert levels == map[] <==> levels.Keys == {};
    var top := Top(levels.Keys, side);
    if top.Some? {
      assert LevelAt(levels, top.value) == Resting(b.live, side, top.value);
    }
  }

  lemma IsTop(keys: set<u32>, side: Side, top: u32)
    requires top in keys && forall price :: price in keys ==> !Better(side, price, top)
    ensures Top(keys, side) == Some(top)
  {
  }

  lemma BestMovesExactly(b: Book, e: Event, side: Side)
    requires Sound(b) && Fits(LiveAfter(b.live, e))
    ensures BestOf(b, side) != BestOf(Apply(b, e), side) <==> TopMoves(b, e, side)
  {
    hide Resting, Apply, LiveAfter, Sound, Fits, BestOf, EmptiesAt, PutsAt;
    var after := Apply(b, e);
    ApplyKeepsSound(b, e);
    ApplyLive(b, e);
    BestIsTop(b, side);
    BestIsTop(after, side);
    var keys, keysAfter := b.LevelsOf(side).Keys, after.LevelsOf(side).Keys;
    forall price: u32
      ensures price in keysAfter
         <==> PutsAt(b.live, e, side, price) || (price in keys && !EmptiesAt(b.live, e, side, price))
    {
      KeyAfter(b, e, side, price);
    }
    TopIsBest(keys, side);
    TopIsBest(keysAfter, side);
    var top := Top(keys, side);
    if top.Some? && top.value in keysAfter
      && !(exists price: u32 :: Better(side, price, top.value) && PutsAt(b.live, e, side, price)) {
      forall price | price in keysAfter
        ensures !Better(side, price, top.value)
      {
      }
      IsTop(keysAfter, side, top.value);
    }
  }

  lemma TopIsBest(keys: set<u32>, side: Side)
    ensures var top := Top(keys, side);
            && (top.None? <==> keys == {})
            && (top.Some? ==> top.value in keys && forall price :: price in keys ==> !Better(side, price, top.value))
  {
  }

  /** A BBO alert fires for a message exactly when it moves the top of one side, whatever the quantities. */
  lemma BboChangedExactly(b: Book, e: Event)
    requires Sound(b) && Fits(LiveAfter(b.live, e))
    ensures ApplyResult(BboOf(b), BboOf(Apply(b, e))).BboChanged() <==> TopMoves(b, e, Buy) || TopMoves(b, e, Sell)
  {
    hide Sound, Fits, Apply, LiveAfter, BboOf, TopMoves;
    BestMovesExactly(b, e, Buy);
    BestMovesExactly(b, e, Sell);
  }

  /** Where the best live prices have levels before and after, that is when the scan's answer differs. */
  lemma BboChangedIsScan(b: Book, e: Event)
    requires Sound(b) && Fits(b.live) && Fits(LiveAfter(b.live, e))
    requires TopsListed(b) && TopsListed(Apply(b, e))
    ensures ApplyResult(BboOf(b), BboOf(Apply(b, e))).BboChanged()
       <==> ScanBbo(b.live) != ScanBbo(LiveAfter(b.live, e))
  {
    hide Sound, Fits, Apply, LiveAfter, BboOf, ScanBbo, TopsListed;
    ApplyKeepsSound(b, e);
    ApplyLive(b, e);
    BboIsScanExactly(b);
    BboIsScanExactly(Apply(b, e));
  }

  /** In particular from exact keys, when the message strands no order. */
  lemma ExactKeysListTops(b: Book, e: Event)
    requires Sound(b) && KeysExact(b) && !Strands(b.live, e)
    requires Fits(b.live) && Fits(LiveAfter(b.live, e))
    ensures TopsListed(b) && TopsListed(Apply(b, e))
  {
    hide Sound, Fits, KeysExact, Strands, Apply, LiveAfter, BboOf, ScanBbo, TopsListed;
    ApplyKeepsSound(b, e);
    ApplyKeysExactly(b, e);
    ApplyLive(b, e);
    BboIsScan(b);
    BboIsScan(Apply(b, e));
    BboIsScanExactly(b);
    BboIsScanExactly(Apply(b, e));
  }

  /** Not otherwise: of two zero-quantity orders at one price a delete takes the level away, and with it the best
      bid, while the scan still finds the other order. */
  lemma ScanMissesLostLevel(price: u32)
    ensures var b := Apply(Apply(EMPTY_BOOK, Add(1, Some(Buy), price, 0)), Add(2, Some(Buy), price, 0));
            var after := Apply(b, Delete(1));
            && Sound(b) && Fits(b.live) && Fits(after.live)
            && BboOf(b).bestBid == Some(Level(price, 0)) && BboOf(after).bestBid == None
            && ScanBbo(b.live) == ScanBbo(after.live)
  {
    hide Resting, Apply, Sound, BboOf, ScanBbo;
    var first := Apply(EMPTY_BOOK, Add(1, Some(Buy), price, 0));
    var b := Apply(first, Add(2, Some(Buy), price, 0));
    var after := Apply(b, Delete(1));
    EmptyOrders(price);
    forall side, p: u32
      ensures Resting(first.live, side, p) == Resting(b.live, side, p) == Resting(after.live, side, p) == 0
    {
      OneOrderResting(1, Order(Buy, 0, price), side, p);
      OneOrderResting(2, Order(Buy, 0, price), side, p);
      RestingWithout(b.live, 1, side, p);
    }
    EmptySound();
    ApplyLive(EMPTY_BOOK, Add(1, Some(Buy), price, 0));
    ApplyLive(first, Add(2, Some(Buy), price, 0));
    ApplyKeepsSound(EMPTY_BOOK, Add(1, Some(Buy), price, 0));
    ApplyKeepsSound(first, Add(2, Some(Buy), price, 0));
    OneBid(b.live, price);
    OneBid(after.live, price);
    BestBidOf(b);
    BestBidOf(after);
  }

  lemma EmptyOrders(price: u32)
    ensures var o := Order(Buy, 0, price);
            var first := Apply(EMPTY_BOOK, Add(1, Some(Buy), price, 0));
            var b := Apply(first, Add(2, Some(Buy), price, 0));
            var after := Apply(b, Delete(1));
            && first.live == map[1 := o] && b.live == map[1 := o, 2 := o] && after.live == map[2 := o]
            && b.live - {1} == after.live
            && b.bids == map[price := 0] && after.bids == map[]
  {
  }

  lemma OneBid(live: Live, price: u32)
    requires 2 in live && forall id :: id in live ==> live[id] == Order(Buy, 0, price)
    requires forall side, p: u32 :: Resting(live, side, p) == 0
    ensures Fits(live) && ScanBbo(live) == Bbo(Some(Level(price, 0)), None)
  {
    hide Resting;
    assert live[2].price in LivePrices(live, Buy);
    assert LivePrices(live, Buy) == {price} && LivePrices(live, Sell) == {};
  }

  lemma BestBidOf(b: Book)
    ensures b.bids == map[] ==> BboOf(b).bestBid == None
    ensures forall p: u32 :: b.bids == map[p := 0] ==> BboOf(b).bestBid == Some(Level(p, 0))
  {
    forall p: u32 | b.bids == map[p := 0]
      ensures BboOf(b).bestBid == Some(Level(p, 0))
    {
      assert b.bids.Keys == {p};
    }
  }
}

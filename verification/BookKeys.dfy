/** What a message does to one level, and which prices have a level, exactly. */
module BookKeys {
  import opened Prelude
  import opened Protocol
  import opened Books
  import opened BookProofs

  // ---- What one message does to the level keys. ----

  /** The message takes quantity out of a live order. */
  predicate Hits(live: Live, e: Event) {
    e.id in live && !(e.Add? && e.side.None?)
  }

  /** How much it asks `subtract_level` to take. */
  function Taken(live: Live, e: Event): u32
    requires Hits(live, e)
  {
    if e.Execute? then Min(live[e.id].quantity, e.quantity) else live[e.id].quantity
  }

  predicate TakesAt(live: Live, e: Event, side: Side, price: u32) {
    Hits(live, e) && Rests(live[e.id], side, price)
  }

  /** The message calls `add_level` on this side and price. */
  predicate PutsAt(live: Live, e: Event, side: Side, price: u32) {
    match e
    case Add(_, s, p, _) => s == Some(side) && p == price
    case Modify(id, p, quantity) => id in live && quantity > 0 && live[id].side == side && p == price
    case Delete(_) => false
    case Execute(_, _, _) => false
  }

  /** The guard of the erasing branch of `subtract_level`. */
  ghost predicate EmptiesAt(live: Live, e: Event, side: Side, price: u32) {
    TakesAt(live, e, side, price) && Taken(live, e) >= Resting(live, side, price)
  }

  // ---- One level, there or not, under the two things a message can do to it. ----

  function CellOf(b: Book, side: Side, price: u32): Option<u32> {
    if price in b.LevelsOf(side) then Some(b.LevelsOf(side)[price]) else None
  }

  function ValueOf(cell: Option<u32>): u32 {
    if cell.None? then 0 else cell.value
  }

  function AfterTake(cell: Option<u32>, take: Option<u32>): Option<u32> {
    if cell.None? || take.None? then cell
    else if cell.value <= take.value then None
    else Some(cell.value - take.value)
  }

  function AfterPut(cell: Option<u32>, put: Option<u32>): Option<u32> {
    if put.None? then cell else Some((ValueOf(cell) + put.value) % 0x1_0000_0000)
  }

  function AfterBoth(cell: Option<u32>, take: Option<u32>, put: Option<u32>): Option<u32> {
    AfterPut(AfterTake(cell, take), put)
  }

  function TakeAt(live: Live, e: Event, side: Side, price: u32): Option<u32> {
    if TakesAt(live, e, side, price) then Some(Taken(live, e)) else None
  }

  function PutAt(live: Live, e: Event, side: Side, price: u32): Option<u32> {
    if PutsAt(live, e, side, price) then Some(e.quantity) else None
  }

  lemma CellAfterSubtract(b: Book, s: Side, p: u32, quantity: u32, side: Side, price: u32)
    ensures CellOf(SubtractLevel(b, s, p, quantity), side, price)
         == AfterTake(CellOf(b, side, price), if s == side && p == price then Some(quantity) else None)
  {
  }

  lemma CellAfterAdd(b: Book, s: Side, p: u32, quantity: u32, side: Side, price: u32)
    ensures CellOf(AddLevel(b, s, p, quantity), side, price)
         == AfterPut(CellOf(b, side, price), if s == side && p == price then Some(quantity) else None)
  {
  }

  lemma CellIgnoresOrders(b: Book, live: Live, side: Side, price: u32)
    ensures CellOf(b.(live := live), side, price) == CellOf(b, side, price)
  {
  }

  /** On any book, sound or not. */
  lemma CellAfter(b: Book, e: Event, side: Side, price: u32)
    ensures CellOf(Apply(b, e), side, price)
         == AfterBoth(CellOf(b, side, price), TakeAt(b.live, e, side, price), PutAt(b.live, e, side, price))
  {
    hide CellOf, SubtractLevel, AddLevel, AfterTake;
    var taken := b;
    if Hits(b.live, e) {
      var o := b.live[e.id];
      taken := SubtractLevel(b, o.side, o.price, Taken(b.live, e));
      CellAfterSubtract(b, o.side, o.price, Taken(b.live, e), side, price);
    }
    assert CellOf(taken, side, price) == AfterTake(CellOf(b, side, price), TakeAt(b.live, e, side, price)) by {
      NothingTaken(CellOf(b, side, price));
    }
    CellAfterPut(b, taken, e, side, price);
  }

  lemma NothingTaken(cell: Option<u32>)
    ensures AfterTake(cell, None) == cell
  {
  }

  lemma CellAfterPut(b: Book, taken: Book, e: Event, side: Side, price: u32)
    requires taken == if Hits(b.live, e)
                      then SubtractLevel(b, b.live[e.id].side, b.live[e.id].price, Taken(b.live, e)) else b
    ensures CellOf(Apply(b, e), side, price) == AfterPut(CellOf(taken, side, price), PutAt(b.live, e, side, price))
  {
    hide CellOf, SubtractLevel, AddLevel;
    var after := Apply(b, e);
    CellIgnoresOrders(taken, after.live, side, price);
    match e
    case Add(id, s, p, quantity) =>
      if s.Some? {
        var erased := EraseOrder(b, id);
        CellAfterAdd(erased, s.value, p, quantity, side, price);
        CellIgnoresOrders(AddLevel(erased, s.value, p, quantity), after.live, side, price);
        CellIgnoresOrders(taken, erased.live, side, price);
      }
    case Modify(id, p, quantity) =>
      if id in b.live && quantity > 0 {
        CellAfterAdd(taken, b.live[id].side, p, quantity, side, price);
        CellIgnoresOrders(AddLevel(taken, b.live[id].side, p, quantity), after.live, side, price);
      }
    case Delete(_) =>
    case Execute(_, _, _) =>
  }

  /** A price has a level after a message if the message adds to it, or if it had one that is not emptied. */
  lemma KeyAfter(b: Book, e: Event, side: Side, price: u32)
    requires Sound(b)
    ensures price in Apply(b, e).LevelsOf(side)
       <==> PutsAt(b.live, e, side, price) || (price in b.LevelsOf(side) && !EmptiesAt(b.live, e, side, price))
  {
    hide Resting, Apply, PutsAt, TakesAt, Taken;
    CellAfter(b, e, side, price);
    assert LevelAt(b.LevelsOf(side), price) == Resting(b.live, side, price);
  }

  ghost predicate OthersAt(live: Live, id: u64, side: Side, price: u32) {
    exists other :: other in live && other != id && Rests(live[other], side, price)
  }

  /** The message leaves its own order where it was. */
  predicate KeepsAt(live: Live, e: Event, side: Side, price: u32) {
    && e.id in live
    && Rests(live[e.id], side, price)
    && (Hits(live, e) ==> Taken(live, e) < live[e.id].quantity)
  }

  lemma OrdersAfter(live: Live, e: Event, side: Side, price: u32)
    ensures HasOrderAt(LiveAfter(live, e), side, price)
       <==> PutsAt(live, e, side, price) || OthersAt(live, e.id, side, price) || KeepsAt(live, e, side, price)
  {
    var after := LiveAfter(live, e);
    if OthersAt(live, e.id, side, price) {
      var other :| other in live && other != e.id && Rests(live[other], side, price);
      assert other in after && Rests(after[other], side, price);
    }
    if PutsAt(live, e, side, price) || KeepsAt(live, e, side, price) {
      assert e.id in after && Rests(after[e.id], side, price);
    }
    if HasOrderAt(after, side, price) {
      var id :| id in after && Rests(after[id], side, price);
      assert id != e.id ==> id in live && Rests(live[id], side, price);
    }
  }

  // ---- When the level keys are the live prices. ----

  ghost predicate KeysExact(b: Book) {
    forall side, price: u32 :: KeyExactAt(b, side, price)
  }

  ghost predicate KeyExactAt(b: Book, side: Side, price: u32) {
    price in b.LevelsOf(side) <==> HasOrderAt(b.live, side, price)
  }

  /** The message takes all the quantity there is at its order's level, another order (of quantity 0) rests
      there too, and nothing is put back: that other order loses its level. */
  ghost predicate Strands(live: Live, e: Event) {
    && Hits(live, e)
    && var o := live[e.id];
       && Taken(live, e) >= Resting(live, o.side, o.price)
       && OthersAt(live, e.id, o.side, o.price)
       && !PutsAt(live, e, o.side, o.price)
  }

  lemma AloneAt(live: Live, id: u64, side: Side, price: u32)
    requires id in live && Rests(live[id], side, price)
    ensures Resting(live, side, price) >= live[id].quantity
    ensures !OthersAt(live, id, side, price) ==> Resting(live, side, price) == live[id].quantity
  {
    hide Resting;
    RestingWithout(live, id, side, price);
    if Resting(live - {id}, side, price) > 0 {
      RestingWitness(live - {id}, side, price);
      var other :| other in live - {id} && Rests((live - {id})[other], side, price);
      assert other in live && other != id && Rests(live[other], side, price);
    }
  }

  /** One message keeps the level keys exact if and only if it strands no order. */
  lemma ApplyKeysExactly(b: Book, e: Event)
    requires Sound(b) && KeysExact(b)
    ensures KeysExact(Apply(b, e)) <==> !Strands(b.live, e)
  {
    hide Resting, Apply, LiveAfter, HasOrderAt, OthersAt, PutsAt, Sound;
    ApplyLive(b, e);
    if Strands(b.live, e) {
      var o := b.live[e.id];
      KeyAfter(b, e, o.side, o.price);
      OrdersAfter(b.live, e, o.side, o.price);
      assert !KeyExactAt(Apply(b, e), o.side, o.price);
    } else {
      forall side, price: u32
        ensures KeyExactAt(Apply(b, e), side, price)
      {
        KeyStaysExact(b, e, side, price);
      }
    }
  }

  lemma KeyStaysExact(b: Book, e: Event, side: Side, price: u32)
    requires Sound(b) && KeysExact(b) && !Strands(b.live, e)
    ensures KeyExactAt(Apply(b, e), side, price)
  {
    hide Resting, Apply, LiveAfter, PutsAt, Sound;
    ApplyLive(b, e);
    KeyAfter(b, e, side, price);
    OrdersAfter(b.live, e, side, price);
    assert KeyExactAt(b, side, price);
    if e.id in b.live && Rests(b.live[e.id], side, price) {
      AloneAt(b.live, e.id, side, price);
    }
  }

  /** Over any message sequence from the empty book, the indexes agree and the level keys are exactly the live
      prices throughout, if and only if every sum fits in 32 bits and no message strands an order. */
  lemma RunKeysExactly(es: seq<Event>)
    ensures (forall n :: 0 <= n <= |es| ==> SoundKeys(ApplyAll(EMPTY_BOOK, es[..n])))
       <==> && (forall n :: 0 <= n <= |es| ==> Fits(LiveAll(map[], es[..n])))
            && (forall n :: 0 <= n < |es| ==> !Strands(LiveAll(map[], es[..n]), es[n]))
  {
    hide Sound, Fits, KeysExact, Strands, Apply;
    if (forall n :: 0 <= n <= |es| ==> Fits(LiveAll(map[], es[..n])))
      && (forall n :: 0 <= n < |es| ==> !Strands(LiveAll(map[], es[..n]), es[n])) {
      forall n | 0 <= n <= |es|
        ensures SoundKeys(ApplyAll(EMPTY_BOOK, es[..n]))
      {
        RunKeepsKeys(es, n);
      }
    }
    if forall n :: 0 <= n <= |es| ==> SoundKeys(ApplyAll(EMPTY_BOOK, es[..n])) {
      forall n | 0 <= n <= |es|
        ensures Fits(LiveAll(map[], es[..n]))
      {
        assert SoundKeys(ApplyAll(EMPTY_BOOK, es[..n]));
        SoundImpliesFits(ApplyAll(EMPTY_BOOK, es[..n]));
        ApplyAllLive(EMPTY_BOOK, es[..n]);
      }
      forall n | 0 <= n < |es|
        ensures !Strands(LiveAll(map[], es[..n]), es[n])
      {
        assert SoundKeys(ApplyAll(EMPTY_BOOK, es[..n])) && SoundKeys(ApplyAll(EMPTY_BOOK, es[..n + 1]));
        assert es[..n + 1][..n] == es[..n];
        ApplyAllLive(EMPTY_BOOK, es[..n]);
        ApplyKeysExactly(ApplyAll(EMPTY_BOOK, es[..n]), es[n]);
      }
    }
  }

  ghost predicate SoundKeys(b: Book) {
    Sound(b) && KeysExact(b)
  }

  lemma SoundImpliesFits(b: Book)
    requires Sound(b)
    ensures Fits(b.live)
  {
    SoundFits(b);
  }

  lemma {:induction false} RunKeepsKeys(es: seq<Event>, n: nat)
    requires n <= |es|
    requires forall k :: 0 <= k <= n ==> Fits(LiveAll(map[], es[..k]))
    requires forall k :: 0 <= k < n ==> !Strands(LiveAll(map[], es[..k]), es[k])
    ensures SoundKeys(ApplyAll(EMPTY_BOOK, es[..n]))
  {
    RunKeepsSound(es, n);
    if n == 0 {
      assert es[..n] == [];
    } else {
      hide Sound, Fits, KeysExact, Strands, Apply;
      RunKeepsKeys(es, n - 1);
      assert es[..n][..n - 1] == es[..n - 1];
      ApplyAllLive(EMPTY_BOOK, es[..n - 1]);
      ApplyKeysExactly(ApplyAll(EMPTY_BOOK, es[..n - 1]), es[n - 1]);
    }
  }

  /** A zero-quantity add makes the difference: its order stays live after the level it shared is gone. */
  lemma EmptyOrderLosesItsLevel(price: u32)
    ensures var shared := Apply(Apply(EMPTY_BOOK, Add(1, Some(Buy), price, 5)), Add(2, Some(Buy), price, 0));
            var b := Apply(shared, Delete(1));
            && Strands(shared.live, Delete(1))
            && Sound(b) && HasOrderAt(b.live, Buy, price) && price !in b.bids
  {
    var first := Apply(EMPTY_BOOK, Add(1, Some(Buy), price, 5));
    var second := Apply(first, Add(2, Some(Buy), price, 0));
    var third := Apply(second, Delete(1));
    EmptySound();
    assert first.live == map[1 := Order(Buy, 5, price)] && second.live - {2} == first.live;
    forall side, p: u32
      ensures Resting(first.live, side, p) <= 5
      ensures Resting(second.live, side, p) == Resting(first.live, side, p)
    {
      OneOrderResting(1, Order(Buy, 5, price), side, p);
      RestingWithout(second.live, 2, side, p);
    }
    ApplyKeepsSound(EMPTY_BOOK, Add(1, Some(Buy), price, 5));
    ApplyKeepsSound(first, Add(2, Some(Buy), price, 0));
    EraseKeepsSound(second, 1);
    assert 2 in second.live && 2 != 1 && Rests(second.live[2], Buy, price);
    assert 2 in third.live && Rests(third.live[2], Buy, price);
  }

  // ---- Traffic without zero quantities. ----

  predicate AllPositive(live: Live) {
    forall id :: id in live ==> live[id].quantity > 0
  }

  predicate PositiveAdd(e: Event) {
    e.Add? ==> e.quantity > 0
  }

  lemma LiveStaysPositive(live: Live, e: Event)
    requires AllPositive(live) && PositiveAdd(e)
    ensures AllPositive(LiveAfter(live, e))
  {
  }

  lemma {:induction false} RunStaysPositive(es: seq<Event>)
    requires forall i :: 0 <= i < |es| ==> PositiveAdd(es[i])
    ensures AllPositive(LiveAll(map[], es))
  {
    if es != [] {
      RunStaysPositive(es[..|es| - 1]);
      LiveStaysPositive(LiveAll(map[], es[..|es| - 1]), es[|es| - 1]);
    }
  }

  /** The level keys of a sound book of positive orders are exactly the live prices. */
  lemma KeysAreLivePrices(b: Book)
    requires Sound(b) && AllPositive(b.live)
    ensures KeysExact(b)
  {
    hide Resting;
    forall side, price: u32
      ensures KeyExactAt(b, side, price)
    {
      assert LevelAt(b.LevelsOf(side), price) == Resting(b.live, side, price);
      if HasOrderAt(b.live, side, price) {
        var id :| id in b.live && Rests(b.live[id], side, price);
        RestingWithout(b.live, id, side, price);
      }
    }
  }

  /** Positive orders are never stranded. */
  lemma PositiveNeverStrands(live: Live, e: Event)
    requires AllPositive(live)
    ensures !Strands(live, e)
  {
    hide Resting;
    if Strands(live, e) {
      var o := live[e.id];
      var other :| other in live && other != e.id && Rests(live[other], o.side, o.price);
      RestingWithout(live, e.id, o.side, o.price);
      RestingWithout(live - {e.id}, other, o.side, o.price);
    }
  }

  // ---- The book as a function of its live orders. ----

  lemma SameKeysSameBook(b: Book, c: Book)
    requires Sound(b) && Sound(c) && b.live == c.live
    requires forall side, price: u32 :: SameKeyAt(b, c, side, price)
    ensures b == c
  {
    hide Resting;
    forall side
      ensures b.LevelsOf(side) == c.LevelsOf(side)
    {
      forall price: u32
        ensures price in b.LevelsOf(side) <==> price in c.LevelsOf(side)
        ensures price in b.LevelsOf(side) ==> b.LevelsOf(side)[price] == c.LevelsOf(side)[price]
      {
        assert SameKeyAt(b, c, side, price);
        assert LevelAt(b.LevelsOf(side), price) == Resting(b.live, side, price);
        assert LevelAt(c.LevelsOf(side), price) == Resting(b.live, side, price);
      }
    }
    assert b.LevelsOf(Buy) == c.LevelsOf(Buy) && b.LevelsOf(Sell) == c.LevelsOf(Sell);
  }

  predicate SameKeyAt(b: Book, c: Book, side: Side, price: u32) {
    price in b.LevelsOf(side) <==> price in c.LevelsOf(side)
  }

  /** The incremental book is a function of its live orders, however they came about, while its keys are exact. */
  lemma BookDeterminedByLive(b: Book, c: Book)
    requires Sound(b) && Sound(c) && b.live == c.live && KeysExact(b)
    ensures b == c <==> KeysExact(c)
  {
    hide Sound, HasOrderAt;
    if KeysExact(c) {
      forall side, price: u32
        ensures SameKeyAt(b, c, side, price)
      {
        assert KeyExactAt(b, side, price) && KeyExactAt(c, side, price);
      }
      SameKeysSameBook(b, c);
    }
  }
}

/** The two level maps are indexes over the live orders: this module proves that they stay in step. */
module BookProofs {
  import opened Prelude
  import opened Protocol
  import opened Books

  // ---- What each message means for the live orders alone. ----

  function LiveAfter(live: Live, e: Event): Live {
    match e
    case Add(id, side, price, quantity) =>
      if side.None? then live else live[id := Order(side.value, quantity, price)]
    case Modify(id, price, quantity) =>
      if id !in live then live
      else if quantity == 0 then live - {id}
      else live[id := Order(live[id].side, quantity, price)]
    case Delete(id) =>
      live - {id}
    case Execute(id, _, quantity) =>
      if id !in live then live
      else if live[id].quantity <= quantity then live - {id}
      else live[id := live[id].(quantity := live[id].quantity - quantity)]
  }

  function LiveAll(live: Live, es: seq<Event>): Live {
    if es == [] then live
    else LiveAfter(LiveAll(live, es[..|es| - 1]), es[|es| - 1])
  }

  lemma ApplyLive(b: Book, e: Event)
    ensures Apply(b, e).live == LiveAfter(b.live, e)
  {
  }

  lemma {:induction false} ApplyAllLive(b: Book, es: seq<Event>)
    ensures ApplyAll(b, es).live == LiveAll(b.live, es)
  {
    if es != [] {
      ApplyAllLive(b, es[..|es| - 1]);
      ApplyLive(ApplyAll(b, es[..|es| - 1]), es[|es| - 1]);
    }
  }

  // ---- Total resting quantity at one side and price. ----

  predicate Rests(o: Order, side: Side, price: u32) {
    o.side == side && o.price == price
  }

  function Share(o: Order, side: Side, price: u32): nat {
    if Rests(o, side, price) then o.quantity else 0
  }

  ghost function SomeId(live: Live): (id: u64)
    requires live != map[]
    ensures id in live
  {
    var id :| id in live;
    id
  }

  ghost function Resting(live: Live, side: Side, price: u32): nat
    decreases |live|
  {
    if live == map[] then 0
    else
      var id := SomeId(live);
      Share(live[id], side, price) + Resting(live - {id}, side, price)
  }

  lemma {:induction false} RestingWithout(live: Live, id: u64, side: Side, price: u32)
    requires id in live
    ensures Resting(live, side, price) == Share(live[id], side, price) + Resting(live - {id}, side, price)
    decreases |live|
  {
    var first := SomeId(live);
    if first != id {
      RestingWithout(live - {first}, id, side, price);
      RestingWithout(live - {id}, first, side, price);
      assert live - {first} - {id} == live - {id} - {first};
    }
  }

  lemma {:induction false} RestingWitness(live: Live, side: Side, price: u32)
    requires Resting(live, side, price) > 0
    ensures exists id :: id in live && Rests(live[id], side, price)
    decreases |live|
  {
    var first := SomeId(live);
    if !Rests(live[first], side, price) {
      RestingWitness(live - {first}, side, price);
      var id :| id in live - {first} && Rests((live - {first})[id], side, price);
      assert id in live && Rests(live[id], side, price);
    }
  }

  // ---- Soundness of a book. ----

  /** Each level, absent counted as 0, equals the resting quantity it indexes. */
  ghost predicate Agrees(b: Book) {
    forall side, price: u32 :: LevelAt(b.LevelsOf(side), price) == Resting(b.live, side, price)
  }

  ghost predicate HasOrderAt(live: Live, side: Side, price: u32) {
    exists id :: id in live && Rests(live[id], side, price)
  }

  ghost predicate NoStrayLevels(b: Book) {
    forall side, price: u32 :: price in b.LevelsOf(side) ==> HasOrderAt(b.live, side, price)
  }

  ghost predicate Sound(b: Book) {
    Agrees(b) && NoStrayLevels(b)
  }

  /** Every per-side, per-price sum is representable in the 32 bits of a level. */
  ghost predicate Fits(live: Live) {
    forall side, price: u32 :: Resting(live, side, price) <= U32_MAX
  }

  /** `subtract_level` never clips: the level always covers the order taken out of it. */
  lemma LevelCovers(b: Book, id: u64)
    requires Agrees(b) && id in b.live
    ensures var o := b.live[id]; LevelAt(b.LevelsOf(o.side), o.price) >= o.quantity
  {
    var o := b.live[id];
    RestingWithout(b.live, id, o.side, o.price);
    assert LevelAt(b.LevelsOf(o.side), o.price) == Resting(b.live, o.side, o.price);
  }

  lemma EraseKeepsSound(b: Book, id: u64)
    requires Sound(b)
    ensures Sound(EraseOrder(b, id))
  {
    hide Resting;
    if id in b.live {
      var o := b.live[id];
      var after := EraseOrder(b, id);
      forall side, price: u32
        ensures LevelAt(after.LevelsOf(side), price) == Resting(after.live, side, price)
        ensures price in after.LevelsOf(side) ==> HasOrderAt(after.live, side, price)
      {
        RestingWithout(b.live, id, side, price);
        assert LevelAt(b.LevelsOf(side), price) == Resting(b.live, side, price);
        if price in after.LevelsOf(side) {
          if Rests(o, side, price) {
            RestingWitness(after.live, side, price);
          } else {
            assert HasOrderAt(b.live, side, price);
            var other :| other in b.live && Rests(b.live[other], side, price);
            assert other in after.live && Rests(after.live[other], side, price);
          }
        }
      }
    }
  }

  lemma InsertKeepsSound(b: Book, id: u64, o: Order)
    requires Sound(b) && id !in b.live
    requires Fits(b.live[id := o])
    ensures Sound(InsertOrder(b, id, o))
  {
    hide Resting;
    var after := InsertOrder(b, id, o);
    assert after.live - {id} == b.live;
    forall side, price: u32
      ensures LevelAt(after.LevelsOf(side), price) == Resting(after.live, side, price)
      ensures price in after.LevelsOf(side) ==> HasOrderAt(after.live, side, price)
    {
      RestingWithout(after.live, id, side, price);
      assert LevelAt(b.LevelsOf(side), price) == Resting(b.live, side, price);
      assert Resting(after.live, side, price) <= U32_MAX;
      if price in after.LevelsOf(side) {
        if Rests(o, side, price) {
          assert id in after.live && Rests(after.live[id], side, price);
        } else {
          assert HasOrderAt(b.live, side, price);
          var other :| other in b.live && Rests(b.live[other], side, price);
          assert other in after.live && Rests(after.live[other], side, price);
        }
      }
    }
  }

  /** A trade leaves the book a modify to the same price and the unexecuted quantity leaves. */
  lemma TradeIsModify(b: Book, id: u64, tradePrice: u32, quantity: u32)
    requires Agrees(b) && id in b.live
    ensures var left := b.live[id].quantity - Min(b.live[id].quantity, quantity);
            Apply(b, Execute(id, tradePrice, quantity)) == Apply(b, Modify(id, b.live[id].price, left))
  {
    LevelCovers(b, id);
    var o := b.live[id];
    var levels := b.LevelsOf(o.side);
    var executed := Min(o.quantity, quantity);
    if o.quantity - executed != 0 {
      assert SubtractFromLevel(levels, o.price, executed)
          == AddToLevel(SubtractFromLevel(levels, o.price, o.quantity), o.price, o.quantity - executed);
    }
  }

  /** On a live order, a modify to a positive quantity is a delete followed by an add on the same side;
      on an unknown order the modify does nothing while the add would insert. */
  lemma ModifyIsDeleteThenAdd(b: Book, id: u64, side: Side, price: u32, quantity: u32)
    requires quantity > 0
    ensures Apply(b, Modify(id, price, quantity)) == Apply(Apply(b, Delete(id)), Add(id, Some(side), price, quantity))
       <==> id in b.live && b.live[id].side == side
  {
    var modified := Apply(b, Modify(id, price, quantity));
    var readded := Apply(Apply(b, Delete(id)), Add(id, Some(side), price, quantity));
    assert readded.live == b.live[id := Order(side, quantity, price)];
    assert readded.live[id] == Order(side, quantity, price);
    if id in b.live {
      assert modified.live == b.live[id := Order(b.live[id].side, quantity, price)];
      assert modified.live[id] == Order(b.live[id].side, quantity, price);
    }
  }

  /** One message keeps the indexes in step exactly when the sums it leaves fit in 32 bits. */
  lemma ApplySoundExactly(b: Book, e: Event)
    requires Sound(b)
    ensures Sound(Apply(b, e)) <==> Fits(LiveAfter(b.live, e))
  {
    ApplyLive(b, e);
    if Sound(Apply(b, e)) {
      SoundFits(Apply(b, e));
    }
    if Fits(LiveAfter(b.live, e)) {
      ApplyKeepsSound(b, e);
    }
  }

  lemma SoundFits(b: Book)
    requires Agrees(b)
    ensures Fits(b.live)
  {
    forall side, price: u32
      ensures Resting(b.live, side, price) <= U32_MAX
    {
      assert LevelAt(b.LevelsOf(side), price) == Resting(b.live, side, price);
    }
  }

  lemma ReplaceKeepsSound(b: Book, id: u64, o: Order)
    requires Sound(b) && Fits(b.live[id := o])
    ensures Sound(InsertOrder(EraseOrder(b, id), id, o))
    ensures InsertOrder(EraseOrder(b, id), id, o).live == b.live[id := o]
  {
    EraseKeepsSound(b, id);
    assert EraseOrder(b, id).live[id := o] == b.live[id := o];
    InsertKeepsSound(EraseOrder(b, id), id, o);
  }

  lemma ModifyKeepsSound(b: Book, id: u64, price: u32, quantity: u32)
    requires Sound(b) && Fits(LiveAfter(b.live, Modify(id, price, quantity)))
    ensures Sound(Apply(b, Modify(id, price, quantity)))
  {
    if id in b.live {
      if quantity == 0 {
        EraseKeepsSound(b, id);
      } else {
        var o := Order(b.live[id].side, quantity, price);
        ReplaceKeepsSound(b, id, o);
        assert Apply(b, Modify(id, price, quantity)) == InsertOrder(EraseOrder(b, id), id, o);
      }
    }
  }

  lemma TradeKeepsSound(b: Book, id: u64, tradePrice: u32, quantity: u32)
    requires Sound(b) && Fits(LiveAfter(b.live, Execute(id, tradePrice, quantity)))
    ensures Sound(Apply(b, Execute(id, tradePrice, quantity)))
  {
    if id in b.live {
      var o := b.live[id];
      var asModify := Modify(id, o.price, o.quantity - Min(o.quantity, quantity));
      TradeIsModify(b, id, tradePrice, quantity);
      ApplyLive(b, Execute(id, tradePrice, quantity));
      ApplyLive(b, asModify);
      ModifyKeepsSound(b, id, asModify.price, asModify.quantity);
    }
  }

  lemma ApplyKeepsSound(b: Book, e: Event)
    requires Sound(b) && Fits(LiveAfter(b.live, e))
    ensures Sound(Apply(b, e))
  {
    match e
    case Add(id, side, price, quantity) =>
      if side.Some? {
        ReplaceKeepsSound(b, id, Order(side.value, quantity, price));
      }
    case Modify(id, price, quantity) =>
      ModifyKeepsSound(b, id, price, quantity);
    case Delete(id) =>
      EraseKeepsSound(b, id);
    case Execute(id, tradePrice, quantity) =>
      TradeKeepsSound(b, id, tradePrice, quantity);
  }

  lemma EmptySound()
    ensures Sound(EMPTY_BOOK) && Fits(map[])
  {
    SoundFits(EMPTY_BOOK);
  }

  /** Over any message sequence from the empty book, the indexes agree throughout exactly when
      no per-price sum ever outgrows 32 bits. */
  lemma RunSoundExactly(es: seq<Event>)
    ensures (forall n :: 0 <= n <= |es| ==> Sound(ApplyAll(EMPTY_BOOK, es[..n])))
       <==> (forall n :: 0 <= n <= |es| ==> Fits(LiveAll(map[], es[..n])))
  {
    if forall n :: 0 <= n <= |es| ==> Fits(LiveAll(map[], es[..n])) {
      forall n | 0 <= n <= |es|
        ensures Sound(ApplyAll(EMPTY_BOOK, es[..n]))
      {
        RunKeepsSound(es, n);
      }
    }
    if forall n :: 0 <= n <= |es| ==> Sound(ApplyAll(EMPTY_BOOK, es[..n])) {
      forall n | 0 <= n <= |es|
        ensures Fits(LiveAll(map[], es[..n]))
      {
        SoundFits(ApplyAll(EMPTY_BOOK, es[..n]));
        ApplyAllLive(EMPTY_BOOK, es[..n]);
      }
    }
  }

  lemma {:induction false} RunKeepsSound(es: seq<Event>, n: nat)
    requires n <= |es|
    requires forall k :: 0 <= k <= n ==> Fits(LiveAll(map[], es[..k]))
    ensures Sound(ApplyAll(EMPTY_BOOK, es[..n]))
  {
    if n == 0 {
      EmptySound();
    } else {
      RunKeepsSound(es, n - 1);
      assert es[..n][..n - 1] == es[..n - 1];
      ApplyAllLive(EMPTY_BOOK, es[..n - 1]);
      assert Fits(LiveAll(map[], es[..n]));
      ApplyKeepsSound(ApplyAll(EMPTY_BOOK, es[..n - 1]), es[n - 1]);
    }
  }

  lemma OneOrderResting(id: u64, o: Order, side: Side, price: u32)
    ensures Resting(map[id := o], side, price) == Share(o, side, price)
  {
    RestingWithout(map[id := o], id, side, price);
    assert map[id := o] - {id} == map[];
  }

  /** Beyond 32 bits the agreement is lost: adding 1 to a level of 2^32 - 1 leaves it reading 0. */
  lemma OverflowBreaksAgreement(price: u32)
    ensures var full := Apply(EMPTY_BOOK, Add(1, Some(Buy), price, U32_MAX));
            var wrapped := Apply(full, Add(2, Some(Buy), price, 1));
            && Sound(full)
            && price in wrapped.bids && wrapped.bids[price] == 0
            && Resting(wrapped.live, Buy, price) == U32_MAX + 1
            && !Sound(wrapped)
  {
    hide Resting;
    var first := Order(Buy, U32_MAX, price);
    var full := Apply(EMPTY_BOOK, Add(1, Some(Buy), price, U32_MAX));
    var wrapped := Apply(full, Add(2, Some(Buy), price, 1));
    EmptySound();
    assert full.live == map[1 := first];
    forall side, p: u32
      ensures Resting(full.live, side, p) <= U32_MAX
    {
      OneOrderResting(1, first, side, p);
    }
    ApplyKeepsSound(EMPTY_BOOK, Add(1, Some(Buy), price, U32_MAX));
    OneOrderResting(1, first, Buy, price);
    RestingWithout(wrapped.live, 2, Buy, price);
    assert wrapped.live - {2} == full.live;
    assert LevelAt(full.LevelsOf(Buy), price) == U32_MAX;
    assert LevelAt(wrapped.LevelsOf(Buy), price) == 0;
  }
}

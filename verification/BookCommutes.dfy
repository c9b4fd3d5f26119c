/** When messages about different orders commute. */
module BookCommutes {
  import opened Prelude
  import opened Protocol
  import opened Books
  import opened BookProofs
  import opened BookKeys

  lemma LiveCommutes(live: Live, e: Event, f: Event)
    requires e.id != f.id
    ensures LiveAfter(LiveAfter(live, e), f) == LiveAfter(LiveAfter(live, f), e)
  {
    var l := LiveAfter(LiveAfter(live, e), f);
    var r := LiveAfter(LiveAfter(live, f), e);
    TouchesOnlyItsOrder(live, e);
    TouchesOnlyItsOrder(live, f);
    TouchesOnlyItsOrder(LiveAfter(live, e), f);
    TouchesOnlyItsOrder(LiveAfter(live, f), e);
    forall id
      ensures id in l <==> id in r
      ensures id in l ==> l[id] == r[id]
    {
      assert SameAt(live, LiveAfter(live, f), e.id);
      assert SameAt(live, LiveAfter(live, e), f.id);
    }
  }

  predicate SameAt(l: Live, r: Live, id: u64) {
    (id in l <==> id in r) && (id in l ==> l[id] == r[id])
  }

  lemma TouchesOnlyItsOrder(live: Live, e: Event)
    ensures forall id :: id != e.id ==> SameAt(live, LiveAfter(live, e), id)
  {
  }

  /** What a message does to a side and price does not depend on earlier messages about other orders. */
  lemma SameAction(live: Live, e: Event, f: Event, side: Side, price: u32)
    requires e.id != f.id
    ensures PutAt(LiveAfter(live, e), f, side, price) == PutAt(live, f, side, price)
    ensures TakeAt(LiveAfter(live, e), f, side, price) == TakeAt(live, f, side, price)
  {
    TouchesOnlyItsOrder(live, e);
    assert SameAt(live, LiveAfter(live, e), f.id);
  }

  lemma RestingAfter(live: Live, e: Event, side: Side, price: u32)
    ensures Resting(LiveAfter(live, e), side, price)
         == Resting(live, side, price) - ValueOf(TakeAt(live, e, side, price)) + ValueOf(PutAt(live, e, side, price))
  {
    hide Resting;
    var after := LiveAfter(live, e);
    assert after - {e.id} == live - {e.id};
    RestingSplit(live, e.id, side, price);
    RestingSplit(after, e.id, side, price);
  }

  lemma RestingSplit(live: Live, id: u64, side: Side, price: u32)
    ensures Resting(live, side, price)
         == Resting(live - {id}, side, price) + if id in live then Share(live[id], side, price) else 0
  {
    hide Resting;
    if id in live {
      RestingWithout(live, id, side, price);
    } else {
      assert live - {id} == live;
    }
  }

  lemma CoversBoth(live: Live, e: Event, f: Event, side: Side, price: u32)
    requires e.id != f.id
    ensures Resting(live, side, price)
         >= ValueOf(TakeAt(live, e, side, price)) + ValueOf(TakeAt(live, f, side, price))
  {
    hide Resting;
    RestingSplit(live, e.id, side, price);
    RestingSplit(live - {e.id}, f.id, side, price);
  }

  /** Whether it matters which of two messages comes last at a price where `value` rests. When both put there, it
      does if one wraps the level to less than the other takes, unless each does and both put the same. When one
      puts and the other only takes, it does if the take, coming last, erases the level: because nothing rests
      there in the end, or because the put has wrapped the level to no more than is taken. */
  predicate CellsClash(value: nat, takeE: Option<u32>, putE: Option<u32>, takeF: Option<u32>, putF: Option<u32>) {
    var firstE := value - ValueOf(takeE) + ValueOf(putE);
    var firstF := value - ValueOf(takeF) + ValueOf(putF);
    if putE.Some? && putF.Some? then
      var there := U32_MAX < firstE <= U32_MAX + ValueOf(takeF);
      var back := U32_MAX < firstF <= U32_MAX + ValueOf(takeE);
      (there || back) && !(there && back && putE == putF)
    else
      || (putE.Some? && takeF.Some? && ErasesLast(firstE, firstE - ValueOf(takeF)))
      || (putF.Some? && takeE.Some? && ErasesLast(firstF, firstF - ValueOf(takeE)))
  }

  predicate ErasesLast(first: int, last: int) {
    last == 0 || last <= U32_MAX + 1 <= first
  }

  ghost predicate ClashesAt(live: Live, e: Event, f: Event, side: Side, price: u32) {
    CellsClash(Resting(live, side, price), TakeAt(live, e, side, price), PutAt(live, e, side, price),
               TakeAt(live, f, side, price), PutAt(live, f, side, price))
  }

  ghost predicate Clashes(live: Live, e: Event, f: Event) {
    exists side, price: u32 :: ClashesAt(live, e, f, side, price)
  }

  lemma WrapsOnce(x: nat)
    requires x <= 2 * U32_MAX + 1
    ensures x % 0x1_0000_0000 == if x > U32_MAX then x - U32_MAX - 1 else x
    ensures (x + U32_MAX + 1) % 0x1_0000_0000 == x % 0x1_0000_0000
  {
  }

  /** A put, then a take, then a put: the sum modulo 2^32, unless the take finds the level wrapped below it. */
  lemma TakeAfterPut(cell: Option<u32>, takeE: Option<u32>, putE: u32, takeF: Option<u32>, putF: u32)
    requires ValueOf(cell) >= ValueOf(takeE) + ValueOf(takeF)
    ensures var first := ValueOf(cell) - ValueOf(takeE) + putE;
            AfterBoth(AfterBoth(cell, takeE, Some(putE)), takeF, Some(putF)) ==
            Some(if U32_MAX < first <= U32_MAX + ValueOf(takeF) then putF
                 else (first - ValueOf(takeF) + putF) % 0x1_0000_0000)
  {
    hide AfterTake, AfterPut;
    var left := ValueOf(cell) - ValueOf(takeE);
    var first := left + putE;
    TakeLeaves(cell, takeE);
    PutLeaves(AfterTake(cell, takeE), putE);
    var wrapped := first % 0x1_0000_0000;
    WrapsOnce(first);
    TakeLeaves(Some(wrapped), takeF);
    PutLeaves(AfterTake(Some(wrapped), takeF), putF);
    if U32_MAX + ValueOf(takeF) < first {
      WrapsOnce(wrapped - ValueOf(takeF) + putF);
    } else if U32_MAX < first {
      WrapsOnce(putF);
    }
  }

  lemma TakeLeaves(cell: Option<u32>, take: Option<u32>)
    ensures ValueOf(AfterTake(cell, take))
         == if ValueOf(cell) <= ValueOf(take) then 0 else ValueOf(cell) - ValueOf(take)
  {
  }

  lemma PutLeaves(cell: Option<u32>, put: u32)
    ensures AfterPut(cell, Some(put)) == Some((ValueOf(cell) + put) % 0x1_0000_0000)
  {
  }

  lemma PutsCommute(cell: Option<u32>, takeE: Option<u32>, takeF: Option<u32>, putE: u32, putF: u32)
    requires ValueOf(cell) >= ValueOf(takeE) + ValueOf(takeF)
    ensures AfterBoth(AfterBoth(cell, takeE, Some(putE)), takeF, Some(putF))
         == AfterBoth(AfterBoth(cell, takeF, Some(putF)), takeE, Some(putE))
       <==> !CellsClash(ValueOf(cell), takeE, Some(putE), takeF, Some(putF))
  {
    hide AfterBoth;
    TakeAfterPut(cell, takeE, putE, takeF, putF);
    TakeAfterPut(cell, takeF, putF, takeE, putE);
    var sum := ValueOf(cell) - ValueOf(takeE) - ValueOf(takeF) + putE + putF;
    OtherThanSum(sum, ValueOf(cell) - ValueOf(takeE) + putE - ValueOf(takeF), putF);
    OtherThanSum(sum, ValueOf(cell) - ValueOf(takeF) + putF - ValueOf(takeE), putE);
  }

  lemma OtherThanSum(sum: nat, rest: int, put: u32)
    requires sum == rest + put
    ensures 0 < rest <= U32_MAX ==> sum % 0x1_0000_0000 != put
  {
    if 0 < rest <= U32_MAX {
      WrapsOnce(sum);
    }
  }

  lemma PutLast(cell: Option<u32>, takeE: Option<u32>, takeF: Option<u32>, putE: u32)
    requires ValueOf(cell) >= ValueOf(takeE) + ValueOf(takeF)
    ensures AfterBoth(AfterBoth(cell, takeF, None), takeE, Some(putE))
         == Some((ValueOf(cell) - ValueOf(takeE) - ValueOf(takeF) + putE) % 0x1_0000_0000)
  {
    hide AfterTake, AfterPut;
    var taken := AfterTake(cell, takeF);
    TakeLeaves(cell, takeF);
    PutNothing(taken);
    TakeLeaves(taken, takeE);
    PutLeaves(AfterTake(taken, takeE), putE);
  }

  lemma PutNothing(cell: Option<u32>)
    ensures AfterPut(cell, None) == cell
  {
  }

  lemma TakeLast(cell: Option<u32>, takeE: Option<u32>, takeF: Option<u32>, putE: u32)
    requires ValueOf(cell) >= ValueOf(takeE)
    ensures AfterBoth(AfterBoth(cell, takeE, Some(putE)), takeF, None)
         == AfterTake(Some((ValueOf(cell) - ValueOf(takeE) + putE) % 0x1_0000_0000), takeF)
  {
    hide AfterTake, AfterPut;
    TakeLeaves(cell, takeE);
    PutLeaves(AfterTake(cell, takeE), putE);
    PutNothing(AfterTake(Some((ValueOf(cell) - ValueOf(takeE) + putE) % 0x1_0000_0000), takeF));
  }

  lemma PutAndTakeCommute(cell: Option<u32>, takeE: Option<u32>, takeF: Option<u32>, putE: u32)
    requires ValueOf(cell) >= ValueOf(takeE) + ValueOf(takeF)
    ensures var first := ValueOf(cell) - ValueOf(takeE) + putE;
            (AfterBoth(AfterBoth(cell, takeE, Some(putE)), takeF, None) ==
             AfterBoth(AfterBoth(cell, takeF, None), takeE, Some(putE))) ==
            !(takeF.Some? && ErasesLast(first, first - ValueOf(takeF)))
  {
    hide AfterBoth;
    var first := ValueOf(cell) - ValueOf(takeE) + putE;
    PutLast(cell, takeE, takeF, putE);
    TakeLast(cell, takeE, takeF, putE);
    WrapsOnce(first);
    WrapsOnce(first - ValueOf(takeF));
  }

  lemma TakesCommute(cell: Option<u32>, takeE: Option<u32>, takeF: Option<u32>)
    requires ValueOf(cell) >= ValueOf(takeE) + ValueOf(takeF)
    ensures AfterBoth(AfterBoth(cell, takeE, None), takeF, None) == AfterBoth(AfterBoth(cell, takeF, None), takeE, None)
  {
  }

  lemma CellsCommuteExactly(cell: Option<u32>, takeE: Option<u32>, putE: Option<u32>,
                            takeF: Option<u32>, putF: Option<u32>)
    requires ValueOf(cell) >= ValueOf(takeE) + ValueOf(takeF)
    ensures AfterBoth(AfterBoth(cell, takeE, putE), takeF, putF) == AfterBoth(AfterBoth(cell, takeF, putF), takeE, putE)
       <==> !CellsClash(ValueOf(cell), takeE, putE, takeF, putF)
  {
    hide AfterBoth, ErasesLast;
    if putE.Some? && putF.Some? {
      PutsCommute(cell, takeE, takeF, putE.value, putF.value);
    } else if putE.Some? {
      PutAndTakeCommute(cell, takeE, takeF, putE.value);
    } else if putF.Some? {
      PutAndTakeCommute(cell, takeF, takeE, putF.value);
    } else {
      TakesCommute(cell, takeE, takeF);
    }
  }

  lemma CellCommutesExactly(b: Book, e: Event, f: Event, side: Side, price: u32)
    requires Sound(b) && e.id != f.id
    ensures CellOf(Apply(Apply(b, e), f), side, price) == CellOf(Apply(Apply(b, f), e), side, price)
       <==> !ClashesAt(b.live, e, f, side, price)
  {
    hide Resting, Apply, LiveAfter, TakeAt, PutAt, AfterBoth, CellsClash;
    var live, cell := b.live, CellOf(b, side, price);
    assert ValueOf(cell) == LevelAt(b.LevelsOf(side), price) == Resting(live, side, price);
    BothOrders(b, e, f, side, price);
    BothOrders(b, f, e, side, price);
    CoversBoth(live, e, f, side, price);
    CellsCommuteExactly(cell, TakeAt(live, e, side, price), PutAt(live, e, side, price),
                        TakeAt(live, f, side, price), PutAt(live, f, side, price));
  }

  lemma BothOrders(b: Book, e: Event, f: Event, side: Side, price: u32)
    requires e.id != f.id
    ensures CellOf(Apply(Apply(b, e), f), side, price)
         == AfterBoth(AfterBoth(CellOf(b, side, price), TakeAt(b.live, e, side, price), PutAt(b.live, e, side, price)),
                      TakeAt(b.live, f, side, price), PutAt(b.live, f, side, price))
  {
    hide Apply, LiveAfter, TakeAt, PutAt, CellOf, AfterBoth;
    ApplyLive(b, e);
    CellAfter(b, e, side, price);
    CellAfter(Apply(b, e), f, side, price);
    SameAction(b.live, e, f, side, price);
  }

  ghost predicate SameCellAt(b: Book, c: Book, side: Side, price: u32) {
    CellOf(b, side, price) == CellOf(c, side, price)
  }

  lemma SameCellsSameBook(b: Book, c: Book)
    requires b.live == c.live
    requires forall side, price: u32 :: SameCellAt(b, c, side, price)
    ensures b == c
  {
    forall side
      ensures b.LevelsOf(side) == c.LevelsOf(side)
    {
      forall price: u32
        ensures price in b.LevelsOf(side) <==> price in c.LevelsOf(side)
        ensures price in b.LevelsOf(side) ==> b.LevelsOf(side)[price] == c.LevelsOf(side)[price]
      {
        assert SameCellAt(b, c, side, price);
      }
    }
    assert b.LevelsOf(Buy) == c.LevelsOf(Buy) && b.LevelsOf(Sell) == c.LevelsOf(Sell);
  }

  /** On a sound book, whether or not the sums stay within 32 bits, messages about different orders commute if
      and only if they do not clash. */
  lemma ApplyCommutesExactly(b: Book, e: Event, f: Event)
    requires Sound(b) && e.id != f.id
    ensures Apply(Apply(b, e), f) == Apply(Apply(b, f), e) <==> !Clashes(b.live, e, f)
  {
    hide Apply, LiveAfter, Sound, ClashesAt, CellOf;
    LiveCommutes(b.live, e, f);
    ApplyLive(b, e);
    ApplyLive(b, f);
    ApplyLive(Apply(b, e), f);
    ApplyLive(Apply(b, f), e);
    var l, r := Apply(Apply(b, e), f), Apply(Apply(b, f), e);
    forall side, price: u32
      ensures SameCellAt(l, r, side, price) <==> !ClashesAt(b.live, e, f, side, price)
    {
      CellCommutesExactly(b, e, f, side, price);
    }
    if !Clashes(b.live, e, f) {
      SameCellsSameBook(l, r);
    } else {
      var side, price: u32 :| ClashesAt(b.live, e, f, side, price);
      assert !SameCellAt(l, r, side, price);
    }
  }

  lemma PositiveCellsFit(value: nat, takeE: Option<u32>, putE: Option<u32>, takeF: Option<u32>, putF: Option<u32>)
    requires value >= ValueOf(takeE) + ValueOf(takeF)
    requires value - ValueOf(takeE) + ValueOf(putE) <= U32_MAX && value - ValueOf(takeF) + ValueOf(putF) <= U32_MAX
    requires (putE.Some? ==> putE.value > 0) && (putF.Some? ==> putF.value > 0)
    ensures !CellsClash(value, takeE, putE, takeF, putF)
  {
  }

  lemma PutsArePositive(live: Live, e: Event, side: Side, price: u32)
    requires PositiveAdd(e) && PutsAt(live, e, side, price)
    ensures e.quantity > 0
  {
  }

  /** While each sum fits, positive adds never clash. */
  lemma PositiveNeverClashes(b: Book, e: Event, f: Event)
    requires e.id != f.id && PositiveAdd(e) && PositiveAdd(f)
    requires Fits(LiveAfter(b.live, e)) && Fits(LiveAfter(b.live, f))
    ensures !Clashes(b.live, e, f)
  {
    hide Resting, LiveAfter, PutsAt, TakeAt, CellsClash, PositiveAdd;
    var live := b.live;
    forall side, price: u32
      ensures !ClashesAt(live, e, f, side, price)
    {
      assert Resting(LiveAfter(live, e), side, price) <= U32_MAX;
      assert Resting(LiveAfter(live, f), side, price) <= U32_MAX;
      RestingAfter(live, e, side, price);
      RestingAfter(live, f, side, price);
      CoversBoth(live, e, f, side, price);
      if PutsAt(live, e, side, price) {
        PutsArePositive(live, e, side, price);
      }
      if PutsAt(live, f, side, price) {
        PutsArePositive(live, f, side, price);
      }
      PositiveCellsFit(Resting(live, side, price), TakeAt(live, e, side, price), PutAt(live, e, side, price),
                       TakeAt(live, f, side, price), PutAt(live, f, side, price));
    }
  }

  lemma ApplyCommutes(b: Book, e: Event, f: Event)
    requires Sound(b) && e.id != f.id && PositiveAdd(e) && PositiveAdd(f)
    requires Fits(LiveAfter(b.live, e)) && Fits(LiveAfter(b.live, f))
    ensures Apply(Apply(b, e), f) == Apply(Apply(b, f), e)
  {
    hide Apply, LiveAfter, Sound, Fits, Clashes;
    PositiveNeverClashes(b, e, f);
    ApplyCommutesExactly(b, e, f);
  }

  /** Adds of new orders commute whatever their quantities, even when their level wraps. */
  lemma NewOrdersCommute(b: Book, e: Event, f: Event)
    requires Sound(b) && e.id != f.id
    requires e.Add? && e.id !in b.live && f.Add? && f.id !in b.live
    ensures Apply(Apply(b, e), f) == Apply(Apply(b, f), e)
  {
    hide Apply, LiveAfter, Sound, Resting;
    ApplyCommutesExactly(b, e, f);
  }

  /** Past 32 bits a delete need not commute: it erases the wrapped level that should keep most of its quantity. */
  lemma OverflowBreaksCommuting(price: u32)
    ensures var b := Apply(EMPTY_BOOK, Add(1, Some(Buy), price, 5));
            var e, f := Add(2, Some(Buy), price, U32_MAX - 1), Delete(1);
            && Sound(b) && Clashes(b.live, e, f)
            && Apply(Apply(b, e), f) != Apply(Apply(b, f), e)
  {
    var b := Apply(EMPTY_BOOK, Add(1, Some(Buy), price, 5));
    var e, f := Add(2, Some(Buy), price, U32_MAX - 1), Delete(1);
    EmptySound();
    forall side, p: u32
      ensures Resting(b.live, side, p) <= 5
    {
      OneOrderResting(1, Order(Buy, 5, price), side, p);
    }
    ApplyKeepsSound(EMPTY_BOOK, Add(1, Some(Buy), price, 5));
    assert price !in Apply(Apply(b, e), f).bids;
    assert price in Apply(Apply(b, f), e).bids;
    ApplyCommutesExactly(b, e, f);
  }
}

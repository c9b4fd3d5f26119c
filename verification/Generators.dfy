/** The market data generator: a vector of live orders, appended to, overwritten, and swap-and-popped. */
module Generators {
  import opened Prelude
  import opened Protocol
  import opened Books
  import opened BookProofs
  import opened BookKeys
  import opened BookTops

  const U64_MAX: u64 := 0xFFFF_FFFF_FFFF_FFFF

  datatype LiveOrder = LiveOrder(orderId: u64, side: Side, quantity: u32, price: u32)

  datatype Pool = Pool(orders: seq<LiveOrder>, nextOrderId: u64)

  const EMPTY_POOL := Pool([], 1)

  /** The values one call of `next` may draw; a draw the call does not need is ignored. */
  datatype Draw = Draw(action: nat, side: Side, bidPrice: u32, askPrice: u32, quantity: u32, index: nat)

  predicate InRange(d: Draw, poolSize: nat) {
    && d.action < 100
    && 9950 <= d.bidPrice <= 10000
    && 10001 <= d.askPrice <= 10050
    && 10 <= d.quantity <= 250
    && (poolSize > 0 ==> d.index < poolSize)
  }

  function DrawnPrice(d: Draw, side: Side): u32 {
    if side == Buy then d.bidPrice else d.askPrice
  }

  // ---- One call of `next`, on values. ----

  function AddedOrder(p: Pool, d: Draw): (Pool, MadeEvent) {
    var o := LiveOrder(p.nextOrderId, d.side, d.quantity, DrawnPrice(d, d.side));
    (Pool(p.orders + [o], (p.nextOrderId + 1) % (U64_MAX + 1)), Add(o.orderId, Some(o.side), o.price, o.quantity))
  }

  function ModifiedOrder(p: Pool, d: Draw): (Pool, MadeEvent)
    requires InRange(d, |p.orders|)
  {
    if p.orders == [] then AddedOrder(p, d)
    else
      var o := p.orders[d.index].(price := DrawnPrice(d, p.orders[d.index].side), quantity := d.quantity);
      (p.(orders := p.orders[d.index := o]), Modify(o.orderId, o.price, o.quantity))
  }

  function DeletedOrder(p: Pool, d: Draw): (Pool, MadeEvent)
    requires InRange(d, |p.orders|)
  {
    if p.orders == [] then AddedOrder(p, d)
    else
      (p.(orders := SwapAndPop(p.orders, d.index)), Delete(p.orders[d.index].orderId))
  }

  /** The pool after one call and what the emitted message says. */
  function Next(p: Pool, d: Draw): (Pool, MadeEvent)
    requires InRange(d, |p.orders|)
  {
    if |p.orders| < 4 then AddedOrder(p, d)
    else if d.action < 45 then AddedOrder(p, d)
    else if d.action < 80 then ModifiedOrder(p, d)
    else DeletedOrder(p, d)
  }

  // ---- Whole runs. ----

  /** The pools a run of calls goes through, with the draw and the message of each call. */
  datatype Run = Run(pools: seq<Pool>, draws: seq<Draw>, events: seq<MadeEvent>)

  const START := Run([EMPTY_POOL], [], [])

  predicate ValidRun(r: Run) {
    && |r.pools| == |r.draws| + 1
    && |r.events| == |r.draws|
    && r.pools[0] == EMPTY_POOL
    && forall i :: 0 <= i < |r.draws| ==> CallAt(r, i)
  }

  predicate CallAt(r: Run, i: nat)
    requires i < |r.draws| && |r.pools| == |r.draws| + 1 && |r.events| == |r.draws|
  {
    InRange(r.draws[i], |r.pools[i].orders|) && Next(r.pools[i], r.draws[i]) == (r.pools[i + 1], r.events[i])
  }

  function CurrentPool(r: Run): Pool
    requires ValidRun(r)
  {
    r.pools[|r.draws|]
  }

  function Extend(r: Run, d: Draw): (r': Run)
    requires ValidRun(r) && InRange(d, |CurrentPool(r).orders|)
    ensures ValidRun(r') && r'.events == r.events + [Next(CurrentPool(r), d).1]
    ensures CurrentPool(r') == Next(CurrentPool(r), d).0
    ensures r.pools <= r'.pools
  {
    var (q, e) := Next(CurrentPool(r), d);
    var r' := Run(r.pools + [q], r.draws + [d], r.events + [e]);
    assert forall i :: 0 <= i < |r.draws| ==> CallAt(r, i) ==> CallAt(r', i);
    r'
  }

  predicate Drawable(p: Pool, draws: seq<Draw>)
    decreases |draws|
  {
    draws == [] || (InRange(draws[0], |p.orders|) && Drawable(Next(p, draws[0]).0, draws[1..]))
  }

  /** The pool and the messages after one call per draw. */
  function NextAll(p: Pool, draws: seq<Draw>): (r: (Pool, seq<MadeEvent>))
    requires Drawable(p, draws)
    ensures |r.1| == |draws|
    decreases |draws|
  {
    if draws == [] then (p, [])
    else
      var (q, e) := Next(p, draws[0]);
      var (last, later) := NextAll(q, draws[1..]);
      (last, [e] + later)
  }

  function ExtendAll(r: Run, draws: seq<Draw>): (r': Run)
    requires ValidRun(r) && Drawable(CurrentPool(r), draws)
    ensures ValidRun(r') && r.pools <= r'.pools
    decreases |draws|
  {
    if draws == [] then r else ExtendAll(Extend(r, draws[0]), draws[1..])
  }

  lemma {:induction false} ExtendAllIsNextAll(r: Run, draws: seq<Draw>)
    requires ValidRun(r) && Drawable(CurrentPool(r), draws)
    ensures CurrentPool(ExtendAll(r, draws)) == NextAll(CurrentPool(r), draws).0
    ensures ExtendAll(r, draws).events == r.events + NextAll(CurrentPool(r), draws).1
    decreases |draws|
  {
    if draws == [] {
      assert r.events + [] == r.events;
    } else {
      var e := Next(CurrentPool(r), draws[0]).1;
      ExtendAllIsNextAll(Extend(r, draws[0]), draws[1..]);
      var later := NextAll(CurrentPool(Extend(r, draws[0])), draws[1..]).1;
      assert r.events + [e] + later == r.events + ([e] + later);
    }
  }

  // ---- The pool as a set of live orders. ----

  predicate Distinct(orders: seq<LiveOrder>) {
    forall i, j :: 0 <= i < j < |orders| ==> orders[i].orderId != orders[j].orderId
  }

  function OrderOf(o: LiveOrder): Order {
    Order(o.side, o.quantity, o.price)
  }

  function AsLive(orders: seq<LiveOrder>): Live {
    if orders == [] then map[]
    else AsLive(orders[..|orders| - 1])[orders[|orders| - 1].orderId := OrderOf(orders[|orders| - 1])]
  }

  /** `live` holds the orders of the vector and nothing else. */
  ghost predicate Mirrors(orders: seq<LiveOrder>, live: Live) {
    && (forall i :: 0 <= i < |orders| ==> orders[i].orderId in live && live[orders[i].orderId] == OrderOf(orders[i]))
    && (forall id :: id in live ==> HasId(orders, id))
  }

  predicate HasId(orders: seq<LiveOrder>, id: u64) {
    exists i :: 0 <= i < |orders| && orders[i].orderId == id
  }

  lemma MirrorsAppend(front: seq<LiveOrder>, live: Live, o: LiveOrder)
    requires Mirrors(front, live) && !HasId(front, o.orderId)
    ensures o.orderId !in live
    ensures Mirrors(front + [o], live[o.orderId := OrderOf(o)])
  {
    var orders := front + [o];
    forall id | id in live[o.orderId := OrderOf(o)]
      ensures HasId(orders, id)
    {
      if id == o.orderId {
        assert orders[|front|].orderId == id;
      } else {
        assert HasId(front, id);
        var i :| 0 <= i < |front| && front[i].orderId == id;
        assert orders[i].orderId == id;
      }
    }
  }

  lemma {:induction false} AsLiveMirrors(orders: seq<LiveOrder>)
    requires Distinct(orders)
    ensures Mirrors(orders, AsLive(orders))
    ensures |AsLive(orders)| == |orders|
  {
    if orders != [] {
      hide Mirrors, HasId, Distinct, OrderOf;
      var n := |orders| - 1;
      LastIsNew(orders, n);
      AsLiveMirrors(orders[..n]);
      MirrorsAppend(orders[..n], AsLive(orders[..n]), orders[n]);
      assert orders == orders[..n] + [orders[n]];
    }
  }

  lemma LastIsNew(orders: seq<LiveOrder>, n: nat)
    requires Distinct(orders) && n < |orders|
    ensures Distinct(orders[..n]) && !HasId(orders[..n], orders[n].orderId)
  {
  }

  lemma MirrorsUnique(orders: seq<LiveOrder>, l: Live, r: Live)
    requires Mirrors(orders, l) && Mirrors(orders, r)
    ensures l == r
  {
    forall id
      ensures id in l <==> id in r
      ensures id in l ==> l[id] == r[id]
    {
      if id in l || id in r {
        var i :| 0 <= i < |orders| && orders[i].orderId == id;
        assert orders[i].orderId in l && orders[i].orderId in r;
      }
    }
  }

  lemma OverwriteLive(orders: seq<LiveOrder>, index: nat, o: LiveOrder)
    requires Distinct(orders) && index < |orders| && o.orderId == orders[index].orderId
    ensures Distinct(orders[index := o])
    ensures AsLive(orders[index := o]) == AsLive(orders)[o.orderId := OrderOf(o)]
  {
    hide AsLive;
    var after, live := orders[index := o], AsLive(orders)[o.orderId := OrderOf(o)];
    AsLiveMirrors(orders);
    assert forall i :: 0 <= i < |orders| ==> after[i].orderId == orders[i].orderId;
    forall id | id in live
      ensures HasId(after, id)
    {
      assert HasId(orders, id);
      var i :| 0 <= i < |orders| && orders[i].orderId == id;
      assert after[i].orderId == id;
    }
    assert Mirrors(after, live);
    AsLiveMirrors(after);
    MirrorsUnique(after, live, AsLive(after));
  }

  function SwapAndPop(orders: seq<LiveOrder>, index: nat): seq<LiveOrder>
    requires index < |orders|
  {
    orders[index := orders[|orders| - 1]][..|orders| - 1]
  }

  lemma SwapAndPopMirrors(orders: seq<LiveOrder>, index: nat, live: Live)
    requires Distinct(orders) && index < |orders| && Mirrors(orders, live)
    ensures Mirrors(SwapAndPop(orders, index), live - {orders[index].orderId})
  {
    var last, after := |orders| - 1, SwapAndPop(orders, index);
    assert forall i :: 0 <= i < last ==> after[i] == orders[if i == index then last else i];
    forall id | id in live - {orders[index].orderId}
      ensures HasId(after, id)
    {
      assert HasId(orders, id);
      var i :| 0 <= i < |orders| && orders[i].orderId == id;
      assert after[if i == last then index else i].orderId == id;
    }
  }

  /** Overwriting a slot with the last order and popping removes exactly that slot's order. */
  lemma SwapAndPopLive(orders: seq<LiveOrder>, index: nat)
    requires Distinct(orders) && index < |orders|
    ensures Distinct(SwapAndPop(orders, index))
    ensures AsLive(SwapAndPop(orders, index)) == AsLive(orders) - {orders[index].orderId}
  {
    var after, live := SwapAndPop(orders, index), AsLive(orders) - {orders[index].orderId};
    AsLiveMirrors(orders);
    SwapAndPopMirrors(orders, index, AsLive(orders));
    AsLiveMirrors(after);
    MirrorsUnique(after, live, AsLive(after));
  }

  predicate Plausible(o: LiveOrder) {
    && 10 <= o.quantity <= 250
    && if o.side == Buy then 9950 <= o.price <= 10000 else 10001 <= o.price <= 10050
  }

  /** After `issued` adds: ids `1..issued` have been used, each at most once, and live orders are in range. */
  predicate PoolOk(p: Pool, issued: nat) {
    && issued <= U64_MAX
    && p.nextOrderId == (issued + 1) % (U64_MAX + 1)
    && Distinct(p.orders)
    && (forall i :: 0 <= i < |p.orders| ==> 1 <= p.orders[i].orderId <= issued && Plausible(p.orders[i]))
  }

  /** What one call does to the pool is what its message does to the live orders. */
  lemma AddMirrored(p: Pool, d: Draw, issued: nat)
    requires PoolOk(p, issued) && issued < U64_MAX && InRange(d, |p.orders|)
    ensures var (q, e) := AddedOrder(p, d);
            && PoolOk(q, issued + 1)
            && e.id == issued + 1
            && AsLive(q.orders) == LiveAfter(AsLive(p.orders), e)
  {
    var o := LiveOrder(p.nextOrderId, d.side, d.quantity, DrawnPrice(d, d.side));
    assert (p.orders + [o])[..|p.orders|] == p.orders;
  }

  lemma ModifyMirrored(p: Pool, d: Draw, issued: nat)
    requires PoolOk(p, issued) && p.orders != [] && InRange(d, |p.orders|)
    ensures var (q, e) := ModifiedOrder(p, d);
            && PoolOk(q, issued)
            && AsLive(q.orders) == LiveAfter(AsLive(p.orders), e)
  {
    hide AsLive, Distinct, HasId;
    var was := p.orders[d.index];
    AsLiveMirrors(p.orders);
    assert AsLive(p.orders)[was.orderId] == OrderOf(was);
    OverwriteLive(p.orders, d.index, was.(price := DrawnPrice(d, was.side), quantity := d.quantity));
  }

  lemma DeleteMirrored(p: Pool, d: Draw, issued: nat)
    requires PoolOk(p, issued) && p.orders != [] && InRange(d, |p.orders|)
    ensures var (q, e) := DeletedOrder(p, d);
            && PoolOk(q, issued)
            && AsLive(q.orders) == LiveAfter(AsLive(p.orders), e)
  {
    SwapAndPopLive(p.orders, d.index);
    var (q, _) := DeletedOrder(p, d);
    assert forall i :: 0 <= i < |q.orders| ==> q.orders[i] == p.orders[if i == d.index then |p.orders| - 1 else i];
  }

  /** Whether one call of `next` adds an order. */
  predicate CallAdds(p: Pool, d: Draw) {
    |p.orders| < 4 || d.action < 45
  }

  /** How many of the first `n` calls added an order. */
  function AddsBefore(r: Run, n: nat): (count: nat)
    requires ValidRun(r) && n <= |r.draws|
    ensures count <= n
  {
    if n == 0 then 0
    else AddsBefore(r, n - 1) + if CallAdds(r.pools[n - 1], r.draws[n - 1]) then 1 else 0
  }

  /** One call of `next`: the pool stays well-formed, never falls below three orders once it had them,
      an add takes the next fresh id and every other message hits a live order. */
  lemma NextMirrored(p: Pool, d: Draw, issued: nat)
    requires PoolOk(p, issued) && issued < U64_MAX && InRange(d, |p.orders|)
    ensures var (q, e) := Next(p, d);
            && PoolOk(q, if CallAdds(p, d) then issued + 1 else issued)
            && AsLive(q.orders) == LiveAfter(AsLive(p.orders), e)
            && (e.Add? <==> CallAdds(p, d))
            && (e.Add? ==> e.id == issued + 1)
            && (!e.Add? ==> e.id in AsLive(p.orders))
            && !e.Execute? && PositiveAdd(e)
            && |q.orders| >= if |p.orders| < 3 then |p.orders| + 1 else 3
  {
    if CallAdds(p, d) {
      AddMirrored(p, d, issued);
    } else {
      AsLiveMirrors(p.orders);
      assert p.orders[d.index].orderId in AsLive(p.orders);
      if d.action < 80 {
        ModifyMirrored(p, d, issued);
      } else {
        DeleteMirrored(p, d, issued);
      }
    }
  }

  /** What one call does, from the draw alone: an add of a fresh order, a new price and quantity for the order
      picked, or its removal. */
  lemma NextExactly(p: Pool, d: Draw, issued: nat)
    requires PoolOk(p, issued) && issued < U64_MAX && InRange(d, |p.orders|)
    ensures var (q, e) := Next(p, d);
            var live := AsLive(p.orders);
            if |p.orders| < 4 || d.action < 45 then
              var price := if d.side == Buy then d.bidPrice else d.askPrice;
              && AsLive(q.orders) == live[issued + 1 := Order(d.side, d.quantity, price)]
              && e == Add(issued + 1, Some(d.side), price, d.quantity)
              && q.orders == p.orders + [LiveOrder(issued + 1, d.side, d.quantity, price)]
            else
              var o := p.orders[d.index];
              var price := if o.side == Buy then d.bidPrice else d.askPrice;
              if d.action < 80 then
                && AsLive(q.orders) == live[o.orderId := Order(o.side, d.quantity, price)]
                && e == Modify(o.orderId, price, d.quantity)
                && q.orders == p.orders[d.index := LiveOrder(o.orderId, o.side, d.quantity, price)]
              else
                && AsLive(q.orders) == live - {o.orderId}
                && e == Delete(o.orderId)
                && |q.orders| == |p.orders| - 1
  {
    hide AsLive, Distinct;
    if |p.orders| < 4 || d.action < 45 {
      AddMirrored(p, d, issued);
    } else {
      HoldsOrder(p.orders, d.index);
      if d.action < 80 {
        ModifyMirrored(p, d, issued);
      } else {
        DeleteMirrored(p, d, issued);
      }
    }
  }

  lemma HoldsOrder(orders: seq<LiveOrder>, index: nat)
    requires Distinct(orders) && index < |orders|
    ensures var o := orders[index];
            o.orderId in AsLive(orders) && AsLive(orders)[o.orderId] == Order(o.side, o.quantity, o.price)
  {
    hide AsLive, Distinct;
    AsLiveMirrors(orders);
  }

  /** Exactly the orders of 10 to 250 at a bid of 9950 to 10000 or an offer of 10001 to 10050 can be added. */
  lemma AddsExactly(p: Pool, side: Side, quantity: u32, price: u32)
    ensures (exists d :: InRange(d, |p.orders|) &&
                         AddedOrder(p, d).1 == Add(p.nextOrderId, Some(side), price, quantity))
       <==> && 10 <= quantity <= 250
            && if side == Buy then 9950 <= price <= 10000 else 10001 <= price <= 10050
  {
    if && 10 <= quantity <= 250
       && if side == Buy then 9950 <= price <= 10000 else 10001 <= price <= 10050 {
      var d := Draw(0, side, if side == Buy then price else 10000, if side == Buy then 10001 else price, quantity, 0);
      assert InRange(d, |p.orders|) && AddedOrder(p, d).1 == Add(p.nextOrderId, Some(side), price, quantity);
    }
  }

  lemma LiveAllGrows(events: seq<Event>, n: nat)
    requires n < |events|
    ensures LiveAll(map[], events[..n + 1]) == LiveAfter(LiveAll(map[], events[..n]), events[n])
  {
    assert events[..n + 1][..n] == events[..n];
  }

  /** Event `n`: an add carries an id one above all earlier adds; anything else names a then-live order. */
  predicate EventOk(r: Run, n: nat)
    requires ValidRun(r) && n < |r.draws|
  {
    var e := r.events[n];
    && (e.Add? <==> CallAdds(r.pools[n], r.draws[n]))
    && (e.Add? ==> e.id == AddsBefore(r, n) + 1)
    && (!e.Add? ==> e.id in AsLive(r.pools[n].orders))
    && !e.Execute? && PositiveAdd(e)
  }

  lemma CallMirrored(r: Run, n: nat)
    requires ValidRun(r) && n < |r.draws|
    requires PoolOk(r.pools[n], AddsBefore(r, n)) && AddsBefore(r, n) < U64_MAX
    ensures PoolOk(r.pools[n + 1], AddsBefore(r, n + 1))
    ensures AsLive(r.pools[n + 1].orders) == LiveAfter(AsLive(r.pools[n].orders), r.events[n])
    ensures EventOk(r, n)
    ensures |r.pools[n + 1].orders| >= if |r.pools[n].orders| < 3 then |r.pools[n].orders| + 1 else 3
  {
    hide AsLive, LiveAfter;
    assert CallAt(r, n);
    NextMirrored(r.pools[n], r.draws[n], AddsBefore(r, n));
  }

  /** Replica agreement: folding the first `n` messages over no orders gives the generator's pool after
      `n` calls, despite every swap-and-pop; the pool never drops below three orders once it had them. */
  lemma {:induction false} ReplicaAgrees(r: Run, n: nat)
    requires ValidRun(r) && n <= |r.draws| && n <= U64_MAX
    ensures LiveAll(map[], r.events[..n]) == AsLive(r.pools[n].orders)
    ensures PoolOk(r.pools[n], AddsBefore(r, n))
    ensures |r.pools[n].orders| >= if n < 3 then n else 3
  {
    if n > 0 {
      ReplicaAgrees(r, n - 1);
      CallMirrored(r, n - 1);
      LiveAllGrows(r.events, n - 1);
    }
  }

  lemma EventFacts(r: Run, n: nat)
    requires ValidRun(r) && n < |r.draws| && n < U64_MAX
    ensures EventOk(r, n)
  {
    ReplicaAgrees(r, n);
    CallMirrored(r, n);
  }

  lemma {:induction false} AddsMonotone(r: Run, i: nat, j: nat)
    requires ValidRun(r) && i <= j <= |r.draws|
    ensures AddsBefore(r, i) <= AddsBefore(r, j)
    decreases j
  {
    if i < j {
      AddsMonotone(r, i, j - 1);
    }
  }

  /** Order ids are never reused. */
  lemma IdsNeverReused(r: Run, i: nat, j: nat)
    requires ValidRun(r) && i < j < |r.draws| && j < U64_MAX
    requires r.events[i].Add? && r.events[j].Add?
    ensures r.events[i].id < r.events[j].id
  {
    EventFacts(r, i);
    EventFacts(r, j);
    AddsMonotone(r, i + 1, j);
  }

  // ---- How large the sums can get. ----

  lemma {:induction false} RestingBound(live: Live, side: Side, price: u32, most: nat)
    requires forall id :: id in live ==> live[id].quantity <= most
    ensures Resting(live, side, price) <= most * |live|
    decreases |live|
  {
    if live != map[] {
      var id := SomeId(live);
      var rest := live - {id};
      RestingBound(rest, side, price, most);
      assert |rest| == |live| - 1;
      assert Share(live[id], side, price) <= most;
      assert Resting(live, side, price) == Share(live[id], side, price) + Resting(rest, side, price);
      OneMoreTime(most, |live|);
    }
  }

  lemma OneMoreTime(most: nat, n: nat)
    requires n > 0
    ensures most * n == most * (n - 1) + most
  {
  }

  /** The largest pool for which 250 per order still fits in a 32-bit level. */
  const SAFE_POOL: nat := 17_179_869

  lemma PoolFits(p: Pool, issued: nat)
    requires PoolOk(p, issued) && |p.orders| <= SAFE_POOL
    ensures Fits(AsLive(p.orders)) && AllPositive(AsLive(p.orders))
  {
    AsLiveMirrors(p.orders);
    var live := AsLive(p.orders);
    forall id | id in live
      ensures 0 < live[id].quantity <= 250
    {
      var i :| 0 <= i < |p.orders| && p.orders[i].orderId == id;
      assert live[id] == OrderOf(p.orders[i]);
    }
    forall side, price: u32
      ensures Resting(live, side, price) <= U32_MAX
    {
      RestingBound(live, side, price, 250);
    }
  }

  /** Bids stay at or below 10000 and offers at or above 10001, so the replicated market never crosses. */
  lemma MarketNeverCrosses(p: Pool, issued: nat)
    requires PoolOk(p, issued) && Fits(AsLive(p.orders))
    ensures var scan := ScanBbo(AsLive(p.orders));
            && (scan.bestBid.Some? ==> 9950 <= scan.bestBid.value.price <= 10000)
            && (scan.bestAsk.Some? ==> 10001 <= scan.bestAsk.value.price <= 10050)
  {
    AsLiveMirrors(p.orders);
    var live := AsLive(p.orders);
    forall id | id in live
      ensures if live[id].side == Buy then 9950 <= live[id].price <= 10000 else 10001 <= live[id].price <= 10050
    {
      var i :| 0 <= i < |p.orders| && p.orders[i].orderId == id;
      assert live[id] == OrderOf(p.orders[i]);
    }
  }

  // ---- The generator object. ----

  class MarketDataGenerator {
    var nextOrderId: u64
    var liveOrders: seq<LiveOrder>

    constructor ()
      ensures Contents() == EMPTY_POOL
    {
      nextOrderId, liveOrders := 1, [];
    }

    function Contents(): Pool
      reads this
    {
      Pool(liveOrders, nextOrderId)
    }

    method AddOrder(d: Draw) returns (message: Message)
      modifies this
      ensures Contents() == AddedOrder(old(Contents()), d).0
      ensures message == Make(AddedOrder(old(Contents()), d).1)
    {
      var price := if d.side == Buy then d.bidPrice else d.askPrice;
      var order := LiveOrder(nextOrderId, d.side, d.quantity, price);
      nextOrderId := (nextOrderId + 1) % (U64_MAX + 1);
      liveOrders := liveOrders + [order];
      return MakeAddOrderMsg(order.orderId, order.side, order.price, order.quantity);
    }

    method ModifyOrder(d: Draw) returns (message: Message)
      requires InRange(d, |liveOrders|)
      modifies this
      ensures Contents() == ModifiedOrder(old(Contents()), d).0
      ensures message == Make(ModifiedOrder(old(Contents()), d).1)
    {
      if liveOrders == [] {
        message := AddOrder(d);
        return;
      }
      var order := liveOrders[d.index];
      order := order.(price := if order.side == Buy then d.bidPrice else d.askPrice);
      order := order.(quantity := d.quantity);
      liveOrders := liveOrders[d.index := order];
      return MakeModifyOrderMsg(order.orderId, order.price, order.quantity);
    }

    method DeleteOrder(d: Draw) returns (message: Message)
      requires InRange(d, |liveOrders|)
      modifies this
      ensures Contents() == DeletedOrder(old(Contents()), d).0
      ensures message == Make(DeletedOrder(old(Contents()), d).1)
    {
      if liveOrders == [] {
        message := AddOrder(d);
        return;
      }
      var orderId := liveOrders[d.index].orderId;
      liveOrders := liveOrders[d.index := liveOrders[|liveOrders| - 1]];
      liveOrders := liveOrders[..|liveOrders| - 1];
      return MakeDeleteOrderMsg(orderId);
    }

    /** One message; on any well-formed pool it mirrors the pool's own change. */
    method NextMessage(d: Draw, ghost issued: nat) returns (message: Message)
      requires InRange(d, |liveOrders|)
      modifies this
      ensures Contents() == Next(old(Contents()), d).0
      ensures message == Make(Next(old(Contents()), d).1)
      ensures PoolOk(old(Contents()), issued) && issued < U64_MAX ==>
                AsLive(liveOrders) == LiveAfter(AsLive(old(liveOrders)), Decode(message))
    {
      ghost var was := Contents();
      if |liveOrders| < 4 {
        message := AddOrder(d);
      } else if d.action < 45 {
        message := AddOrder(d);
      } else if d.action < 80 {
        message := ModifyOrder(d);
      } else {
        message := DeleteOrder(d);
      }
      if PoolOk(was, issued) && issued < U64_MAX {
        NextMirrored(was, d, issued);
        DecodeMake(Next(was, d).1);
      }
    }
  }
}

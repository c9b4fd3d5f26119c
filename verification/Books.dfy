/** The limit order book as a value: what each message does to the live orders and the two level maps. */
module Books {
  import opened Prelude
  import opened Protocol

  datatype Order = Order(side: Side, quantity: u32, price: u32)

  type Live = map<u64, Order>
  type Levels = map<u32, u32>

  datatype Book = Book(live: Live, bids: Levels, asks: Levels) {
    function LevelsOf(side: Side): Levels {
      match side
      case Buy => bids
      case Sell => asks
    }

    function WithLevels(side: Side, levels: Levels): Book {
      match side
      case Buy => this.(bids := levels)
      case Sell => this.(asks := levels)
    }
  }

  const EMPTY_BOOK := Book(map[], map[], map[])

  // ---- Levels. ----

  function LevelAt(levels: Levels, price: u32): u32 {
    if price in levels then levels[price] else 0
  }

  /** `levels[price] += quantity`, wrapping at 2^32. */
  function AddToLevel(levels: Levels, price: u32, quantity: u32): Levels {
    levels[price := (LevelAt(levels, price) + quantity) % 0x1_0000_0000]
  }

  function SubtractFromLevel(levels: Levels, price: u32, quantity: u32): Levels {
    if price !in levels then levels
    else if levels[price] <= quantity then levels - {price}
    else levels[price := levels[price] - quantity]
  }

  function AddLevel(b: Book, side: Side, price: u32, quantity: u32): Book {
    b.WithLevels(side, AddToLevel(b.LevelsOf(side), price, quantity))
  }

  function SubtractLevel(b: Book, side: Side, price: u32, quantity: u32): Book {
    b.WithLevels(side, SubtractFromLevel(b.LevelsOf(side), price, quantity))
  }

  // ---- Messages. ----

  function EraseOrder(b: Book, id: u64): Book {
    if id !in b.live then b
    else
      var o := b.live[id];
      SubtractLevel(b, o.side, o.price, o.quantity).(live := b.live - {id})
  }

  function InsertOrder(b: Book, id: u64, o: Order): Book {
    AddLevel(b, o.side, o.price, o.quantity).(live := b.live[id := o])
  }

  function Min(x: u32, y: u32): u32 {
    if x < y then x else y
  }

  function Apply(b: Book, e: Event): Book {
    match e
    case Add(id, side, price, quantity) =>
      if side.None? then b
      else InsertOrder(EraseOrder(b, id), id, Order(side.value, quantity, price))
    case Modify(id, price, quantity) =>
      if id !in b.live then b
      else
        var o := b.live[id];
        var subtracted := SubtractLevel(b, o.side, o.price, o.quantity);
        if quantity == 0 then subtracted.(live := b.live - {id})
        else InsertOrder(subtracted, id, Order(o.side, quantity, price))
    case Delete(id) =>
      EraseOrder(b, id)
    case Execute(id, _, quantity) =>
      if id !in b.live then b
      else
        var o := b.live[id];
        var executed := Min(o.quantity, quantity);
        var subtracted := SubtractLevel(b, o.side, o.price, executed);
        if o.quantity - executed == 0 then subtracted.(live := b.live - {id})
        else subtracted.(live := b.live[id := o.(quantity := o.quantity - executed)])
  }

  function ApplyAll(b: Book, es: seq<Event>): Book {
    if es == [] then b
    else Apply(ApplyAll(b, es[..|es| - 1]), es[|es| - 1])
  }

  // ---- Best bid and offer. ----

  datatype Level = Level(price: u32, quantity: u32)
  datatype Bbo = Bbo(bestBid: Option<Level>, bestAsk: Option<Level>)

  datatype ApplyResult = ApplyResult(before: Bbo, after: Bbo) {
    predicate BboChanged() { before != after }
  }

  lemma {:induction false} Maximum(s: set<u32>) returns (m: u32)
    requires s != {}
    ensures m in s && forall k :: k in s ==> k <= m
    decreases |s|
  {
    m :| m in s;
    var x, rest := m, s - {m};
    if rest != {} {
      m := Maximum(rest);
      m := if m < x then x else m;
    }
    assert s == rest + {x};
  }

  lemma HasMaximum(s: set<u32>)
    requires s != {}
    ensures exists m :: m in s && forall k :: k in s ==> k <= m
  {
    var m := Maximum(s);
  }

  lemma {:induction false} Minimum(s: set<u32>) returns (m: u32)
    requires s != {}
    ensures m in s && forall k :: k in s ==> m <= k
    decreases |s|
  {
    m :| m in s;
    var x, rest := m, s - {m};
    if rest != {} {
      m := Minimum(rest);
      m := if x < m then x else m;
    }
    assert s == rest + {x};
  }

  lemma HasMinimum(s: set<u32>)
    requires s != {}
    ensures exists m :: m in s && forall k :: k in s ==> m <= k
  {
    var m := Minimum(s);
  }

  /** The key an ordered map's `rbegin` points at. */
  function LastKey(s: set<u32>): (m: u32)
    requires s != {}
    ensures m in s && forall k :: k in s ==> k <= m
  {
    HasMaximum(s);
    var m :| m in s && forall k :: k in s ==> k <= m;
    m
  }

  /** The key an ordered map's `begin` points at. */
  function FirstKey(s: set<u32>): (m: u32)
    requires s != {}
    ensures m in s && forall k :: k in s ==> m <= k
  {
    HasMinimum(s);
    var m :| m in s && forall k :: k in s ==> m <= k;
    m
  }

  function BboOf(b: Book): Bbo {
    Bbo(
      if b.bids == map[] then None else Some(Level(LastKey(b.bids.Keys), b.bids[LastKey(b.bids.Keys)])),
      if b.asks == map[] then None else Some(Level(FirstKey(b.asks.Keys), b.asks[FirstKey(b.asks.Keys)]))
    )
  }
}

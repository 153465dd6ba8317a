/** An order book: lists of orders per symbol and side, an index from order id into these lists, and a query. */
module OrderBook {

  datatype Side = Buy | Sell

  /** The operation code of a message; a code that is none of the three does nothing to an order that is known. */
  datatype Operation = Insert | Cancel | Amend | Unknown

  datatype Order = Order(timestamp: string, symbol: string, id: string, volume: nat, price: real,
                         operation: Operation, side: Side)

  // ---------- what the book is meant to be ----------

  /** The live orders in the order of their insertion, after one more message. */
  function Apply(live: seq<Order>, o: Order): seq<Order> {
    match o.operation
    case Insert => live + [o]
    case Cancel => WithoutId(live, o.id)
    case Amend => Amended(live, o.id, o.volume, o.price)
    case Unknown => live
  }

  function WithoutId(live: seq<Order>, id: string): seq<Order> {
    if live == [] then [] else
      WithoutId(live[..|live| - 1], id) + if live[|live| - 1].id == id then [] else [live[|live| - 1]]
  }

  function AmendedOrder(x: Order, id: string, volume: nat, price: real): Order {
    if x.id == id then x.(volume := volume, price := price) else x
  }

  function Amended(live: seq<Order>, id: string, volume: nat, price: real): seq<Order> {
    seq(|live|, i requires 0 <= i < |live| => AmendedOrder(live[i], id, volume, price))
  }

  /** Fresh ids for inserts; cancels that name the order's own symbol and side, or no order at all. */
  ghost predicate Admissible(live: seq<Order>, o: Order) {
    && (o.operation.Insert? ==> forall i :: 0 <= i < |live| ==> live[i].id != o.id)
    && (o.operation.Cancel? ==>
          forall i :: 0 <= i < |live| && live[i].id == o.id ==> live[i].symbol == o.symbol && live[i].side == o.side)
  }

  function Run(live: seq<Order>, stream: seq<Order>): seq<Order> {
    if stream == [] then live else Apply(Run(live, stream[..|stream| - 1]), stream[|stream| - 1])
  }

  /** Every message is admissible when it comes. */
  ghost predicate AdmissibleRun(live: seq<Order>, stream: seq<Order>) {
    forall n :: 0 <= n < |stream| ==> Admissible(Run(live, stream[..n]), stream[n])
  }

  ghost predicate IdsDiffer(live: seq<Order>) {
    forall i, j :: 0 <= i < j < |live| ==> live[i].id != live[j].id
  }

  // ---------- the same as a plain map ----------

  ghost function AsMap(live: seq<Order>): map<string, Order> {
    if live == [] then map[] else AsMap(live[..|live| - 1])[live[|live| - 1].id := live[|live| - 1]]
  }

  ghost function ApplyToMap(m: map<string, Order>, o: Order): map<string, Order> {
    match o.operation
    case Insert => m[o.id := o]
    case Cancel => m - {o.id}
    case Amend => if o.id in m then m[o.id := m[o.id].(volume := o.volume, price := o.price)] else m
    case Unknown => m
  }

  lemma {:induction false} AsMapKeys(live: seq<Order>, id: string)
    ensures id in AsMap(live) <==> exists i :: 0 <= i < |live| && live[i].id == id
    ensures id in AsMap(live) ==> AsMap(live)[id].id == id
  {
    if live != [] {
      var n := |live| - 1;
      AsMapKeys(live[..n], id);
      if i :| 0 <= i < |live| && live[i].id == id && i < n { assert live[..n][i].id == id; }
    }
  }

  lemma {:induction false} WithoutIdMembers(live: seq<Order>, id: string, x: Order)
    ensures x in WithoutId(live, id) <==> x in live && x.id != id
  {
    if live != [] {
      var n := |live| - 1;
      WithoutIdMembers(live[..n], id, x);
      assert live == live[..n] + [live[n]];
    }
  }

  lemma AsMapSnoc(live: seq<Order>, x: Order)
    ensures AsMap(live + [x]) == AsMap(live)[x.id := x]
  {
    assert (live + [x])[..|live|] == live;
  }

  lemma RemoveAfterUpdate<K, V>(m: map<K, V>, k: K, v: V, id: K)
    ensures m[k := v] - {id} == if k == id then m - {id} else (m - {id})[k := v]
  {
  }

  lemma {:induction false} CancelIsRemoval(live: seq<Order>, id: string)
    ensures AsMap(WithoutId(live, id)) == AsMap(live) - {id}
  {
    if live != [] {
      var n := |live| - 1;
      CancelIsRemoval(live[..n], id);
      AsMapSnoc(WithoutId(live[..n], id), live[n]);
      RemoveAfterUpdate(AsMap(live[..n]), live[n].id, live[n], id);
      if live[n].id == id { assert WithoutId(live, id) == WithoutId(live[..n], id); }
    }
  }

  lemma IdsDifferSnoc(live: seq<Order>, x: Order)
    requires IdsDiffer(live) && forall y :: y in live ==> y.id != x.id
    ensures IdsDiffer(live + [x])
  {
  }

  lemma {:induction false} WithoutIdDiffers(live: seq<Order>, id: string)
    requires IdsDiffer(live)
    ensures IdsDiffer(WithoutId(live, id))
  {
    if live != [] {
      var n := |live| - 1;
      var w := WithoutId(live[..n], id);
      WithoutIdDiffers(live[..n], id);
      if live[n].id != id {
        forall y | y in w ensures y.id != live[n].id {
          WithoutIdMembers(live[..n], id, y);
          var k :| 0 <= k < n && live[..n][k] == y;
        }
        IdsDifferSnoc(w, live[n]);
      }
    }
  }

  lemma AmendedSnoc(live: seq<Order>, x: Order, id: string, volume: nat, price: real)
    ensures Amended(live + [x], id, volume, price) == Amended(live, id, volume, price) + [AmendedOrder(x, id, volume, price)]
  {
  }

  lemma AmendedDiffer(live: seq<Order>, id: string, volume: nat, price: real)
    ensures IdsDiffer(live) ==> IdsDiffer(Amended(live, id, volume, price))
  {
  }

  lemma {:induction false} AmendIsUpdate(live: seq<Order>, id: string, volume: nat, price: real)
    ensures AsMap(Amended(live, id, volume, price)) ==
      if id in AsMap(live) then AsMap(live)[id := AsMap(live)[id].(volume := volume, price := price)] else AsMap(live)
  {
    if live != [] {
      var front, last := live[..|live| - 1], live[|live| - 1];
      AmendIsUpdate(front, id, volume, price);
      AsMapKeys(front, id);
      assert live == front + [last];
      AmendedSnoc(front, last, id, volume, price);
      AsMapSnoc(Amended(front, id, volume, price), AmendedOrder(last, id, volume, price));
    }
  }

  lemma OthersDiffer(a: seq<Order>, x: Order, b: seq<Order>)
    requires IdsDiffer(a + [x] + b)
    ensures NoneHasId(a, x.id) && NoneHasId(b, x.id)
  {
    var live := a + [x] + b;
    assert live[|a|] == x;
    forall i | 0 <= i < |a| ensures a[i].id != x.id { assert live[i] == a[i]; }
    forall i | 0 <= i < |b| ensures b[i].id != x.id { assert live[|a| + 1 + i] == b[i]; }
  }

  /** In the ordered list a cancel closes the gap, an amendment stays in place, and all others keep their order. */
  lemma OthersStay(a: seq<Order>, x: Order, b: seq<Order>, volume: nat, price: real)
    requires IdsDiffer(a + [x] + b)
    ensures WithoutId(a + [x] + b, x.id) == a + b
    ensures Amended(a + [x] + b, x.id, volume, price) == a + [x.(volume := volume, price := price)] + b
  {
    OthersDiffer(a, x, b);
    GapCloses(a, x, b);
    OthersNotAmended(a, x, b, volume, price);
  }

  lemma GapCloses(a: seq<Order>, x: Order, b: seq<Order>)
    requires NoneHasId(a, x.id) && NoneHasId(b, x.id)
    ensures WithoutId(a + [x] + b, x.id) == a + b
  {
    WithoutIdJoin(a + [x], b, x.id);
    NoSuchId(b, x.id);
    assert WithoutId(a + [x], x.id) == a by {
      assert (a + [x])[..|a|] == a;
      NoSuchId(a, x.id);
    }
  }

  lemma OthersNotAmended(a: seq<Order>, x: Order, b: seq<Order>, volume: nat, price: real)
    requires NoneHasId(a, x.id) && NoneHasId(b, x.id)
    ensures Amended(a + [x] + b, x.id, volume, price) == a + [x.(volume := volume, price := price)] + b
  {
    AmendedSnoc(a, x, x.id, volume, price);
    AmendedJoin(a + [x], b, x.id, volume, price);
    NothingAmended(a, x.id, volume, price);
    NothingAmended(b, x.id, volume, price);
  }

  lemma AmendedJoin(a: seq<Order>, b: seq<Order>, id: string, volume: nat, price: real)
    ensures Amended(a + b, id, volume, price) == Amended(a, id, volume, price) + Amended(b, id, volume, price)
  {
  }

  lemma {:induction false} WithoutIdJoin(a: seq<Order>, b: seq<Order>, id: string)
    ensures WithoutId(a + b, id) == WithoutId(a, id) + WithoutId(b, id)
    decreases |b|
  {
    if b == [] {
      assert a + b == a;
    } else {
      var n := |b| - 1;
      assert (a + b)[..|a| + n] == a + b[..n];
      WithoutIdJoin(a, b[..n], id);
    }
  }

  /** Messages act on the ordered list as they act on a plain map, and keep ids apart. */
  lemma ApplyRefinesMap(live: seq<Order>, o: Order)
    requires IdsDiffer(live) && Admissible(live, o)
    ensures IdsDiffer(Apply(live, o)) && AsMap(Apply(live, o)) == ApplyToMap(AsMap(live), o)
  {
    match o.operation
    case Insert => AsMapSnoc(live, o);
    case Cancel =>
      CancelIsRemoval(live, o.id);
      WithoutIdDiffers(live, o.id);
    case Amend =>
      AmendIsUpdate(live, o.id, o.volume, o.price);
      AmendedDiffer(live, o.id, o.volume, o.price);
    case Unknown =>
  }

  ghost function RunMap(m: map<string, Order>, stream: seq<Order>): map<string, Order> {
    if stream == [] then m else ApplyToMap(RunMap(m, stream[..|stream| - 1]), stream[|stream| - 1])
  }

  /** So whole admissible streams act as they act on a plain map. */
  lemma {:induction false} RunRefinesMap(live: seq<Order>, stream: seq<Order>)
    requires IdsDiffer(live) && AdmissibleRun(live, stream)
    ensures IdsDiffer(Run(live, stream)) && AsMap(Run(live, stream)) == RunMap(AsMap(live), stream)
    decreases |stream|
  {
    if stream != [] {
      var n := |stream| - 1;
      forall k | 0 <= k < n ensures Admissible(Run(live, stream[..n][..k]), stream[..n][k]) {
        assert stream[..n][..k] == stream[..k];
      }
      RunRefinesMap(live, stream[..n]);
      ApplyRefinesMap(Run(live, stream[..n]), stream[n]);
    }
  }

  // ---------- list nodes ----------

  /** A node of a list, to which the index refers. Only volume and price of a stored order ever change. */
  class OrderNode {
    const timestamp: string
    const symbol: string
    const id: string
    const operation: Operation
    const side: Side
    var volume: nat
    var price: real

    constructor (o: Order)
      ensures Value() == o
    {
      timestamp, symbol, id, operation, side := o.timestamp, o.symbol, o.id, o.operation, o.side;
      volume, price := o.volume, o.price;
    }

    function Value(): Order
      reads this
    {
      Order(timestamp, symbol, id, volume, price, operation, side)
    }
  }

  ghost function Values(nodes: seq<OrderNode>): (live: seq<Order>)
    reads nodes
    ensures |live| == |nodes| && forall i :: 0 <= i < |nodes| ==> live[i] == nodes[i].Value()
  {
    seq(|nodes|, i requires 0 <= i < |nodes| reads nodes => nodes[i].Value())
  }

  /** The list without one of its nodes, as erasing through an iterator leaves it. */
  function Erase(nodes: seq<OrderNode>, n: OrderNode): seq<OrderNode> {
    if nodes == [] then [] else
      Erase(nodes[..|nodes| - 1], n) + if nodes[|nodes| - 1] == n then [] else [nodes[|nodes| - 1]]
  }

  /** The nodes of one symbol and side, in order. */
  ghost function Pick(nodes: seq<OrderNode>, symbol: string, side: Side): seq<OrderNode> {
    if nodes == [] then [] else
      var last := nodes[|nodes| - 1];
      Pick(nodes[..|nodes| - 1], symbol, side) + if last.symbol == symbol && last.side == side then [last] else []
  }

  lemma {:induction false} EraseMembers(nodes: seq<OrderNode>, n: OrderNode, x: OrderNode)
    ensures x in Erase(nodes, n) <==> x in nodes && x != n
  {
    if nodes != [] {
      EraseMembers(nodes[..|nodes| - 1], n, x);
      assert nodes == nodes[..|nodes| - 1] + [nodes[|nodes| - 1]];
    }
  }

  lemma {:induction false} PickMembers(nodes: seq<OrderNode>, symbol: string, side: Side, x: OrderNode)
    ensures x in Pick(nodes, symbol, side) <==> x in nodes && x.symbol == symbol && x.side == side
  {
    if nodes != [] {
      PickMembers(nodes[..|nodes| - 1], symbol, side, x);
      assert nodes == nodes[..|nodes| - 1] + [nodes[|nodes| - 1]];
    }
  }

  lemma PickSnoc(nodes: seq<OrderNode>, x: OrderNode, symbol: string, side: Side)
    ensures Pick(nodes + [x], symbol, side) ==
      if x.symbol == symbol && x.side == side then Pick(nodes, symbol, side) + [x] else Pick(nodes, symbol, side)
  {
    assert (nodes + [x])[..|nodes|] == nodes;
  }

  lemma EraseSnoc(nodes: seq<OrderNode>, x: OrderNode, n: OrderNode)
    ensures Erase(nodes + [x], n) == if x == n then Erase(nodes, n) else Erase(nodes, n) + [x]
  {
    assert (nodes + [x])[..|nodes|] == nodes;
  }

  /** Picking and erasing commute. */
  lemma {:induction false} PickErase(nodes: seq<OrderNode>, n: OrderNode, symbol: string, side: Side)
    ensures Pick(Erase(nodes, n), symbol, side) == Erase(Pick(nodes, symbol, side), n)
    ensures (n.symbol != symbol || n.side != side) ==> Erase(Pick(nodes, symbol, side), n) == Pick(nodes, symbol, side)
  {
    if nodes != [] {
      var front, last := nodes[..|nodes| - 1], nodes[|nodes| - 1];
      assert nodes == front + [last];
      PickErase(front, n, symbol, side);
      PickSnoc(front, last, symbol, side);
      EraseSnoc(front, last, n);
      PickSnoc(Erase(front, n), last, symbol, side);
      EraseSnoc(Pick(front, symbol, side), last, n);
    }
  }

  // ---------- the book ----------

  datatype SymbolOrders = SymbolOrders(buyOrders: seq<OrderNode>, sellOrders: seq<OrderNode>) {
    function GetOrders(side: Side): seq<OrderNode> {
      if side.Buy? then buyOrders else sellOrders
    }

    function SetOrders(side: Side, orders: seq<OrderNode>): SymbolOrders {
      if side.Buy? then this.(buyOrders := orders) else this.(sellOrders := orders)
    }
  }

  /** What the map holds for a symbol and side; a missing symbol counts as empty lists. */
  function ListFor(book: map<string, SymbolOrders>, symbol: string, side: Side): seq<OrderNode> {
    if symbol in book then book[symbol].GetOrders(side) else []
  }

  /** The lists with the node behind those of its symbol and side. */
  function Appended(book: map<string, SymbolOrders>, n: OrderNode): map<string, SymbolOrders>
    requires n.symbol in book
  {
    book[n.symbol := book[n.symbol].SetOrders(n.side, book[n.symbol].GetOrders(n.side) + [n])]
  }

  /** The lists without the node in that of its symbol and side. */
  function Removed(book: map<string, SymbolOrders>, n: OrderNode): map<string, SymbolOrders>
    requires n.symbol in book
  {
    book[n.symbol := book[n.symbol].SetOrders(n.side, Erase(book[n.symbol].GetOrders(n.side), n))]
  }

  /** The nodes have different ids, and the index leads from exactly these ids to them. */
  ghost predicate Indexes(byId: map<string, OrderNode>, live: seq<OrderNode>) {
    && (forall n :: n in live ==> n.id in byId && byId[n.id] == n)
    && (forall id :: id in byId ==> byId[id] in live && byId[id].id == id)
    && (forall i, j :: 0 <= i < j < |live| ==> live[i] != live[j])
  }

  ghost predicate ListHolds(book: map<string, SymbolOrders>, live: seq<OrderNode>, symbol: string, side: Side) {
    ListFor(book, symbol, side) == Pick(live, symbol, side)
  }

  /** The lists and the index hold the same live nodes, the lists in the order of insertion. */
  ghost predicate Agree(book: map<string, SymbolOrders>, byId: map<string, OrderNode>, live: seq<OrderNode>) {
    Indexes(byId, live) && forall symbol, side :: ListHolds(book, live, symbol, side)
  }

  lemma AgreeLookedUp(book: map<string, SymbolOrders>, byId: map<string, OrderNode>, live: seq<OrderNode>,
                      symbol: string)
    requires Agree(book, byId, live) && symbol !in book
    ensures Agree(book[symbol := SymbolOrders([], [])], byId, live)
  {
    var book' := book[symbol := SymbolOrders([], [])];
    forall s, side ensures ListHolds(book', live, s, side) {
      assert ListHolds(book, live, s, side);
    }
  }

  lemma AgreeInsert(book: map<string, SymbolOrders>, byId: map<string, OrderNode>, live: seq<OrderNode>, n: OrderNode)
    requires Agree(book, byId, live) && n.symbol in book && n.id !in byId && n !in live
    ensures Agree(Appended(book, n), byId[n.id := n], live + [n])
  {
    var book' := Appended(book, n);
    forall s, side ensures ListHolds(book', live + [n], s, side) {
      assert ListHolds(book, live, s, side);
      PickSnoc(live, n, s, side);
    }
  }

  lemma {:induction false} EraseDiffers(live: seq<OrderNode>, n: OrderNode)
    requires forall i, j :: 0 <= i < j < |live| ==> live[i] != live[j]
    ensures forall i, j :: 0 <= i < j < |Erase(live, n)| ==> Erase(live, n)[i] != Erase(live, n)[j]
  {
    if live != [] {
      var front, last := live[..|live| - 1], live[|live| - 1];
      EraseDiffers(front, n);
      EraseMembers(front, n, last);
      forall k | 0 <= k < |front| ensures front[k] != last { assert live[k] != live[|live| - 1]; }
    }
  }

  lemma IndexesCancel(byId: map<string, OrderNode>, live: seq<OrderNode>, n: OrderNode)
    requires Indexes(byId, live) && n in live
    ensures Indexes(byId - {n.id}, Erase(live, n))
  {
    var byId' := byId - {n.id};
    forall x | x in Erase(live, n) ensures x.id in byId' && byId'[x.id] == x { EraseMembers(live, n, x); }
    forall id | id in byId' ensures byId'[id] in Erase(live, n) && byId'[id].id == id { EraseMembers(live, n, byId[id]); }
    EraseDiffers(live, n);
  }

  lemma AgreeCancel(book: map<string, SymbolOrders>, byId: map<string, OrderNode>, live: seq<OrderNode>, n: OrderNode)
    requires Agree(book, byId, live) && n in live && n.symbol in book
    ensures Agree(Removed(book, n), byId - {n.id}, Erase(live, n))
  {
    var book' := Removed(book, n);
    forall s, side ensures ListHolds(book', Erase(live, n), s, side) {
      assert ListHolds(book, live, s, side);
      PickErase(live, n, s, side);
    }
    IndexesCancel(byId, live, n);
  }

  /** After an insert with a known id the first node is in a list but no longer in the index: nothing is right any more. */
  lemma DuplicateInsertBreaks(book: map<string, SymbolOrders>, byId: map<string, OrderNode>, live: seq<OrderNode>,
                              n: OrderNode, live': seq<OrderNode>)
    requires Agree(book, byId, live) && n.symbol in book && n.id in byId && n !in live
    ensures !Agree(Appended(book, n), byId[n.id := n], live')
  {
    var book' := Appended(book, n);
    var first := byId[n.id];
    assert ListHolds(book, live, first.symbol, first.side);
    PickMembers(live, first.symbol, first.side, first);
    assert first in ListFor(book', first.symbol, first.side);
    if ListHolds(book', live', first.symbol, first.side) { PickMembers(live', first.symbol, first.side, first); }
  }

  // ---------- what the nodes say ----------

  lemma {:induction false} ValuesErase(nodes: seq<OrderNode>, n: OrderNode)
    requires forall x :: x in nodes ==> (x.id == n.id <==> x == n)
    ensures Values(Erase(nodes, n)) == WithoutId(Values(nodes), n.id)
  {
    if nodes != [] {
      var front, last := nodes[..|nodes| - 1], nodes[|nodes| - 1];
      ValuesErase(front, n);
      assert Values(nodes)[..|nodes| - 1] == Values(front);
      assert last in nodes;
      assert Values(Erase(front, n) + [last]) == Values(Erase(front, n)) + [last.Value()];
      assert nodes == front + [last];
      EraseSnoc(front, last, n);
    }
  }

  /** The orders of one symbol and side, in order. */
  function OrdersOf(live: seq<Order>, symbol: string, side: Side): seq<Order> {
    if live == [] then [] else
      var last := live[|live| - 1];
      OrdersOf(live[..|live| - 1], symbol, side) + if last.symbol == symbol && last.side == side then [last] else []
  }

  lemma {:induction false} ValuesPick(nodes: seq<OrderNode>, symbol: string, side: Side)
    ensures Values(Pick(nodes, symbol, side)) == OrdersOf(Values(nodes), symbol, side)
  {
    if nodes != [] {
      var front, last := nodes[..|nodes| - 1], nodes[|nodes| - 1];
      ValuesPick(front, symbol, side);
      assert Values(nodes)[..|nodes| - 1] == Values(front);
      assert Values(Pick(front, symbol, side) + [last]) == Values(Pick(front, symbol, side)) + [last.Value()];
      assert nodes == front + [last];
      PickSnoc(front, last, symbol, side);
    }
  }

  /** What the index leads to reads as the map from id to live order. */
  ghost predicate ReadsAs(byId: map<string, OrderNode>, m: map<string, Order>)
    reads byId.Values
  {
    byId.Keys == m.Keys && forall id :: id in byId ==> byId[id].Value() == m[id]
  }

  lemma {:induction false} AsMapLookup(live: seq<Order>, i: nat)
    requires IdsDiffer(live) && i < |live|
    ensures live[i].id in AsMap(live) && AsMap(live)[live[i].id] == live[i]
  {
    var n := |live| - 1;
    if i < n { AsMapLookup(live[..n], i); }
  }

  lemma IndexReadsAs(byId: map<string, OrderNode>, nodes: seq<OrderNode>)
    requires Indexes(byId, nodes)
    ensures ReadsAs(byId, AsMap(Values(nodes)))
  {
    var live := Values(nodes);
    IndexedIdsDiffer(byId, nodes);
    forall id | id in byId ensures id in AsMap(live) && byId[id].Value() == AsMap(live)[id] {
      var i :| 0 <= i < |nodes| && nodes[i] == byId[id];
      AsMapLookup(live, i);
    }
    forall id | id in AsMap(live) ensures id in byId {
      AsMapKeys(live, id);
      var i :| 0 <= i < |live| && live[i].id == id;
      assert nodes[i] in nodes;
    }
  }

  lemma IndexedIdsDiffer(byId: map<string, OrderNode>, nodes: seq<OrderNode>)
    requires Indexes(byId, nodes)
    ensures IdsDiffer(Values(nodes))
  {
    forall i, j | 0 <= i < j < |nodes| ensures nodes[i].id != nodes[j].id {
      assert nodes[i] in nodes && nodes[j] in nodes;
    }
  }

  /** A node with the order is behind the others of its symbol and side, and the index leads from its id to it. */
  ghost predicate Inserted(order: Order, book: map<string, SymbolOrders>, byId: map<string, OrderNode>,
                           book': map<string, SymbolOrders>, byId': map<string, OrderNode>)
    reads byId'.Values
  {
    && order.id in byId' && byId'[order.id].Value() == order && byId' == byId[order.id := byId'[order.id]]
    && forall symbol, side :: ListFor(book', symbol, side) == ListFor(book, symbol, side) +
         if symbol == order.symbol && side == order.side then [byId'[order.id]] else []
  }

  class SimpleOrderBook {
    var orderBook: map<string, SymbolOrders>
    var ordersById: map<string, OrderNode>
    ghost var live: seq<OrderNode>

    ghost predicate Valid()
      reads this
    {
      Agree(orderBook, ordersById, live)
    }

    /** The live orders, in the order of their insertion. */
    ghost function View(): seq<Order>
      reads this, live
    {
      Values(live)
    }

    constructor ()
      ensures Valid() && View() == []
    {
      orderBook, ordersById, live := map[], map[], [];
      new;
      forall symbol, side ensures ListHolds(orderBook, live, symbol, side) {}
    }

    /** The lookup orderBook[symbol], which enters empty lists for a new symbol. */
    method LookUp(symbol: string)
      modifies this`orderBook
      ensures symbol in orderBook
      ensures old(Valid()) ==> Valid()
      ensures forall s, side :: ListFor(orderBook, s, side) == old(ListFor(orderBook, s, side))
    {
      if symbol !in orderBook {
        if Valid() { AgreeLookedUp(orderBook, ordersById, live, symbol); }
        orderBook := orderBook[symbol := SymbolOrders([], [])];
      }
    }

    /**
     * One message. Only a cancel may not be arbitrary: erasing a node from a list it is not in has no meaning. With a
     * fresh id for an insert the book does what it should; with a known one nothing that holds for a book holds any more.
     */
    method ProcessOrder(order: Order)
      requires Valid()
      requires order.operation.Cancel? && order.id in ordersById ==>
        ordersById[order.id].symbol == order.symbol && ordersById[order.id].side == order.side
      modifies this, set n | n in live
      ensures order.operation.Insert? ==> Inserted(order, old(orderBook), old(ordersById), orderBook, ordersById)
      ensures order.operation.Insert? && order.id in old(ordersById) ==> forall nodes :: !Agree(orderBook, ordersById, nodes)
      ensures !(order.operation.Insert? && order.id in old(ordersById)) ==> Valid() && View() == Apply(old(View()), order)
      ensures forall n :: n in live ==> n in old(live) || fresh(n)
    {
      LookUp(order.symbol);
      if order.operation.Insert? {
        InsertOrder(order);
      } else if order.id in ordersById {
        if order.operation.Cancel? {
          CancelOrder(order);
        } else if order.operation.Amend? {
          AmendOrder(order);
        }
      } else {
        UnknownId(ordersById, live, order);
      }
    }

    /** The order goes behind the others of its symbol and side, and the index leads to it, whatever it led to before. */
    method InsertOrder(order: Order)
      requires Valid() && order.symbol in orderBook
      modifies this
      ensures Inserted(order, old(orderBook), old(ordersById), orderBook, ordersById) && fresh(ordersById[order.id])
      ensures order.id in old(ordersById) ==> forall nodes :: !Agree(orderBook, ordersById, nodes)
      ensures order.id !in old(ordersById) ==> Valid() && View() == old(View()) + [order]
      ensures forall n :: n in live ==> n in old(live) || fresh(n)
    {
      ghost var nodes, before := live, View();
      var node := new OrderNode(order);
      if order.id !in ordersById {
        AgreeInsert(orderBook, ordersById, live, node);
      } else {
        ghost var book := Appended(orderBook, node);
        ghost var byId := ordersById[order.id := node];
        forall nodes ensures !Agree(book, byId, nodes) {
          DuplicateInsertBreaks(orderBook, ordersById, live, node, nodes);
        }
      }
      var orders := orderBook[order.symbol];
      ordersById := ordersById[order.id := node];
      orderBook := orderBook[order.symbol := orders.SetOrders(order.side, orders.GetOrders(order.side) + [node])];
      live := live + [node];
    }

    method CancelOrder(order: Order)
      requires Valid() && order.symbol in orderBook && order.id in ordersById
      requires ordersById[order.id].symbol == order.symbol && ordersById[order.id].side == order.side
      modifies this
      ensures Valid() && View() == WithoutId(old(View()), order.id)
      ensures forall n :: n in live ==> n in old(live)
    {
      var node := ordersById[order.id];
      AgreeCancel(orderBook, ordersById, live, node);
      ValuesErase(live, node);
      forall x | x in Erase(live, node) ensures x in live { EraseMembers(live, node, x); }
      var orders := orderBook[order.symbol];
      orderBook := orderBook[order.symbol := orders.SetOrders(order.side, Erase(orders.GetOrders(order.side), node))];
      ordersById := ordersById - {order.id};
      live := Erase(live, node);
    }

    /** A whole stream of admissible messages: the lists hold what they should, and the index is the plain map. */
    method ProcessAll(stream: seq<Order>)
      requires Valid() && AdmissibleRun(View(), stream)
      modifies this, set n | n in live
      ensures Valid() && View() == Run(old(View()), stream)
      ensures forall symbol, side ::
        Values(ListFor(orderBook, symbol, side)) == OrdersOf(Run(old(View()), stream), symbol, side)
      ensures AsMap(View()) == RunMap(AsMap(old(View())), stream)
      ensures ReadsAs(ordersById, RunMap(AsMap(old(View())), stream))
    {
      IndexedIdsDiffer(ordersById, live);
      RunRefinesMap(View(), stream);
      for i := 0 to |stream|
        invariant Valid() && View() == Run(old(View()), stream[..i])
        invariant forall n :: n in live ==> n in old(live) || fresh(n)
      {
        assert Admissible(Run(old(View()), stream[..i]), stream[i]);
        AdmissibleMeansAllowed(ordersById, live, stream[i]);
        ProcessOrder(stream[i]);
        assert stream[..i + 1][..i] == stream[..i];
      }
      assert stream[..|stream|] == stream;
      forall symbol, side ensures Values(ListFor(orderBook, symbol, side)) == OrdersOf(View(), symbol, side) {
        assert ListHolds(orderBook, live, symbol, side);
        ValuesPick(live, symbol, side);
      }
      IndexReadsAs(ordersById, live);
    }

    /** Up to three buy orders of the symbol with the largest volumes. */
    method BiggestBuyOrders(symbol: string) returns (top: seq<Order>)
      requires Valid()
      ensures LargestByVolume(multiset(top), multiset(OrdersOf(View(), symbol, Buy)), 3)
    {
      assert ListHolds(orderBook, live, symbol, Buy);
      ValuesPick(live, symbol, Buy);
      if symbol !in orderBook {
        return [];
      }
      var nodes := orderBook[symbol].buyOrders;
      var orders := Read(nodes);
      top := TopThree(orders);
    }

    method AmendOrder(order: Order)
      requires Valid() && order.id in ordersById
      modifies ordersById[order.id]
      ensures View() == Amended(old(View()), order.id, order.volume, order.price)
    {
      var node := ordersById[order.id];
      node.price := order.price;
      node.volume := order.volume;
      forall i | 0 <= i < |live|
        ensures live[i].Value() == AmendedOrder(old(View())[i], order.id, order.volume, order.price)
      {
        assert live[i] in live;
      }
    }
  }

  /** One order inserted twice into a new book: no list of live orders agrees with it any more. */
  method InsertTwice(order: Order) returns (book: SimpleOrderBook)
    requires order.operation.Insert?
    ensures fresh(book) && forall nodes :: !Agree(book.orderBook, book.ordersById, nodes)
  {
    book := new SimpleOrderBook();
    book.ProcessOrder(order);
    KnownAfterInsert(book.ordersById, book.live, order);
    book.ProcessOrder(order);
  }

  lemma KnownAfterInsert(byId: map<string, OrderNode>, nodes: seq<OrderNode>, order: Order)
    requires Indexes(byId, nodes) && Values(nodes) == [order]
    ensures order.id in byId
  {
    assert nodes[0] in nodes && nodes[0].Value() == order;
  }

  /** The condition on a message, from the orders it is about to meet to the index it will be looked up in. */
  lemma AdmissibleMeansAllowed(byId: map<string, OrderNode>, nodes: seq<OrderNode>, o: Order)
    requires Indexes(byId, nodes) && Admissible(Values(nodes), o)
    ensures o.operation.Insert? ==> o.id !in byId
    ensures o.operation.Cancel? && o.id in byId ==> byId[o.id].symbol == o.symbol && byId[o.id].side == o.side
  {
    if o.id in byId {
      var n := byId[o.id];
      var i :| 0 <= i < |nodes| && nodes[i] == n;
      assert Values(nodes)[i].id == o.id;
    }
  }

  /** A cancel or an amendment of an id that is not known changes nothing. */
  lemma UnknownId(byId: map<string, OrderNode>, nodes: seq<OrderNode>, o: Order)
    requires Indexes(byId, nodes) && o.id !in byId && !o.operation.Insert?
    ensures Apply(Values(nodes), o) == Values(nodes)
  {
    NotIndexed(byId, nodes, o.id);
    ApplyUnknown(Values(nodes), o);
  }

  ghost predicate NoneHasId(live: seq<Order>, id: string) {
    forall i :: 0 <= i < |live| ==> live[i].id != id
  }

  lemma NotIndexed(byId: map<string, OrderNode>, nodes: seq<OrderNode>, id: string)
    requires Indexes(byId, nodes) && id !in byId
    ensures NoneHasId(Values(nodes), id)
  {
    forall i | 0 <= i < |nodes| ensures nodes[i].id != id { assert nodes[i] in nodes; }
  }

  lemma ApplyUnknown(live: seq<Order>, o: Order)
    requires NoneHasId(live, o.id) && !o.operation.Insert?
    ensures Apply(live, o) == live
  {
    NoSuchId(live, o.id);
    NothingAmended(live, o.id, o.volume, o.price);
  }

  lemma NothingAmended(live: seq<Order>, id: string, volume: nat, price: real)
    requires NoneHasId(live, id)
    ensures Amended(live, id, volume, price) == live
  {
  }

  lemma {:induction false} NoSuchId(live: seq<Order>, id: string)
    requires NoneHasId(live, id)
    ensures WithoutId(live, id) == live
  {
    if live != [] {
      var front, last := live[..|live| - 1], live[|live| - 1];
      NoSuchId(front, id);
      assert last.id != id && live == front + [last];
    }
  }

  method Read(nodes: seq<OrderNode>) returns (orders: seq<Order>)
    ensures orders == Values(nodes)
  {
    orders := [];
    for i := 0 to |nodes|
      invariant orders == Values(nodes[..i])
    {
      orders := orders + [nodes[i].Value()];
    }
    assert nodes[..|nodes|] == nodes;
  }

  // ---------- the largest orders ----------

  /** kept holds k of the orders, or all if there are fewer, and no order left out has a larger volume than a kept one. */
  ghost predicate LargestByVolume(kept: multiset<Order>, orders: multiset<Order>, k: nat) {
    && kept <= orders && |kept| == (if |orders| < k then |orders| else k)
    && forall x, y :: x in kept && y in orders - kept ==> y.volume <= x.volume
  }

  /** The contract of std::make_heap with "larger volume" as its order: a rearrangement with the least volume in front. */
  method MakeHeap(s: seq<Order>) returns (t: seq<Order>)
    requires s != []
    ensures multiset(t) == multiset(s) && t != [] && forall i :: 0 <= i < |t| ==> t[0].volume <= t[i].volume
  {
    var m := 0;
    for i := 0 to |s|
      invariant 0 <= m < |s| && forall k :: 0 <= k < i ==> s[m].volume <= s[k].volume
    {
      if s[i].volume < s[m].volume { m := i; }
    }
    t := s[0 := s[m]][m := s[0]];
  }

  lemma KeepOrReplace(kept: multiset<Order>, orders: multiset<Order>, k: nat, least: Order, x: Order)
    requires LargestByVolume(kept, orders, k) && |kept| == k && least in kept
    requires forall y :: y in kept ==> least.volume <= y.volume
    ensures x.volume > least.volume ==> LargestByVolume(kept - multiset{least} + multiset{x}, orders + multiset{x}, k)
    ensures x.volume <= least.volume ==> LargestByVolume(kept, orders + multiset{x}, k)
  {
    if x.volume > least.volume {
      var kept', orders' := kept - multiset{least} + multiset{x}, orders + multiset{x};
      assert orders' - kept' == orders - kept + multiset{least};
    } else {
      assert orders + multiset{x} - kept == orders - kept + multiset{x};
    }
  }

  /** The first three orders, heaped again before each further one, whose head gives way to a larger order. */
  method TopThree(orders: seq<Order>) returns (top: seq<Order>)
    ensures LargestByVolume(multiset(top), multiset(orders), 3)
  {
    var count := if |orders| < 3 then |orders| else 3;
    top := orders[..count];
    assert orders[..count] + orders[count..] == orders;
    for i := count to |orders|
      invariant |orders| >= 3 ==> |top| == 3
      invariant LargestByVolume(multiset(top), multiset(orders[..i]), 3)
    {
      assert orders[..i + 1] == orders[..i] + [orders[i]];
      top := MakeHeap(top);
      ghost var heap := top;
      if orders[i].volume > top[0].volume {
        top := top[0 := orders[i]];
      }
      KeepOrReplace(multiset(heap), multiset(orders[..i]), 3, heap[0], orders[i]);
    }
    assert orders[..|orders|] == orders;
  }
}

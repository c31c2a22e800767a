/**
 * Food orders (backend/routes/orders.js, backend/models/FoodOrder.js): the
 * kitchen's listing, numbering on creation, and the start / complete /
 * cancel status changes. Orders are never deleted, so an order's id is its
 * index in the book.
 */
module Orders {
  import opened Wrappers
  import opened Models
  import Seqs
  import Text

  datatype OrderStatus = Pending | Preparing | Delivered | Cancelled

  function StatusName(s: OrderStatus): string {
    match s
    case Pending => "pending"
    case Preparing => "preparing"
    case Delivered => "delivered"
    case Cancelled => "cancelled"
  }

  /** One line of an order; `name` is required. */
  datatype OrderItem = OrderItem(name: string, price: int, quantity: int)

  datatype FoodOrder = FoodOrder(
    orderNumber: string,
    playerName: string,
    cardNumber: Option<string>,
    tableNumber: Option<int>,
    items: seq<OrderItem>,
    status: OrderStatus,
    createdAt: Millis,
    startedAt: Option<Millis>,
    completedAt: Option<Millis>,
    cancelledAt: Option<Millis>,
    handledBy: Option<StaffId>)

  datatype CreateOutcome = Placed(id: nat, orderNumber: string) | InvalidOrder

  /** `#${count + 1001}` for an order created when `count` orders exist. */
  function OrderNumber(count: nat): string {
    "#" + Text.NatToString(count + 1001)
  }

  /** Orders created at different counts get different numbers. */
  lemma OrderNumberInjective(a: nat, b: nat)
    ensures OrderNumber(a) == OrderNumber(b) <==> a == b
  {
    if OrderNumber(a) == OrderNumber(b) {
      assert OrderNumber(a)[1..] == Text.NatToString(a + 1001);
      assert OrderNumber(b)[1..] == Text.NatToString(b + 1001);
      Text.NatToStringInjective(a + 1001, b + 1001);
    }
  }

  /** The listing's filter: the given status when one is given (non-empty), otherwise the open ones. */
  function Listed(status: Option<string>): FoodOrder -> bool {
    (o: FoodOrder) =>
      if status.Some? && status.value != "" then StatusName(o.status) == status.value
      else o.status == Pending || o.status == Preparing
  }

  function ByCreatedAt(o: FoodOrder): int {
    o.createdAt
  }

  /** GET /: the matching orders, oldest first. */
  function Listing(orders: seq<FoodOrder>, status: Option<string>): seq<FoodOrder> {
    Seqs.SortBy(Seqs.Filter(orders, Listed(status)), ByCreatedAt)
  }

  /**
   * The listing holds every matching order as often as it is stored and no
   * other, in non-decreasing creation time; without a status it shows
   * exactly the pending and preparing orders.
   */
  lemma ListingSpec(orders: seq<FoodOrder>, status: Option<string>)
    ensures multiset(Listing(orders, status)) == multiset(Seqs.Filter(orders, Listed(status)))
    ensures forall o :: o in Listing(orders, status) <==> o in orders && Listed(status)(o)
    ensures status.None? ==> forall o :: o in Listing(orders, status) <==>
      o in orders && (o.status == Pending || o.status == Preparing)
    ensures forall i, j :: 0 <= i < j < |Listing(orders, status)| ==>
      Listing(orders, status)[i].createdAt <= Listing(orders, status)[j].createdAt
  {
    var f := Seqs.Filter(orders, Listed(status));
    var l := Listing(orders, status);
    forall o ensures o in l <==> o in f {
      assert o in l <==> o in multiset(l);
      assert o in f <==> o in multiset(f);
    }
    forall i, j | 0 <= i < j < |l| ensures l[i].createdAt <= l[j].createdAt {
      assert ByCreatedAt(l[i]) <= ByCreatedAt(l[j]);
    }
  }

  /** The schema's required strings: the player's name and every item's name. */
  predicate SavableOrder(playerName: string, items: seq<OrderItem>) {
    playerName != "" && forall i :: 0 <= i < |items| ==> items[i].name != ""
  }

  class OrderBook {
    var orders: seq<FoodOrder>

    /** Each order carries the number its position gives it. */
    ghost predicate Valid()
      reads this
    {
      forall i :: 0 <= i < |orders| ==> orders[i].orderNumber == OrderNumber(i)
    }

    constructor ()
      ensures Valid() && orders == []
    {
      orders := [];
    }

    /** POST /: a valid order is numbered from the current count and starts pending; an invalid one is refused. */
    method Create(playerName: string, cardNumber: Option<string>, tableNumber: Option<int>,
                  items: seq<OrderItem>, now: Millis)
      returns (out: CreateOutcome)
      requires Valid()
      modifies this
      ensures Valid()
      ensures out == InvalidOrder <==> !SavableOrder(playerName, items)
      ensures out == InvalidOrder ==> orders == old(orders)
      ensures out.Placed? ==>
        && out.id == |old(orders)| && out.orderNumber == OrderNumber(|old(orders)|)
        && orders == old(orders) + [FoodOrder(OrderNumber(|old(orders)|), playerName, cardNumber, tableNumber, items,
                                             Pending, now, None, None, None, None)]
    {
      var number := OrderNumber(|orders|);
      if !SavableOrder(playerName, items) {
        return InvalidOrder;
      }
      var order := FoodOrder(number, playerName, cardNumber, tableNumber, items, Pending, now, None, None, None, None);
      out := Placed(|orders|, number);
      orders := orders + [order];
    }

    /** PUT /:id/start: 404 when missing; otherwise preparing from any status, stamped and attributed. */
    method Start(id: nat, staff: StaffId, now: Millis) returns (found: bool)
      requires Valid()
      modifies this
      ensures Valid()
      ensures found <==> id < |old(orders)|
      ensures !found ==> orders == old(orders)
      ensures found ==> orders == old(orders)[id := old(orders)[id].(status := Preparing, startedAt := Some(now),
                                                                   handledBy := Some(staff))]
    {
      if id >= |orders| {
        return false;
      }
      orders := orders[id := orders[id].(status := Preparing, startedAt := Some(now), handledBy := Some(staff))];
      found := true;
    }

    /** PUT /:id/complete: 404 when missing; otherwise delivered from any status. */
    method Complete(id: nat, now: Millis) returns (found: bool)
      requires Valid()
      modifies this
      ensures Valid()
      ensures found <==> id < |old(orders)|
      ensures !found ==> orders == old(orders)
      ensures found ==> orders == old(orders)[id := old(orders)[id].(status := Delivered, completedAt := Some(now))]
    {
      if id >= |orders| {
        return false;
      }
      orders := orders[id := orders[id].(status := Delivered, completedAt := Some(now))];
      found := true;
    }

    /** DELETE /:id: cancelled when present; reported as done either way. */
    method Cancel(id: nat, now: Millis)
      requires Valid()
      modifies this
      ensures Valid()
      ensures orders == if id < |old(orders)|
        then old(orders)[id := old(orders)[id].(status := Cancelled, cancelledAt := Some(now))]
        else old(orders)
    {
      if id < |orders| {
        orders := orders[id := orders[id].(status := Cancelled, cancelledAt := Some(now))];
      }
    }
  }

  /** In a book whose numbers come from creation, the n-th order is #(1000 + n) and no two orders share a number. */
  lemma NumbersDistinct(orders: seq<FoodOrder>)
    requires forall i :: 0 <= i < |orders| ==> orders[i].orderNumber == OrderNumber(i)
    ensures forall i :: 0 <= i < |orders| ==> orders[i].orderNumber == "#" + Text.NatToString(1001 + i)
    ensures forall i, j :: 0 <= i < j < |orders| ==> orders[i].orderNumber != orders[j].orderNumber
  {
    forall i, j | 0 <= i < j < |orders| ensures orders[i].orderNumber != orders[j].orderNumber {
      OrderNumberInjective(i, j);
    }
  }
}

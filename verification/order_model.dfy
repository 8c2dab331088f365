/** Orders and order lines as the order views see them, and the manual-order
    fulfilment step `handle_successful_order`. */
module OrderModel {
  import opened Wrappers

  /** Line statuses; the full status pipeline is not part of this model. */
  datatype LineStatus = LineOpen | LineComplete | LineOtherStatus(name: string)

  /** Order statuses; the full status pipeline is not part of this model. */
  datatype OrderStatus = Open | FulfillmentError | Complete | OtherStatus(name: string)

  datatype Line = Line(product: int, status: LineStatus)

  /** An order: its public number, the username of its owner, the partner of the
      site it was placed on, its lines and its status. */
  datatype Order = Order(number: string, user: string, partner: int, lines: seq<Line>, status: OrderStatus)

  /** Marks every line complete, keeping the lines' products and order. */
  function CompleteLines(lines: seq<Line>): (r: seq<Line>)
    ensures |r| == |lines|
    ensures forall i :: 0 <= i < |r| ==> r[i].product == lines[i].product && r[i].status == LineComplete
    decreases |lines|
  {
    if |lines| == 0 then []
    else [lines[0].(status := LineComplete)] + CompleteLines(lines[1..])
  }

  /** `handle_successful_order`: every line becomes COMPLETE, then the order does;
      nothing else about the order changes. */
  function HandleSuccessfulOrder(o: Order): (r: Order)
    ensures r.number == o.number && r.user == o.user && r.partner == o.partner
    ensures r.status == Complete
    ensures |r.lines| == |o.lines|
    ensures forall i :: 0 <= i < |r.lines| ==>
              r.lines[i].product == o.lines[i].product && r.lines[i].status == LineComplete
  {
    o.(lines := CompleteLines(o.lines), status := Complete)
  }

  /** `o` belongs to `user` and has a COMPLETE line for `product`. */
  predicate HasCompleteLine(o: Order, user: string, product: int) {
    o.user == user && exists l :: l in o.lines && l.product == product && l.status == LineComplete
  }

  /** The number of the first order (in creation order) that belongs to `user` and
      has a COMPLETE line for `product`: the query
      `OrderLine.objects.filter(product=..., order__user=..., status=COMPLETE).first()`. */
  function FindCompletedOrder(orders: seq<Order>, user: string, product: int): (r: Option<string>)
    ensures r.None? <==> forall i :: 0 <= i < |orders| ==> !HasCompleteLine(orders[i], user, product)
    ensures r.Some? ==> exists i :: 0 <= i < |orders| && orders[i].number == r.value
                                    && HasCompleteLine(orders[i], user, product)
                                    && forall j :: 0 <= j < i ==> !HasCompleteLine(orders[j], user, product)
    decreases |orders|
  {
    if |orders| == 0 then None
    else if HasCompleteLine(orders[0], user, product) then Some(orders[0].number)
    else FindCompletedOrder(orders[1..], user, product)
  }

  /** Later orders never change which completed order is found first. */
  lemma {:induction false} FindCompletedOrderStable(orders: seq<Order>, more: seq<Order>, user: string, product: int)
    requires FindCompletedOrder(orders, user, product).Some?
    ensures FindCompletedOrder(orders + more, user, product) == FindCompletedOrder(orders, user, product)
    decreases |orders|
  {
    var all := orders + more;
    assert all[0] == orders[0];
    if !HasCompleteLine(orders[0], user, product) {
      assert all[1..] == orders[1..] + more;
      FindCompletedOrderStable(orders[1..], more, user, product);
    }
  }

  /** Appending an order when none was found finds that order if it matches. */
  lemma {:induction false} FindCompletedOrderAppend(orders: seq<Order>, o: Order, user: string, product: int)
    requires FindCompletedOrder(orders, user, product).None?
    ensures FindCompletedOrder(orders + [o], user, product)
            == if HasCompleteLine(o, user, product) then Some(o.number) else None
    decreases |orders|
  {
    var all := orders + [o];
    if |orders| > 0 {
      assert all[0] == orders[0];
      assert all[1..] == orders[1..] + [o];
      assert !HasCompleteLine(orders[0], user, product);
      FindCompletedOrderAppend(orders[1..], o, user, product);
    } else {
      assert all == [o];
    }
  }
}

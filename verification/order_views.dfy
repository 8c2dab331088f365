/** The decisions of the order list/detail endpoint: which orders a user may see,
    and how a fulfilment request is answered. */
module OrderViews {
  import opened Wrappers
  import opened Seqs
  import opened OrderModel

  /** The requesting user. */
  datatype User = User(username: string, isStaff: bool)

  /** The request was refused with HTTP 403. */
  datatype PermissionDenied = PermissionDenied

  /** `filter_queryset`: a non-staff user asking for someone else's orders is refused;
      a non-staff user otherwise sees only their own orders; everyone sees only orders
      of the current site's partner. An empty `username` parameter counts as absent. */
  function FilterQueryset(orders: seq<Order>, requester: User, username: Option<string>, partner: int)
    : (r: Result<seq<Order>, PermissionDenied>)
    ensures r.Err? <==> !requester.isStaff && username.Some? && username.value != ""
                        && username.value != requester.username
    ensures r.Ok? ==> forall o :: o in r.value <==>
                        o in orders && o.partner == partner && (requester.isStaff || o.user == requester.username)
    ensures r.Ok? ==> IsSubseq(r.value, orders)
    ensures r.Ok? ==> forall o :: multiset(r.value)[o] ==
                        if o.partner == partner && (requester.isStaff || o.user == requester.username)
                        then multiset(orders)[o] else 0
  {
    if !requester.isStaff && username.Some? && username.value != "" && requester.username != username.value then
      Err(PermissionDenied)
    else
      var own := if requester.isStaff then orders else Filter(orders, (o: Order) => o.user == requester.username);
      var visible := Filter(own, (o: Order) => o.partner == partner);
      OwnOrdersInOrder(orders, requester);
      forall o | true
        ensures multiset(visible)[o] ==
                if o.partner == partner && (requester.isStaff || o.user == requester.username)
                then multiset(orders)[o] else 0
      {
        FilterCount(own, (o: Order) => o.partner == partner, o);
        if !requester.isStaff {
          FilterCount(orders, (o: Order) => o.user == requester.username, o);
        }
      }
      FilterIsSubseq(own, (o: Order) => o.partner == partner);
      SubseqTransitive(visible, own, orders);
      Ok(visible)
  }

  /** The orders a user may see before the partner restriction keep the queryset's order. */
  lemma OwnOrdersInOrder(orders: seq<Order>, requester: User)
    ensures IsSubseq(if requester.isStaff then orders else Filter(orders, (o: Order) => o.user == requester.username),
                     orders)
  {
    if requester.isStaff {
      SubseqReflexive(orders);
    } else {
      FilterIsSubseq(orders, (o: Order) => o.user == requester.username);
    }
  }

  /** `email_opt_in` is on exactly when the query parameter is the string "True". */
  function EmailOptIn(params: map<string, string>): bool {
    "email_opt_in" in params && params["email_opt_in"] == "True"
  }

  /** A fulfilment response: its status code, the order it returns, and the
      `email_opt_in` value the post-checkout signal was sent with (None when it was not sent). */
  datatype FulfillResponse = FulfillResponse(code: nat, order: Option<Order>, signalOptIn: Option<bool>)

  /** `fulfill`: `isFulfillable` is the order's abstract `is_fulfillable` property and
      `postCheckout` the effect of the post-checkout signal's receivers on the order. */
  function Fulfill(order: Order, params: map<string, string>,
                   isFulfillable: Order -> bool, postCheckout: (Order, bool) -> Order): (r: FulfillResponse)
    ensures r.code == 200 || r.code == 406 || r.code == 500
    ensures r.code == 406 <==> !isFulfillable(order)
    ensures r.code == 406 ==> r.signalOptIn.None? && r.order.None?
    ensures r.code != 406 ==> r.signalOptIn == Some(EmailOptIn(params))
    ensures r.code == 500 <==> isFulfillable(order) && isFulfillable(postCheckout(order, EmailOptIn(params)))
    ensures r.code == 500 ==> r.order.None?
    ensures r.code == 200 ==> r.order == Some(postCheckout(order, EmailOptIn(params)))
                              && !isFulfillable(r.order.value)
  {
    if !isFulfillable(order) then
      FulfillResponse(406, None, None)
    else
      var optIn := EmailOptIn(params);
      var fulfilled := postCheckout(order, optIn);
      if isFulfillable(fulfilled) then FulfillResponse(500, None, Some(optIn))
      else FulfillResponse(200, Some(fulfilled), Some(optIn))
  }

  /** Only the exact string "True" turns the opt-in on. */
  lemma EmailOptInExamples()
    ensures !EmailOptIn(map[])
    ensures EmailOptIn(map["email_opt_in" := "True"])
    ensures !EmailOptIn(map["email_opt_in" := "False"])
    ensures !EmailOptIn(map["email_opt_in" := "true"])
  {
  }
}

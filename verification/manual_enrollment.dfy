/** The manual-enrollment order endpoint: a batch of enrollments paid for outside
    the shop, each turned into a free, immediately completed order.

    The data store is abstracted as the known courses (each with the seat product an
    order is placed for), the orders placed so far, in creation order, and a count of
    placement attempts. Placing a free order is an opaque step: a `Placer` consulted
    with the attempt count yields an order number or fails. */
module ManualEnrollment {
  import opened Wrappers
  import opened Seqs
  import opened Text
  import opened JsonValues
  import opened OrderModel

  /** One element of the request's `enrollments` list: a JSON object. */
  type Enrollment = map<string, Value>

  const SUCCESS := "success"
  const FAILURE := "failure"

  /** The required fields, in the order the error message lists them. */
  const RequiredFields: seq<string> := ["lms_user_id", "username", "email", "course_run_key"]

  const MissingDataPrefix := "Missing required enrollment data: "
  const CourseNotFound := "Course not found"
  const PlacementFailed := "Failed to create free order"
  const NoEnrollmentsDetail := "Invalid data. No `enrollments` field."

  /** The four required values, in the order the validator returns them. */
  datatype RequiredData = RequiredData(lmsUserId: Value, username: Value, email: Value, courseRunKey: Value)

  /** The store the endpoint reads and writes: known course ids, each mapped to the
      non-audit seat product sold for it; every order so far; placement attempts so far. */
  datatype Store = Store(courses: map<string, int>, orders: seq<Order>, attempts: nat)

  /** The outcome of placing the n-th free order: its number, or `None` when placement raised. */
  type Placer = nat -> Option<string>

  datatype Step = Step(result: Enrollment, store: Store)

  datatype Batch = Batch(results: seq<Enrollment>, store: Store)

  /** The body of a response: a status/detail object, or the list of per-enrollment results. */
  datatype Body = Message(status: string, detail: string) | OrderList(orders: seq<Enrollment>)

  datatype Response = Response(code: nat, body: Body)

  datatype Outcome = Outcome(response: Response, store: Store)

  /** Python's `enrollment.get(key)`. */
  function Get(e: Enrollment, key: string): Value {
    if key in e then e[key] else Null
  }

  /** Python's `dict(enrollment, status=..., detail=...)`. */
  function Extend(e: Enrollment, status: string, detail: string): Enrollment {
    e["status" := Str(status)]["detail" := Str(detail)]
  }

  /** `r` is a result record for enrollment `e`: every field of `e` other than
      `status` and `detail` is kept unchanged, nothing else is added, and `status`
      is exactly "success" or "failure" with a string `detail`. */
  predicate IsResultFor(e: Enrollment, r: Enrollment) {
    && r.Keys == e.Keys + {"status", "detail"}
    && (forall k :: k in e && k != "status" && k != "detail" ==> r[k] == e[k])
    && (r["status"] == Str(SUCCESS) || r["status"] == Str(FAILURE))
    && r["detail"].Str?
  }

  lemma ExtendIsResultFor(e: Enrollment, status: string, detail: string)
    requires status == SUCCESS || status == FAILURE
    ensures IsResultFor(e, Extend(e, status, detail))
  {
  }

  predicate Succeeded(r: Enrollment) {
    "status" in r && r["status"] == Str(SUCCESS)
  }

  /** The names of the fields among `fields` that are absent or falsy in `e`. */
  function MissingFields(e: Enrollment, fields: seq<string>): (r: seq<string>)
    ensures forall f :: f in r <==> f in fields && !Truthy(Get(e, f))
  {
    Filter(fields, f => !Truthy(Get(e, f)))
  }

  /** The missing fields are listed in the order the fields are given. */
  lemma MissingFieldsInOrder(e: Enrollment, fields: seq<string>)
    ensures IsSubseq(MissingFields(e, fields), fields)
  {
    FilterIsSubseq(fields, f => !Truthy(Get(e, f)));
  }

  function Quote(name: string): string {
    "'" + name + "'"
  }

  function QuoteAll(names: seq<string>): (r: seq<string>)
    ensures |r| == |names| && forall i :: 0 <= i < |r| ==> r[i] == Quote(names[i])
  {
    if |names| == 0 then [] else [Quote(names[0])] + QuoteAll(names[1..])
  }

  /** The validation message naming the missing fields, each quoted, joined by ", ". */
  function MissingDataMessage(missing: seq<string>): string {
    MissingDataPrefix + Join(QuoteAll(missing), ", ")
  }

  /** `_get_required_enrollment_data`. */
  function GetRequiredEnrollmentData(e: Enrollment): (r: Result<RequiredData, string>)
    ensures r.Ok? <==> forall f :: f in RequiredFields ==> Truthy(Get(e, f))
    ensures r.Ok? ==> r.value == RequiredData(Get(e, "lms_user_id"), Get(e, "username"),
                                              Get(e, "email"), Get(e, "course_run_key"))
    ensures r.Err? ==> |MissingFields(e, RequiredFields)| > 0
                       && r.error == MissingDataMessage(MissingFields(e, RequiredFields))
  {
    var lmsUserId := Get(e, "lms_user_id");
    var username := Get(e, "username");
    var email := Get(e, "email");
    var courseRunKey := Get(e, "course_run_key");
    if !(Truthy(lmsUserId) && Truthy(username) && Truthy(email) && Truthy(courseRunKey)) then
      assert !Truthy(Get(e, RequiredFields[0])) || !Truthy(Get(e, RequiredFields[1]))
          || !Truthy(Get(e, RequiredFields[2])) || !Truthy(Get(e, RequiredFields[3]));
      Err(MissingDataMessage(MissingFields(e, RequiredFields)))
    else
      Ok(RequiredData(lmsUserId, username, email, courseRunKey))
  }

  predicate Valid(e: Enrollment) {
    GetRequiredEnrollmentData(e).Ok?
  }

  /** The learner's username as the user table stores it. */
  function LearnerOf(e: Enrollment): string {
    Render(Get(e, "username"))
  }

  /** The course id the course lookup uses. */
  function CourseIdOf(e: Enrollment): string {
    Render(Get(e, "course_run_key"))
  }

  /** The completed order, if any, that already covers this learner and course seat. */
  function ExistingOrder(e: Enrollment, s: Store): Option<string>
    requires CourseIdOf(e) in s.courses
  {
    FindCompletedOrder(s.orders, LearnerOf(e), s.courses[CourseIdOf(e)])
  }

  /** The order a successful placement records: one line for the seat, owned by the
      learner, on the request site's partner, already through `handle_successful_order`. */
  function PlacedOrder(number: string, learner: string, partner: int, seat: int): Order {
    HandleSuccessfulOrder(Order(number, learner, partner, [Line(seat, LineOpen)], Open))
  }

  /** `_create_single_order`: failures take precedence in the order validation,
      unknown course, existing completed order (reported as success), placement. */
  function CreateSingleOrder(e: Enrollment, s: Store, partner: int, place: Placer): (r: Step)
    ensures IsResultFor(e, r.result)
    ensures r.store.courses == s.courses && s.orders <= r.store.orders
    // 1. validation failure: the validator's message, store untouched
    ensures !Valid(e) ==>
              r == Step(Extend(e, FAILURE, GetRequiredEnrollmentData(e).error), s)
    // 2. unknown course
    ensures Valid(e) && CourseIdOf(e) !in s.courses ==>
              r == Step(Extend(e, FAILURE, CourseNotFound), s)
    // 3. idempotent path: the existing order number, nothing created
    ensures Valid(e) && CourseIdOf(e) in s.courses && ExistingOrder(e, s).Some? ==>
              r == Step(Extend(e, SUCCESS, ExistingOrder(e, s).value), s)
    // 4. placement failure: one attempt used, no order recorded
    ensures Valid(e) && CourseIdOf(e) in s.courses && ExistingOrder(e, s).None? && place(s.attempts).None? ==>
              r == Step(Extend(e, FAILURE, PlacementFailed), s.(attempts := s.attempts + 1))
    // 5. a new order, completed, appended to the store
    ensures Valid(e) && CourseIdOf(e) in s.courses && ExistingOrder(e, s).None? && place(s.attempts).Some? ==>
              var number := place(s.attempts).value;
              r.result == Extend(e, SUCCESS, number)
              && r.store == s.(attempts := s.attempts + 1,
                               orders := s.orders + [PlacedOrder(number, LearnerOf(e), partner, s.courses[CourseIdOf(e)])])
  {
    match GetRequiredEnrollmentData(e)
    case Err(message) =>
      ExtendIsResultFor(e, FAILURE, message);
      Step(Extend(e, FAILURE, message), s)
    case Ok(data) =>
      var courseId := Render(data.courseRunKey);
      if courseId !in s.courses then
        ExtendIsResultFor(e, FAILURE, CourseNotFound);
        Step(Extend(e, FAILURE, CourseNotFound), s)
      else
        var learner := Render(data.username);
        var seat := s.courses[courseId];
        match FindCompletedOrder(s.orders, learner, seat)
        case Some(number) =>
          ExtendIsResultFor(e, SUCCESS, number);
          Step(Extend(e, SUCCESS, number), s)
        case None =>
          var attempted := s.(attempts := s.attempts + 1);
          match place(s.attempts)
          case None =>
            ExtendIsResultFor(e, FAILURE, PlacementFailed);
            Step(Extend(e, FAILURE, PlacementFailed), attempted)
          case Some(number) =>
            ExtendIsResultFor(e, SUCCESS, number);
            Step(Extend(e, SUCCESS, number),
                 attempted.(orders := s.orders + [PlacedOrder(number, learner, partner, seat)]))
  }

  /** The loop of `create`: one result per enrollment, in input order, each computed
      against the store as the enrollments before it left it. */
  function CreateOrders(es: seq<Enrollment>, s: Store, partner: int, place: Placer): (r: Batch)
    ensures |r.results| == |es|
    ensures forall i :: 0 <= i < |es| ==> IsResultFor(es[i], r.results[i])
    ensures r.store.courses == s.courses && s.orders <= r.store.orders
    decreases |es|
  {
    if |es| == 0 then Batch([], s)
    else
      var first := CreateSingleOrder(es[0], s, partner, place);
      var rest := CreateOrders(es[1..], first.store, partner, place);
      Batch([first.result] + rest.results, rest.store)
  }

  /** `create`: a request without an `enrollments` field is rejected with 400 and
      processes nothing; otherwise 200 with one result per enrollment. */
  function Create(enrollments: Option<seq<Enrollment>>, s: Store, partner: int, place: Placer): (r: Outcome)
    ensures enrollments.None? ==>
              r == Outcome(Response(400, Message(FAILURE, NoEnrollmentsDetail)), s)
    ensures enrollments.Some? ==>
              && r.response.code == 200
              && r.response.body.OrderList?
              && |r.response.body.orders| == |enrollments.value|
              && (forall i :: 0 <= i < |enrollments.value| ==>
                    IsResultFor(enrollments.value[i], r.response.body.orders[i]))
              && r.store.courses == s.courses && s.orders <= r.store.orders
    // each entry is the single-order step against the store the earlier entries left
    ensures enrollments.Some? ==>
              forall i :: 0 <= i < |enrollments.value| ==>
                r.response.body.orders[i]
                  == CreateSingleOrder(enrollments.value[i],
                                       CreateOrders(enrollments.value[..i], s, partner, place).store,
                                       partner, place).result
  {
    match enrollments
    case None => Outcome(Response(400, Message(FAILURE, NoEnrollmentsDetail)), s)
    case Some(es) =>
      var batch := CreateOrders(es, s, partner, place);
      forall i | 0 <= i < |es|
        ensures batch.results[i]
                  == CreateSingleOrder(es[i], CreateOrders(es[..i], s, partner, place).store, partner, place).result
      {
        CreateOrdersStepwise(es, s, partner, place, i);
      }
      Outcome(Response(200, OrderList(batch.results)), batch.store)
  }

  /** A success always names a completed order of that learner for that course's seat,
      and it is the first such order in the store the step leaves behind. */
  lemma SuccessNamesCompletedOrder(e: Enrollment, s: Store, partner: int, place: Placer)
    requires Succeeded(CreateSingleOrder(e, s, partner, place).result)
    ensures Valid(e) && CourseIdOf(e) in s.courses
    ensures var r := CreateSingleOrder(e, s, partner, place);
            FindCompletedOrder(r.store.orders, LearnerOf(e), s.courses[CourseIdOf(e)])
              == Some(r.result["detail"].s)
  {
    var r := CreateSingleOrder(e, s, partner, place);
    assert Valid(e) && CourseIdOf(e) in s.courses;
    var learner, seat := LearnerOf(e), s.courses[CourseIdOf(e)];
    if ExistingOrder(e, s).None? {
      assert place(s.attempts).Some?;
      var o := PlacedOrder(place(s.attempts).value, learner, partner, seat);
      assert o.lines[0] == Line(seat, LineComplete);
      assert HasCompleteLine(o, learner, seat);
      FindCompletedOrderAppend(s.orders, o, learner, seat);
    }
  }

  /** Idempotence: repeating an enrollment that succeeded, against the store the first
      call left, reports the same order number and creates nothing. */
  lemma RepeatedEnrollmentIsIdempotent(e: Enrollment, s: Store, partner: int, place: Placer, place': Placer)
    requires Succeeded(CreateSingleOrder(e, s, partner, place).result)
    ensures var first := CreateSingleOrder(e, s, partner, place);
            CreateSingleOrder(e, first.store, partner, place') == first
  {
    SuccessNamesCompletedOrder(e, s, partner, place);
  }

  /** Every result that succeeded in `first` appears unchanged in `again`. */
  predicate KeepsSuccesses(first: seq<Enrollment>, again: seq<Enrollment>) {
    |first| == |again| && forall i :: 0 <= i < |first| && Succeeded(first[i]) ==> again[i] == first[i]
  }

  predicate AllSucceeded(results: seq<Enrollment>) {
    forall i :: 0 <= i < |results| ==> Succeeded(results[i])
  }

  lemma KeepsSuccessesCons(x1: Enrollment, x2: Enrollment, first: seq<Enrollment>, again: seq<Enrollment>)
    requires KeepsSuccesses(first, again)
    requires Succeeded(x1) ==> x2 == x1
    ensures KeepsSuccesses([x1] + first, [x2] + again)
    ensures AllSucceeded([x1] + first) ==> Succeeded(x1) && AllSucceeded(first)
  {
    var f, a := [x1] + first, [x2] + again;
    forall i | 0 <= i < |f| && Succeeded(f[i]) ensures a[i] == f[i] {
      if i > 0 { assert f[i] == first[i - 1] && a[i] == again[i - 1]; }
    }
    if AllSucceeded(f) {
      assert Succeeded(f[0]);
      forall i | 0 <= i < |first| ensures Succeeded(first[i]) { assert first[i] == f[i + 1]; }
    }
  }

  /** A success stays a success, with the same order number and no new order, when
      the same enrollment is processed again against a store that extends the one the
      first call left. */
  lemma RepeatAgainstExtendedStore(e: Enrollment, s: Store, t: Store, partner: int, place: Placer, place': Placer)
    requires t.courses == s.courses
    requires CreateSingleOrder(e, s, partner, place).store.orders <= t.orders
    requires Succeeded(CreateSingleOrder(e, s, partner, place).result)
    ensures CreateSingleOrder(e, t, partner, place') == Step(CreateSingleOrder(e, s, partner, place).result, t)
  {
    var step1 := CreateSingleOrder(e, s, partner, place);
    SuccessNamesCompletedOrder(e, s, partner, place);
    SuccessIsExtend(e, s, partner, place);
    FoundInExtension(step1.store.orders, t.orders, LearnerOf(e), s.courses[CourseIdOf(e)]);
    ExistingOrderPath(e, t, partner, place');
  }

  lemma FoundInExtension(orders: seq<Order>, longer: seq<Order>, user: string, product: int)
    requires orders <= longer && FindCompletedOrder(orders, user, product).Some?
    ensures FindCompletedOrder(longer, user, product) == FindCompletedOrder(orders, user, product)
  {
    var more := longer[|orders|..];
    assert longer == orders + more;
    FindCompletedOrderStable(orders, more, user, product);
  }

  /** A successful result is the enrollment extended with status success and the order number. */
  lemma SuccessIsExtend(e: Enrollment, s: Store, partner: int, place: Placer)
    requires Succeeded(CreateSingleOrder(e, s, partner, place).result)
    ensures var r := CreateSingleOrder(e, s, partner, place).result;
            r["detail"].Str? && r == Extend(e, SUCCESS, r["detail"].s)
  {
  }

  /** When the learner already has a completed order for the seat, the step reports it
      and leaves the store as it is. */
  lemma ExistingOrderPath(e: Enrollment, t: Store, partner: int, place: Placer)
    requires Valid(e) && CourseIdOf(e) in t.courses && ExistingOrder(e, t).Some?
    ensures CreateSingleOrder(e, t, partner, place) == Step(Extend(e, SUCCESS, ExistingOrder(e, t).value), t)
  {
  }

  /** Repeating a batch against any store that extends the one the first run left
      (same courses, more orders) reproduces every result that succeeded the first
      time; when every result succeeded, the repeat creates no order and attempts no
      placement. */
  lemma {:induction false} RepeatedBatchKeepsSuccesses(es: seq<Enrollment>, s: Store, t: Store,
                                                       partner: int, place: Placer, place': Placer)
    requires t.courses == s.courses
    requires CreateOrders(es, s, partner, place).store.orders <= t.orders
    ensures var first, again := CreateOrders(es, s, partner, place), CreateOrders(es, t, partner, place');
            KeepsSuccesses(first.results, again.results)
            && (AllSucceeded(first.results) ==> again.store == t)
    decreases |es|
  {
    if |es| > 0 {
      var e := es[0];
      var step1 := CreateSingleOrder(e, s, partner, place);
      var rest1 := CreateOrders(es[1..], step1.store, partner, place);
      var step2 := CreateSingleOrder(e, t, partner, place');
      var rest2 := CreateOrders(es[1..], step2.store, partner, place');
      assert CreateOrders(es, s, partner, place) == Batch([step1.result] + rest1.results, rest1.store);
      assert CreateOrders(es, t, partner, place') == Batch([step2.result] + rest2.results, rest2.store);
      RepeatedBatchKeepsSuccesses(es[1..], step1.store, step2.store, partner, place, place');
      if Succeeded(step1.result) {
        RepeatAgainstExtendedStore(e, s, t, partner, place, place');
      }
      KeepsSuccessesCons(step1.result, step2.result, rest1.results, rest2.results);
    }
  }

  /** Repeating the whole request against the store the first run left. */
  lemma RepeatedRequestKeepsSuccesses(es: seq<Enrollment>, s: Store, partner: int, place: Placer, place': Placer)
    ensures var first := CreateOrders(es, s, partner, place);
            var again := CreateOrders(es, first.store, partner, place');
            KeepsSuccesses(first.results, again.results)
            && (AllSucceeded(first.results) ==> again.store == first.store)
  {
    var first := CreateOrders(es, s, partner, place);
    RepeatedBatchKeepsSuccesses(es, s, first.store, partner, place, place');
  }

  /** An empty enrollment object is missing every required field. */
  lemma EmptyEnrollmentMissesAll()
    ensures MissingFields(map[], RequiredFields) == RequiredFields
  {
    var e: Enrollment := map[];
    FilterKeepsAll(RequiredFields, f => !Truthy(Get(e, f)));
  }

  /** Python's `', '.join` of four parts. */
  lemma JoinFour(a: string, b: string, c: string, d: string)
    ensures Join([a, b, c, d], ", ") == a + ", " + b + ", " + c + ", " + d
  {
    assert [c, d][1..] == [d];
    assert Join([c, d], ", ") == c + ", " + d;
    assert [b, c, d][1..] == [c, d];
    assert Join([b, c, d], ", ") == b + ", " + (c + ", " + d);
    assert [a, b, c, d][1..] == [b, c, d];
    assert Join([a, b, c, d], ", ") == a + ", " + (b + ", " + (c + ", " + d));
  }

  /** The list of all four required fields, quoted and comma-separated:
      `'lms_user_id', 'username', 'email', 'course_run_key'`. */
  const AllRequiredListed := Quote("lms_user_id") + ", " + Quote("username") + ", " + Quote("email") + ", " + Quote("course_run_key")

  /** The message that lists every required field. */
  lemma MessageListingAllFields()
    ensures MissingDataMessage(RequiredFields) == MissingDataPrefix + AllRequiredListed
  {
    var fs := RequiredFields;
    assert QuoteAll(fs) == [Quote(fs[0]), Quote(fs[1]), Quote(fs[2]), Quote(fs[3])];
    JoinFour(Quote(fs[0]), Quote(fs[1]), Quote(fs[2]), Quote(fs[3]));
  }

  /** An empty enrollment object fails validation, listing all four fields in order. */
  lemma EmptyEnrollmentMessage()
    ensures GetRequiredEnrollmentData(map[])
            == Err(MissingDataPrefix + AllRequiredListed)
  {
    EmptyEnrollmentMissesAll();
    MessageListingAllFields();
  }

  /** An empty enrollment comes back as a failure carrying the full missing-data message. */
  lemma EmptyEnrollmentResult(s: Store, partner: int, place: Placer)
    ensures CreateSingleOrder(map[], s, partner, place)
            == Step(map["status" := Str("failure"),
                        "detail" := Str(MissingDataPrefix + AllRequiredListed)], s)
  {
    EmptyEnrollmentMessage();
    var e: Enrollment := map[];
    var message := MissingDataPrefix + AllRequiredListed;
    assert Extend(e, FAILURE, message) == map["status" := Str("failure"), "detail" := Str(message)];
  }

  /** A request holding one empty enrollment is answered 200 with that one failure. */
  lemma EmptyEnrollmentRequest(s: Store, partner: int, place: Placer)
    ensures Create(Some([map[]]), s, partner, place)
            == Outcome(Response(200, OrderList([map["status" := Str("failure"),
                                                     "detail" := Str(MissingDataPrefix + AllRequiredListed)]])), s)
  {
    var es: seq<Enrollment> := [map[]];
    var batch := CreateOrders(es, s, partner, place);
    SingletonBatch(map[], s, partner, place);
    EmptyEnrollmentResult(s, partner, place);
  }

  /** A one-enrollment batch is that enrollment's step. */
  lemma SingletonBatch(e: Enrollment, s: Store, partner: int, place: Placer)
    ensures CreateOrders([e], s, partner, place)
            == var step := CreateSingleOrder(e, s, partner, place); Batch([step.result], step.store)
  {
    assert [e][1..] == [];
  }

  /** Processing two lists one after the other is processing their concatenation:
      the second list starts from the store the first one left. */
  lemma {:induction false} CreateOrdersAppend(a: seq<Enrollment>, b: seq<Enrollment>, s: Store, partner: int, place: Placer)
    ensures var front := CreateOrders(a, s, partner, place);
            var back := CreateOrders(b, front.store, partner, place);
            CreateOrders(a + b, s, partner, place) == Batch(front.results + back.results, back.store)
    decreases |a|
  {
    if |a| == 0 {
      assert a + b == b;
    } else {
      var first := CreateSingleOrder(a[0], s, partner, place);
      CreateOrdersAppend(a[1..], b, first.store, partner, place);
      CreateOrdersCons(a, b, s, partner, place);
      var front := CreateOrders(a[1..], first.store, partner, place);
      var back := CreateOrders(b, front.store, partner, place);
      Assoc([first.result], front.results, back.results);
    }
  }

  /** One unfolding of the batch over `a + b` with a non-empty `a`. */
  lemma CreateOrdersCons(a: seq<Enrollment>, b: seq<Enrollment>, s: Store, partner: int, place: Placer)
    requires |a| > 0
    ensures var first := CreateSingleOrder(a[0], s, partner, place);
            var rest := CreateOrders(a[1..] + b, first.store, partner, place);
            CreateOrders(a + b, s, partner, place) == Batch([first.result] + rest.results, rest.store)
            && CreateOrders(a, s, partner, place).results
               == [first.result] + CreateOrders(a[1..], first.store, partner, place).results
  {
    assert (a + b)[0] == a[0];
    assert (a + b)[1..] == a[1..] + b;
  }

  /** The batch is sequential: entry `i` is `_create_single_order`'s result for the i-th
      enrollment, computed against the store that the enrollments before it left, and
      the store after it is the one that step leaves. */
  lemma CreateOrdersStepwise(es: seq<Enrollment>, s: Store, partner: int, place: Placer, i: nat)
    requires i < |es|
    ensures var before := CreateOrders(es[..i], s, partner, place).store;
            var step := CreateSingleOrder(es[i], before, partner, place);
            CreateOrders(es, s, partner, place).results[i] == step.result
            && CreateOrders(es[..i + 1], s, partner, place).store == step.store
  {
    StepwiseResult(es, s, partner, place, i);
    StepwiseStore(es, s, partner, place, i);
  }

  lemma StepwiseResult(es: seq<Enrollment>, s: Store, partner: int, place: Placer, i: nat)
    requires i < |es|
    ensures CreateOrders(es, s, partner, place).results[i]
            == CreateSingleOrder(es[i], CreateOrders(es[..i], s, partner, place).store, partner, place).result
  {
    var front := CreateOrders(es[..i], s, partner, place);
    var rest := es[i..];
    CreateOrdersAppend(es[..i], rest, s, partner, place);
    PrefixRest(es, i);
    BatchHead(rest, front.store, partner, place);
  }

  lemma StepwiseStore(es: seq<Enrollment>, s: Store, partner: int, place: Placer, i: nat)
    requires i < |es|
    ensures CreateOrders(es[..i + 1], s, partner, place).store
            == CreateSingleOrder(es[i], CreateOrders(es[..i], s, partner, place).store, partner, place).store
  {
    var front, one := es[..i], [es[i]];
    var t := CreateOrders(front, s, partner, place).store;
    CreateOrdersAppend(front, one, s, partner, place);
    PrefixSnoc(es, i);
    var back := CreateOrders(one, t, partner, place);
    assert CreateOrders(es[..i + 1], s, partner, place).store == back.store;
    SingletonBatch(es[i], t, partner, place);
  }

  /** The first entry of a batch is the first enrollment's step. */
  lemma BatchHead(b: seq<Enrollment>, t: Store, partner: int, place: Placer)
    requires |b| > 0
    ensures CreateOrders(b, t, partner, place).results[0] == CreateSingleOrder(b[0], t, partner, place).result
  {
  }
}

/** One composite round trip of the popup: the body of each `explain` sub-response is
    parsed into a query plan (row counts and the non-null ratio) or an error, and the
    sub-responses are matched, by position, to the batch that was sent. Any property
    read on `null` (or on a missing batch member) throws, which here is a `Failure`
    that fails the whole batch. */
module QueryPlan {
  import opened Wrappers
  import opened JsValues
  import opened Fields
  import opened JsNumbers

  /** A selection as `handleProcessSelections` prepares it for a batch. */
  datatype BatchDetail = BatchDetail(
    sobject: string,
    field: string,
    key: string,
    sobjectLabel: string,
    fieldLabel: string,
    metadata: Option<FieldMeta>)

  /** `{ nonNullCount, sobjectCount, nonNullPercentage }`, JavaScript numbers as reals. */
  datatype Plan = Plan(nonNullCount: real, sobjectCount: real, nonNullPercentage: real)

  /** An error value as stored in the batch map: always truthy. */
  type ErrorValue = e: Json | Truthy(e) witness JBool(true)

  /** A batch map entry: `{ plan }` or `{ error }`. */
  datatype Outcome = PlanOutcome(plan: Plan) | ErrorOutcome(error: ErrorValue)

  /** What the composite endpoint gave back: a parsed JSON body, or a thrown error
      (network failure, non-2xx answer) with its message. */
  datatype CallResult = Responded(body: Json) | CallFailed(message: string)

  const MissingCardinality := "Query plan missing cardinality data."
  const UnexpectedComposite := "Composite API did not return the expected response."
  const UnknownError := "Unknown error."

  /** The first plan of a non-empty `plans` array, when the body has one. */
  function FirstPlan(body: Option<Json>): Option<Json> {
    if !TruthyOpt(body) then None
    else
      match Field(body.value, "plans")
      case Some(JArr(plans)) => if |plans| == 0 then None else Some(plans[0])
      case _ => None
  }

  /** `plan` read from a plan object: both cardinalities, and the ratio. */
  ghost predicate PlanFrom(plan: Json, p: Plan) {
    && Field(plan, "cardinality") == Some(JNum(p.nonNullCount))
    && Field(plan, "sobjectCardinality") == Some(JNum(p.sobjectCount))
    && (p.sobjectCount == 0.0 ==> p.nonNullPercentage == 0.0)
    && (p.sobjectCount != 0.0 ==> p.nonNullPercentage * p.sobjectCount == p.nonNullCount)
  }

  /** `parsePlanFromResponse(body)`: null (None) unless `plans` is a non-empty array
      whose first entry has numeric `cardinality` and `sobjectCardinality`; reading
      them from a `null` first entry throws. */
  function ParsePlan(body: Option<Json>): (r: Result<Option<Plan>, string>)
    ensures r.Failure? <==> FirstPlan(body) == Some(JNull)
    ensures r.Failure? ==> r.error == ReadNullMessage("cardinality")
    ensures r.Success? && r.value.Some? ==> FirstPlan(body).Some? && PlanFrom(FirstPlan(body).value, r.value.value)
    ensures r.Success? && r.value.None? && FirstPlan(body).Some? ==>
      !(Field(FirstPlan(body).value, "cardinality").Some? && Field(FirstPlan(body).value, "cardinality").value.JNum? &&
        Field(FirstPlan(body).value, "sobjectCardinality").Some? && Field(FirstPlan(body).value, "sobjectCardinality").value.JNum?)
  {
    match FirstPlan(body)
    case None => Success(None)
    case Some(plan) =>
      if plan.JNull? then Failure(ReadNullMessage("cardinality"))
      else
        match (Field(plan, "cardinality"), Field(plan, "sobjectCardinality"))
        case (Some(JNum(c)), Some(JNum(s))) =>
          Success(Some(Plan(c, s, if s == 0.0 then 0.0 else c / s)))
        case _ => Success(None)
  }

  /** With `0 <= cardinality <= sobjectCardinality` the ratio lies in [0, 1]. */
  lemma PercentageInUnit(body: Option<Json>)
    requires ParsePlan(body).Success? && ParsePlan(body).value.Some?
    requires var p := ParsePlan(body).value.value; 0.0 <= p.nonNullCount <= p.sobjectCount
    ensures var p := ParsePlan(body).value.value; 0.0 <= p.nonNullPercentage <= 1.0
  {
    var p := ParsePlan(body).value.value;
    if p.sobjectCount != 0.0 {
      assert p.nonNullPercentage == p.nonNullCount / p.sobjectCount;
    }
  }

  /** `extractCompositeError(body)`: "Unknown error." for an empty body; for a
      non-empty array, its first element's `message` or else that element's JSON;
      otherwise the body's `message` or else the body's JSON. */
  function ExtractCompositeError(body: Option<Json>, rt: Runtime): (r: Result<ErrorValue, string>)
    ensures r.Failure? <==>
      (TruthyOpt(body) && body.value.JArr? && |body.value.items| > 0 && body.value.items[0].JNull?)
    ensures r.Failure? ==> r.error == ReadNullMessage("message")
    ensures !TruthyOpt(body) ==> r == Success(JStr(UnknownError))
  {
    if !TruthyOpt(body) then Success(JStr(UnknownError))
    else
      var b := body.value;
      if b.JArr? && |b.items| > 0 then
        var first := b.items[0];
        if first.JNull? then Failure(ReadNullMessage("message"))
        else MessageOr(first, rt)
      else MessageOr(b, rt)
  }

  /** `v.message || JSON.stringify(v)` on a non-null value. */
  function MessageOr(v: Json, rt: Runtime): (r: Result<ErrorValue, string>)
    requires !v.JNull?
    ensures r.Success?
    ensures TruthyOpt(Field(v, "message")) ==> r.value == Field(v, "message").value
    ensures !TruthyOpt(Field(v, "message")) ==> r.value == JStr(rt.stringify(v))
  {
    var m := Field(v, "message");
    if TruthyOpt(m) then Success(m.value) else Success(JStr(rt.stringify(v)))
  }

  /** `httpStatusCode >= 200 && httpStatusCode < 300`: the status, converted by
      ToNumber, is a finite value in [200, 300). NaN and the infinities never are,
      and a conversion that throws throws here. */
  function SuccessStatus(status: Option<Json>, rt: Runtime): Result<bool, string> {
    match ToNumber(status, rt)
    case Failure(e) => Failure(e)
    case Success(n) => Success(n.Finite? && 200.0 <= n.value < 300.0)
  }

  /** A status written in decimal digits passes the test as its value does, with
      whitespace around it or not, and so does a one-item array holding that text:
      "204", " 204 " and ["204"] pass like 204. */
  lemma StatusText(n: nat, pre: string, post: string, rt: Runtime)
    requires forall i | 0 <= i < |pre| :: IsJsSpace(pre[i])
    requires forall i | 0 <= i < |post| :: IsJsSpace(post[i])
    ensures SuccessStatus(Some(JStr(pre + DecimalText(n) + post)), rt) == Success(200 <= n < 300)
    ensures SuccessStatus(Some(JArr([JStr(pre + DecimalText(n) + post)])), rt) == Success(200 <= n < 300)
  {
    var s := pre + DecimalText(n) + post;
    DecimalStringValue(n, pre, post);
    StatusOfText(s, n, rt);
  }

  lemma StatusOfText(s: string, n: nat, rt: Runtime)
    requires StringToNumber(s) == Finite(n as real)
    ensures SuccessStatus(Some(JStr(s)), rt) == Success(200 <= n < 300)
    ensures SuccessStatus(Some(JArr([JStr(s)])), rt) == Success(200 <= n < 300)
  {
    ArrayToNumber([JStr(s)], rt);
    assert Text(JStr(s), rt) == s;
  }

  /** A number is compared as it is; a missing status, `null`, a boolean and any other
      object never pass. An array throws exactly when one of its items throws, and
      otherwise never passes when it has two or more items. An object with its own
      `toString` member throws. */
  lemma StatusValues(x: real, b: bool, items: seq<Json>, members: seq<(string, Json)>, rt: Runtime)
    ensures SuccessStatus(Some(JNum(x)), rt) == Success(200.0 <= x < 300.0)
    ensures SuccessStatus(None, rt) == Success(false)
    ensures SuccessStatus(Some(JNull), rt) == Success(false)
    ensures SuccessStatus(Some(JBool(b)), rt) == Success(false)
    ensures (exists i | 0 <= i < |items| :: ConversionThrows(items[i])) <==>
      SuccessStatus(Some(JArr(items)), rt) == Failure(ToPrimitiveMessage)
    ensures |items| >= 2 && (forall i | 0 <= i < |items| :: !ConversionThrows(items[i])) ==>
      SuccessStatus(Some(JArr(items)), rt) == Success(false)
    ensures Lookup(members, "toString").Some? ==> SuccessStatus(Some(JObj(members)), rt) == Failure(ToPrimitiveMessage)
    ensures Lookup(members, "toString").None? ==> SuccessStatus(Some(JObj(members)), rt) == Success(false)
  {
    ArrayToNumber(items, rt);
    ObjectToNumber(members, rt);
  }

  /** The map entry one sub-response produces. */
  function SubOutcome(sub: Json, rt: Runtime): Result<Outcome, string> {
    if sub.JNull? then Failure(ReadNullMessage("httpStatusCode"))
    else
      var body := Field(sub, "body");
      match SuccessStatus(Field(sub, "httpStatusCode"), rt)
      case Failure(e) => Failure(e)
      case Success(true) =>
        (match ParsePlan(body)
         case Failure(e) => Failure(e)
         case Success(None) => Success(ErrorOutcome(JStr(MissingCardinality)))
         case Success(Some(p)) => Success(PlanOutcome(p)))
      case Success(false) =>
        match ExtractCompositeError(body, rt)
        case Failure(e) => Failure(e)
        case Success(e) => Success(ErrorOutcome(e))
  }

  /** A `null` sub-response throws reading its status, and so does a status whose
      conversion throws. A 2xx status gives the parsed plan, or the missing-cardinality
      error when parsing yields nothing, and throws when parsing throws. Any other
      status gives the extracted error, and throws when extracting throws. */
  lemma SubOutcomeCases(sub: Json, rt: Runtime)
    ensures sub.JNull? ==> SubOutcome(sub, rt) == Failure(ReadNullMessage("httpStatusCode"))
    ensures !sub.JNull? && SuccessStatus(Field(sub, "httpStatusCode"), rt).Failure? ==>
      SubOutcome(sub, rt) == Failure(SuccessStatus(Field(sub, "httpStatusCode"), rt).error)
    ensures !sub.JNull? && SuccessStatus(Field(sub, "httpStatusCode"), rt) == Success(true) ==>
      match ParsePlan(Field(sub, "body"))
      case Failure(e) => SubOutcome(sub, rt) == Failure(e)
      case Success(None) => SubOutcome(sub, rt) == Success(ErrorOutcome(JStr(MissingCardinality)))
      case Success(Some(p)) => SubOutcome(sub, rt) == Success(PlanOutcome(p))
    ensures !sub.JNull? && SuccessStatus(Field(sub, "httpStatusCode"), rt) == Success(false) ==>
      match ExtractCompositeError(Field(sub, "body"), rt)
      case Failure(e) => SubOutcome(sub, rt) == Failure(e)
      case Success(e) => SubOutcome(sub, rt) == Success(ErrorOutcome(e))
  {
  }

  /** The demux of `fetchQueryPlansBatch`, sub-response by sub-response: the i-th
      sub-response is stored under `batch[i].key`; reading the key of a batch member
      that does not exist, or any failing sub-response, throws. */
  function DemuxSpec(batch: seq<BatchDetail>, subs: seq<Json>, rt: Runtime): Result<map<string, Outcome>, string>
  {
    if subs == [] then Success(map[])
    else
      var n := |subs| - 1;
      match DemuxSpec(batch, subs[..n], rt)
      case Failure(e) => Failure(e)
      case Success(m) =>
        if n >= |batch| then Failure(ReadUndefinedMessage("key"))
        else
          match SubOutcome(subs[n], rt)
          case Failure(e) => Failure(e)
          case Success(o) => Success(m[batch[n].key := o])
  }

  /** The demux succeeds exactly when the response is no longer than the batch and
      no sub-response throws; on success its keys are the keys of the answered
      members. */
  lemma DemuxSucceeds(batch: seq<BatchDetail>, subs: seq<Json>, rt: Runtime)
    ensures DemuxSpec(batch, subs, rt).Success? <==>
      |subs| <= |batch| && forall i | 0 <= i < |subs| :: SubOutcome(subs[i], rt).Success?
    ensures DemuxSpec(batch, subs, rt).Success? ==>
      DemuxSpec(batch, subs, rt).value.Keys == set i | 0 <= i < |subs| :: batch[i].key
  {
    DemuxSuccessIff(batch, subs, rt);
    if DemuxSpec(batch, subs, rt).Success? {
      DemuxKeys(batch, subs, rt);
    }
  }

  lemma {:induction false} DemuxSuccessIff(batch: seq<BatchDetail>, subs: seq<Json>, rt: Runtime)
    ensures DemuxSpec(batch, subs, rt).Success? <==>
      |subs| <= |batch| && forall i | 0 <= i < |subs| :: SubOutcome(subs[i], rt).Success?
  {
    if subs != [] {
      var n := |subs| - 1;
      DemuxSuccessIff(batch, subs[..n], rt);
      assert forall i | 0 <= i < n :: subs[..n][i] == subs[i];
    }
  }

  lemma {:induction false} DemuxKeys(batch: seq<BatchDetail>, subs: seq<Json>, rt: Runtime)
    requires DemuxSpec(batch, subs, rt).Success?
    ensures |subs| <= |batch|
    ensures DemuxSpec(batch, subs, rt).value.Keys == set i | 0 <= i < |subs| :: batch[i].key
  {
    if subs != [] {
      var n := |subs| - 1;
      DemuxLast(batch, subs, rt);
      DemuxKeys(batch, subs[..n], rt);
      KeySetSnoc(batch, n);
    }
  }

  lemma KeySetSnoc(batch: seq<BatchDetail>, n: nat)
    requires n < |batch|
    ensures (set i | 0 <= i < n + 1 :: batch[i].key) == (set i | 0 <= i < n :: batch[i].key) + {batch[n].key}
  {
  }

  /** A composite response with more entries than the batch throws. */
  lemma LongerResponseThrows(batch: seq<BatchDetail>, subs: seq<Json>, rt: Runtime)
    requires |subs| > |batch|
    ensures DemuxSpec(batch, subs, rt).Failure?
  {
    DemuxSucceeds(batch, subs, rt);
  }

  /** Keys of a batch are pairwise distinct. */
  ghost predicate DistinctKeys(batch: seq<BatchDetail>) {
    forall i, j | 0 <= i < j < |batch| :: batch[i].key != batch[j].key
  }

  /** With distinct keys, each answered member's entry is its own sub-response's outcome. */
  lemma {:induction false} DemuxEntries(batch: seq<BatchDetail>, subs: seq<Json>, rt: Runtime, i: nat)
    requires DistinctKeys(batch) && DemuxSpec(batch, subs, rt).Success? && i < |subs|
    ensures EntryIsOutcome(batch, subs, rt, i)
  {
    var n := |subs| - 1;
    DemuxLast(batch, subs, rt);
    DemuxSuccessIff(batch, subs, rt);
    if i < n {
      DemuxEntries(batch, subs[..n], rt, i);
      assert subs[..n][i] == subs[i];
      assert batch[i].key != batch[n].key;
    }
  }

  /** A successful demux is the demux of all but the last sub-response, with the last
      one's outcome stored under its member's key. */
  lemma DemuxLast(batch: seq<BatchDetail>, subs: seq<Json>, rt: Runtime)
    requires subs != [] && DemuxSpec(batch, subs, rt).Success?
    ensures var n := |subs| - 1;
      && DemuxSpec(batch, subs[..n], rt).Success?
      && n < |batch|
      && SubOutcome(subs[n], rt).Success?
      && DemuxSpec(batch, subs, rt).value
         == DemuxSpec(batch, subs[..n], rt).value[batch[n].key := SubOutcome(subs[n], rt).value]
  {
  }

  ghost predicate EntryIsOutcome(batch: seq<BatchDetail>, subs: seq<Json>, rt: Runtime, i: nat)
    requires DemuxSpec(batch, subs, rt).Success? && i < |subs| && |subs| <= |batch|
  {
    batch[i].key in DemuxSpec(batch, subs, rt).value &&
    SubOutcome(subs[i], rt) == Success(DemuxSpec(batch, subs, rt).value[batch[i].key])
  }

  /** Once a prefix of the response throws, the whole demux throws the same error. */
  lemma {:induction false} DemuxFailurePersists(batch: seq<BatchDetail>, subs: seq<Json>, rt: Runtime, k: nat)
    requires k <= |subs| && DemuxSpec(batch, subs[..k], rt).Failure?
    ensures DemuxSpec(batch, subs, rt) == DemuxSpec(batch, subs[..k], rt)
    decreases |subs| - k
  {
    if k < |subs| {
      var n := k + 1;
      assert subs[..n][..k] == subs[..k];
      DemuxFailurePersists(batch, subs, rt, n);
    } else {
      assert subs[..k] == subs;
    }
  }

  /** The `forEach` over `compositeResponse` that fills the result map. */
  method Demux(batch: seq<BatchDetail>, subs: seq<Json>, rt: Runtime) returns (r: Result<map<string, Outcome>, string>)
    ensures r == DemuxSpec(batch, subs, rt)
  {
    var m: map<string, Outcome> := map[];
    var i := 0;
    while i < |subs|
      invariant 0 <= i <= |subs|
      invariant DemuxSpec(batch, subs[..i], rt) == Success(m)
    {
      assert subs[..i + 1][..i] == subs[..i];
      if i >= |batch| {
        r := Failure(ReadUndefinedMessage("key"));
        DemuxFailurePersists(batch, subs, rt, i + 1);
        return;
      }
      var o := SubOutcome(subs[i], rt);
      if o.Failure? {
        r := Failure(o.error);
        DemuxFailurePersists(batch, subs, rt, i + 1);
        return;
      }
      m := m[batch[i].key := o.value];
      i := i + 1;
    }
    assert subs[..i] == subs;
    r := Success(m);
  }

  /** `fetchQueryPlansBatch(batch)` given what the composite call answers: an empty
      batch gives an empty map; a thrown call, a falsy answer or one without a
      `compositeResponse` array throws; otherwise the demux of that array. */
  function FetchSpec(batch: seq<BatchDetail>, reply: CallResult, rt: Runtime): (r: Result<map<string, Outcome>, string>)
    ensures |batch| == 0 ==> r == Success(map[])
    ensures |batch| > 0 && reply.CallFailed? ==> r == Failure(reply.message)
    ensures r.Success? ==> forall k | k in r.value :: exists i | 0 <= i < |batch| :: batch[i].key == k
  {
    if |batch| == 0 then Success(map[])
    else
      match reply
      case CallFailed(msg) => Failure(msg)
      case Responded(resp) =>
        if !Truthy(resp) then Failure(UnexpectedComposite)
        else
          match Field(resp, "compositeResponse")
          case Some(JArr(subs)) =>
            DemuxSucceeds(batch, subs, rt);
            DemuxSpec(batch, subs, rt)
          case _ => Failure(UnexpectedComposite)
  }

  /** `fetchQueryPlansBatch`: `invoked` says whether the composite endpoint was called. */
  method FetchQueryPlansBatch(batch: seq<BatchDetail>, reply: CallResult, rt: Runtime)
    returns (r: Result<map<string, Outcome>, string>, invoked: bool)
    ensures r == FetchSpec(batch, reply, rt)
    ensures invoked <==> |batch| > 0
  {
    if |batch| == 0 {
      return Success(map[]), false;
    }
    invoked := true;
    match reply
    case CallFailed(msg) =>
      r := Failure(msg);
    case Responded(resp) =>
      if !Truthy(resp) {
        r := Failure(UnexpectedComposite);
      } else {
        match Field(resp, "compositeResponse")
        case Some(JArr(subs)) =>
          r := Demux(batch, subs, rt);
        case _ =>
          r := Failure(UnexpectedComposite);
      }
  }
}

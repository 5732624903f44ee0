/** The background worker's report store: the popup stores a finished report under
    its id, the report page takes it out again (once), and the message listener
    routes each message to its handler. */
module ReportStore {
  import opened Wrappers
  import opened JsValues

  const HostSessionMessage := "getHostSession"
  const StoreReportType := "storeReportData"
  const GetReportType := "getReportData"

  const InvalidPayload := "Invalid report payload."
  const MissingReportId := "Missing report id."
  const ReportNotFound := "Report not found."

  /** The answer to a store request: `{ success: true }` or
      `{ success: false, error }`. */
  datatype StoreReply = StoreReply(success: bool, error: Option<string>)

  /** The answer to a get request: `{ success, data, error }`. A None `data` is
      absent (on a rejected id) or `undefined` (on a miss); a None `error` is the
      `null` of a found report. */
  datatype GetReply = GetReply(success: bool, data: Option<Json>, error: Option<string>)

  /** `data && data.reportId`: the payload is an object whose `reportId` is truthy. */
  predicate ValidPayload(data: Option<Json>) {
    data.Some? && Truthy(data.value) && TruthyOpt(Field(data.value, "reportId"))
  }

  /** What the store holds: every report is filed under its own truthy `reportId`. */
  ghost predicate ValidEntries(entries: map<Json, Json>) {
    forall k | k in entries :: Truthy(k) && Field(entries[k], "reportId") == Some(k)
  }

  /** `storeReportData(data)`: the new entries and the reply. */
  function StoreSpec(entries: map<Json, Json>, data: Option<Json>): (map<Json, Json>, StoreReply) {
    if !ValidPayload(data) then (entries, StoreReply(false, Some(InvalidPayload)))
    else
      var id := Field(data.value, "reportId").value;
      (entries[id := data.value], StoreReply(true, None))
  }

  /** `getStoredReportData(reportId)`: a found report is deleted as it is returned. */
  function GetSpec(entries: map<Json, Json>, reportId: Option<Json>): (map<Json, Json>, GetReply) {
    if !TruthyOpt(reportId) then (entries, GetReply(false, None, Some(MissingReportId)))
    else
      var id := reportId.value;
      var data := if id in entries then Some(entries[id]) else None;
      if TruthyOpt(data) then (entries - {id}, GetReply(true, data, None))
      else (entries, GetReply(false, data, Some(ReportNotFound)))
  }

  /* ---------- properties of the two handlers ---------- */

  /** A payload without a truthy `reportId` is rejected and changes nothing; a valid
      one is filed under its id, replacing any earlier report with that id, and
      nothing else changes. */
  lemma StoreEffect(entries: map<Json, Json>, data: Option<Json>)
    ensures var (after, reply) := StoreSpec(entries, data);
      && (reply.success <==> ValidPayload(data))
      && (reply.success <==> reply.error.None?)
      && (!ValidPayload(data) ==> after == entries && reply.error == Some(InvalidPayload))
      && (ValidPayload(data) ==>
            var id := Field(data.value, "reportId").value;
            && id in after && after[id] == data.value
            && forall k | k != id :: (k in after <==> k in entries) && (k in entries ==> after[k] == entries[k]))
  {
  }

  /** Storing keeps the store well formed. */
  lemma StoreKeepsValid(entries: map<Json, Json>, data: Option<Json>)
    requires ValidEntries(entries)
    ensures ValidEntries(StoreSpec(entries, data).0)
  {
  }

  /** A get without a truthy id is rejected and changes nothing; otherwise `success`
      holds exactly when a report was found, `error` is null exactly then, and a found
      report is removed while everything else stays. */
  lemma GetEffect(entries: map<Json, Json>, reportId: Option<Json>)
    requires ValidEntries(entries)
    ensures var (after, reply) := GetSpec(entries, reportId);
      && (!TruthyOpt(reportId) ==> after == entries && reply == GetReply(false, None, Some(MissingReportId)))
      && (TruthyOpt(reportId) ==>
            && (reply.success <==> reportId.value in entries)
            && (reply.success <==> reply.error.None?)
            && (reply.success ==> reply.data == Some(entries[reportId.value]))
            && (!reply.success ==> reply == GetReply(false, None, Some(ReportNotFound)) && after == entries)
            && reportId.value !in after
            && forall k | k != reportId.value :: (k in after <==> k in entries) && (k in entries ==> after[k] == entries[k]))
  {
    if TruthyOpt(reportId) && reportId.value in entries {
      var k := reportId.value;
      assert Field(entries[k], "reportId") == Some(k);
    }
  }

  /** Taking keeps the store well formed. */
  lemma GetKeepsValid(entries: map<Json, Json>, reportId: Option<Json>)
    requires ValidEntries(entries)
    ensures ValidEntries(GetSpec(entries, reportId).0)
  {
  }

  /** A stored report is returned by the first get of its id and never again. */
  lemma TakeOnce(entries: map<Json, Json>, data: Option<Json>)
    requires ValidEntries(entries) && ValidPayload(data)
    ensures var id := Some(Field(data.value, "reportId").value);
      var (stored, _) := StoreSpec(entries, data);
      var (taken, first) := GetSpec(stored, id);
      var (_, second) := GetSpec(taken, id);
      && first == GetReply(true, data, None)
      && taken == entries - {id.value}
      && second == GetReply(false, None, Some(ReportNotFound))
  {
    var id := Field(data.value, "reportId").value;
    var stored := StoreSpec(entries, data).0;
    assert stored - {id} == entries - {id};
  }

  /** Of two reports stored under the same id, the later one is returned. */
  lemma LaterStoreWins(entries: map<Json, Json>, d1: Option<Json>, d2: Option<Json>)
    requires ValidPayload(d1) && ValidPayload(d2)
    requires Field(d1.value, "reportId") == Field(d2.value, "reportId")
    ensures var id := Field(d2.value, "reportId");
      GetSpec(StoreSpec(StoreSpec(entries, d1).0, d2).0, id).1 == GetReply(true, d2, None)
  {
  }

  /* ---------- the message listener ---------- */

  /** `value == "getHostSession"` with JavaScript's loose equality: `undefined`, `null`,
      booleans and numbers never equal a string that is not a number, strings compare
      as strings, arrays and objects by their string form. Converting an array or an
      object can throw (`ConversionThrows`); `DispatchSpec` tests that first. */
  predicate RequestsHostSession(value: Option<Json>, rt: Runtime) {
    value.Some? && (value.value.JStr? || value.value.JArr? || value.value.JObj?) &&
      Text(value.value, rt) == HostSessionMessage
  }

  /** Where the listener sends a message: the session lookup, one of the two store
      handlers (with its reply), or nowhere. */
  datatype Route =
    | HostSession
    | StoreRoute(storeReply: StoreReply)
    | GetRoute(getReply: GetReply)
    | Unhandled

  /** The listener's return value: true keeps the reply channel open. */
  predicate KeepsChannelOpen(route: Route) {
    !route.Unhandled?
  }

  /** The listener on one message: the new entries and the route, or the TypeError a
      `null` message throws. */
  function DispatchSpec(entries: map<Json, Json>, message: Json, rt: Runtime): (map<Json, Json>, Result<Route, string>) {
    match Prop(message, "message")
    case Failure(e) => (entries, Failure(e))
    case Success(tag) =>
      if tag.Some? && ConversionThrows(tag.value) then (entries, Failure(ToPrimitiveMessage))
      else if RequestsHostSession(tag, rt) then (entries, Success(HostSession))
      else
        var kind := Field(message, "type");
        if kind == Some(JStr(StoreReportType)) then
          var (after, reply) := StoreSpec(entries, Field(message, "data"));
          (after, Success(StoreRoute(reply)))
        else if kind == Some(JStr(GetReportType)) then
          var (after, reply) := GetSpec(entries, Field(message, "reportId"));
          (after, Success(GetRoute(reply)))
        else (entries, Success(Unhandled))
  }

  /** The listener throws on a `null` message, reading its `message`, and on a
      `message` member whose conversion for `==` throws. It keeps the channel open
      exactly for the three known messages, and only the store handlers change the
      store. */
  lemma DispatchRouting(entries: map<Json, Json>, message: Json, rt: Runtime)
    ensures var (after, r) := DispatchSpec(entries, message, rt);
      && (r.Failure? <==> message.JNull? || (Field(message, "message").Some? && ConversionThrows(Field(message, "message").value)))
      && (message.JNull? ==> r == Failure(ReadNullMessage("message")))
      && (r.Failure? && !message.JNull? ==> r == Failure(ToPrimitiveMessage))
      && (r.Success? ==>
            (KeepsChannelOpen(r.value) <==>
              RequestsHostSession(Field(message, "message"), rt) ||
              Field(message, "type") == Some(JStr(StoreReportType)) ||
              Field(message, "type") == Some(JStr(GetReportType))))
      && (r.Failure? || r.value.HostSession? || r.value.Unhandled? ==> after == entries)
  {
  }

  /** The report page gets back the report the popup stored, through the listener, and
      a second request for it is answered "Report not found.". */
  lemma StoreThenFetchThroughListener(entries: map<Json, Json>, report: Json, rt: Runtime)
    requires ValidEntries(entries) && ValidPayload(Some(report))
    ensures var id := Field(report, "reportId").value;
      var storeMsg := JObj([("type", JStr(StoreReportType)), ("data", report)]);
      var getMsg := JObj([("type", JStr(GetReportType)), ("reportId", id)]);
      var (e1, r1) := DispatchSpec(entries, storeMsg, rt);
      var (e2, r2) := DispatchSpec(e1, getMsg, rt);
      var (_, r3) := DispatchSpec(e2, getMsg, rt);
      && r1 == Success(StoreRoute(StoreReply(true, None)))
      && r2 == Success(GetRoute(GetReply(true, Some(report), None)))
      && r3 == Success(GetRoute(GetReply(false, None, Some(ReportNotFound))))
  {
    var id := Field(report, "reportId").value;
    var storeMsg := JObj([("type", JStr(StoreReportType)), ("data", report)]);
    var getMsg := JObj([("type", JStr(GetReportType)), ("reportId", id)]);
    assert Field(storeMsg, "message") == None && Field(getMsg, "message") == None;
    assert "data" != "type" by {
      assert "data"[0] == 'd' && "type"[0] == 't';
    }
    assert Lookup(storeMsg.members, "type") == Lookup(storeMsg.members[..1], "type");
    assert storeMsg.members[..1] == [("type", JStr(StoreReportType))];
    assert Field(storeMsg, "type") == Some(JStr(StoreReportType));
    assert Field(storeMsg, "data") == Some(report);
    assert Lookup(getMsg.members, "type") == Lookup(getMsg.members[..1], "type");
    assert getMsg.members[..1] == [("type", JStr(GetReportType))];
    assert Field(getMsg, "type") == Some(JStr(GetReportType));
    assert Field(getMsg, "reportId") == Some(id);
    TakeOnce(entries, Some(report));
  }

  /** The background worker's `reportDataStore`. */
  class Store {
    var entries: map<Json, Json>

    ghost predicate Valid()
      reads this
    {
      ValidEntries(entries)
    }

    constructor ()
      ensures Valid() && entries == map[]
    {
      entries := map[];
    }

    /** `storeReportData(data, responseCallback)`. */
    method StoreReport(data: Option<Json>) returns (reply: StoreReply)
      requires Valid()
      modifies this
      ensures Valid()
      ensures (entries, reply) == StoreSpec(old(entries), data)
    {
      if !ValidPayload(data) {
        return StoreReply(false, Some(InvalidPayload));
      }
      var id := Field(data.value, "reportId").value;
      entries := entries[id := data.value];
      reply := StoreReply(true, None);
    }

    /** `getStoredReportData(reportId, responseCallback)`. */
    method GetReport(reportId: Option<Json>) returns (reply: GetReply)
      requires Valid()
      modifies this
      ensures Valid()
      ensures (entries, reply) == GetSpec(old(entries), reportId)
    {
      if !TruthyOpt(reportId) {
        return GetReply(false, None, Some(MissingReportId));
      }
      var id := reportId.value;
      var data := if id in entries then Some(entries[id]) else None;
      if TruthyOpt(data) {
        entries := entries - {id};
      }
      reply := GetReply(TruthyOpt(data), data, if TruthyOpt(data) then None else Some(ReportNotFound));
    }

    /** The `onMessage` listener; the session lookup itself is not part of this model. */
    method Dispatch(message: Json, rt: Runtime) returns (r: Result<Route, string>)
      requires Valid()
      modifies this
      ensures Valid()
      ensures (entries, r) == DispatchSpec(old(entries), message, rt)
    {
      if message.JNull? {
        return Failure(ReadNullMessage("message"));
      }
      var tag := Field(message, "message");
      if tag.Some? && ConversionThrows(tag.value) {
        return Failure(ToPrimitiveMessage);
      }
      if RequestsHostSession(tag, rt) {
        return Success(HostSession);
      }
      var kind := Field(message, "type");
      if kind == Some(JStr(StoreReportType)) {
        var reply := StoreReport(Field(message, "data"));
        r := Success(StoreRoute(reply));
      } else if kind == Some(JStr(GetReportType)) {
        var reply := GetReport(Field(message, "reportId"));
        r := Success(GetRoute(reply));
      } else {
        r := Success(Unhandled);
      }
    }
  }
}

/** The client side of the events and employees service: the payload sent when
    an event is created, the query of a period lookup, and how a list is read
    out of a response. The requests themselves are not modelled; a response is
    an input, already parsed. */
module Api {
  import opened Common
  import Schedule

  // ---------------------------------------------------------------------------
  // Creating an event

  /** What `createEvent` receives; "" stands for a field left empty or absent. */
  datatype EventInput = EventInput(
    title: string, date: string, startTime: string, endTime: string,
    location: string, description: string, instructor: string)

  /** The body posted to create an event; `end` is absent when it is `undefined`. */
  datatype Payload = Payload(
    title: string, start: string, end: Option<string>, allDay: bool,
    location: string, description: string, instructor: string)

  /** `!!(startTime || endTime)` */
  predicate HasTime(input: EventInput) {
    input.startTime != "" || input.endTime != ""
  }

  /** The payload object `createEvent` builds. */
  function CreatePayload(input: EventInput): (p: Payload)
    ensures p.allDay <==> input.startTime == "" && input.endTime == ""
    ensures p.allDay ==> p.start == input.date
    ensures !p.allDay ==>
              p.start == input.date + "T" + (if input.startTime != "" then input.startTime else "00:00")
    ensures p.end.Some? <==> input.endTime != ""
    ensures p.end.Some? ==> p.end.value == input.date + "T" + input.endTime
    ensures p.title == input.title && p.location == input.location
    ensures p.description == input.description && p.instructor == input.instructor
  {
    var hasTime := HasTime(input);
    Payload(
      input.title,
      if hasTime then input.date + "T" + (if input.startTime != "" then input.startTime else "00:00") else input.date,
      if input.endTime != "" then Some(input.date + "T" + input.endTime) else None,
      !hasTime,
      input.location, input.description, input.instructor)
  }

  /** The calendar's draft holding the same date, times, title and place. */
  function DraftOf(input: EventInput): Schedule.Draft {
    Schedule.Draft(input.date, input.title, input.startTime, input.endTime, input.location)
  }

  /** The payload sent to the service and the event the calendar saves locally
      agree on start, end and all-day for the same date and times; only the
      title differs, since the calendar appends the place to it. */
  lemma PayloadAgreesWithSaveEvent(input: EventInput, id: string)
    ensures CreatePayload(input).start == Schedule.NewEvent(DraftOf(input), id).start
    ensures CreatePayload(input).end == Schedule.NewEvent(DraftOf(input), id).end
    ensures CreatePayload(input).allDay == Schedule.NewEvent(DraftOf(input), id).allDay
    ensures input.location == "" <==> CreatePayload(input).title == Schedule.NewEvent(DraftOf(input), id).title
  {
    var ev := Schedule.NewEvent(DraftOf(input), id);
    if input.location != "" {
      assert |ev.title| == |input.title| + 3 + |input.location|;
    }
  }

  /** A timed payload's start and end share the date prefix, so a start time
      without an end time still yields a start on that date. */
  lemma TimedPayloadOnDate(input: EventInput)
    requires HasTime(input)
    ensures StartsWith(CreatePayload(input).start, input.date + "T")
    ensures CreatePayload(input).end.Some? ==> StartsWith(CreatePayload(input).end.value, input.date + "T")
  {
    var p := CreatePayload(input);
    var prefix := input.date + "T";
    assert p.start[..|prefix|] == prefix;
    if p.end.Some? {
      assert p.end.value[..|prefix|] == prefix;
    }
  }

  // ---------------------------------------------------------------------------
  // The period query

  /** `url.searchParams.set(...)` on a fresh URL: the parameters in the order set. */
  function QueryParams(startISO: string, endISO: string): (q: seq<(string, string)>)
    ensures |q| <= 2
    ensures forall i :: 0 <= i < |q| ==> q[i].1 != ""
  {
    (if startISO != "" then [("start", startISO)] else [])
    + (if endISO != "" then [("end", endISO)] else [])
  }

  /** `url.searchParams.get(key)`: the value of the first parameter named `key`. */
  function Param(q: seq<(string, string)>, key: string): (r: Option<string>)
    ensures r.None? <==> forall i :: 0 <= i < |q| ==> q[i].0 != key
    ensures r.Some? ==> (key, r.value) in q
    ensures r.Some? ==> exists i :: 0 <= i < |q| && q[i] == (key, r.value)
                                    && forall j :: 0 <= j < i ==> q[j].0 != key
  {
    if q == [] then None
    else if q[0].0 == key then Some(q[0].1)
    else Param(q[1..], key)
  }

  /** The service reads back exactly the bounds that were given, and no bound
      that was left empty; no other parameter is sent. */
  lemma QueryReadsBack(startISO: string, endISO: string)
    ensures Param(QueryParams(startISO, endISO), "start") == if startISO != "" then Some(startISO) else None
    ensures Param(QueryParams(startISO, endISO), "end") == if endISO != "" then Some(endISO) else None
    ensures forall i :: 0 <= i < |QueryParams(startISO, endISO)| ==>
              QueryParams(startISO, endISO)[i].0 in {"start", "end"}
  {
    var q := QueryParams(startISO, endISO);
    if startISO != "" {
      assert q[0] == ("start", startISO);
    }
    if endISO != "" {
      assert q[|q| - 1] == ("end", endISO);
      assert forall i :: 0 <= i < |q| - 1 ==> q[i].0 == "start";
    }
  }

  // ---------------------------------------------------------------------------
  // Reading a list out of a response

  /** A parsed JSON value; an object keeps its members in source order. */
  datatype Json =
    | JNull
    | JBool(b: bool)
    | JNum(n: int)
    | JStr(s: string)
    | JArr(items: seq<Json>)
    | JObj(members: seq<(string, Json)>)

  /** The status and parsed body of a response. */
  datatype Response = Response(ok: bool, body: Json)

  /** Why a list could not be read: the service answered with an error status
      (the message is the one thrown), or the body was `null`, which the
      destructuring `const { events } = ...` rejects with a TypeError. */
  datatype ApiError = RequestFailed(message: string) | NullBody

  /** The value of the member named `key`: the last one when a key repeats, as
      `JSON.parse` keeps the last. */
  function Member(members: seq<(string, Json)>, key: string): (r: Option<Json>)
    ensures r.None? <==> forall i :: 0 <= i < |members| ==> members[i].0 != key
    ensures r.Some? ==> (key, r.value) in members
  {
    if members == [] then None
    else
      var n := |members| - 1;
      if members[n].0 == key then Some(members[n].1)
      else Member(members[..n], key)
  }

  /** When a key repeats, the value read is the one written last. */
  lemma {:induction false} MemberLastWins(members: seq<(string, Json)>, key: string, v: Json, later: seq<(string, Json)>)
    requires forall i :: 0 <= i < |later| ==> later[i].0 != key
    ensures Member(members + [(key, v)] + later, key) == Some(v)
    decreases |later|
  {
    var all := members + [(key, v)] + later;
    if later == [] {
      assert all[|all| - 1] == (key, v);
    } else {
      var init := later[..|later| - 1];
      assert all[..|all| - 1] == members + [(key, v)] + init;
      MemberLastWins(members, key, v, init);
    }
  }

  /** The property `key` of a non-null value: a member of an object, and
      `undefined` (here: absent) for every other kind of value. */
  function Property(body: Json, key: string): Option<Json> {
    match body
    case JObj(members) => Member(members, key)
    case _ => None
  }

  /** The shared tail of `getEvents`, `listEvents` and `listEmployees`: fail on
      an error status, otherwise take the list under `key` when it is an array
      and the empty list when it is anything else or missing. */
  function ReadList(resp: Response, key: string, failure: string): (r: Result<seq<Json>, ApiError>)
    ensures !resp.ok ==> r == Err(RequestFailed(failure))
    ensures resp.ok && resp.body.JNull? ==> r == Err(NullBody)
    ensures r.Ok? <==> resp.ok && !resp.body.JNull?
  {
    if !resp.ok then Err(RequestFailed(failure))
    else if resp.body.JNull? then Err(NullBody)
    else
      match Property(resp.body, key)
      case Some(JArr(items)) => Ok(items)
      case _ => Ok([])
  }

  /** A successful read yields the array under the key when there is one, and
      the empty list exactly when the key is missing or holds something else. */
  lemma ReadListFallback(resp: Response, key: string, failure: string)
    requires resp.ok && !resp.body.JNull?
    ensures Property(resp.body, key).Some? && Property(resp.body, key).value.JArr? ==>
              ReadList(resp, key, failure) == Ok(Property(resp.body, key).value.items)
    ensures !(Property(resp.body, key).Some? && Property(resp.body, key).value.JArr?) ==>
              ReadList(resp, key, failure) == Ok([])
  {
  }

  /** Sending a list and reading it back gives the same list, whatever other
      members come before it. */
  lemma ReadListRoundTrip(before: seq<(string, Json)>, key: string, items: seq<Json>, failure: string)
    ensures ReadList(Response(true, JObj(before + [(key, JArr(items))])), key, failure) == Ok(items)
  {
    var members := before + [(key, JArr(items))];
    assert members[|members| - 1] == (key, JArr(items));
  }

  /** A member under another name added after the list does not change what is read. */
  lemma ReadListIgnoresOthers(members: seq<(string, Json)>, other: string, v: Json, key: string, failure: string)
    requires other != key
    ensures ReadList(Response(true, JObj(members + [(other, v)])), key, failure)
            == ReadList(Response(true, JObj(members)), key, failure)
  {
    var all := members + [(other, v)];
    assert all[..|all| - 1] == members;
  }

  const EventsFailure := "이벤트 조회 실패"
  const AllEventsFailure := "이벤트 전체 조회 실패"
  const EmployeesFailure := "직원 목록 조회 실패"

  /** `getEvents(startISO, endISO)`: the query it sends, and the list it returns
      for the service's answer. */
  function GetEvents(startISO: string, endISO: string, resp: Response): (r: (seq<(string, string)>, Result<seq<Json>, ApiError>))
    ensures r.0 == QueryParams(startISO, endISO)
    ensures Param(r.0, "start") == if startISO != "" then Some(startISO) else None
    ensures Param(r.0, "end") == if endISO != "" then Some(endISO) else None
    ensures r.1 == ReadList(resp, "events", EventsFailure)
    ensures r.1.Ok? <==> resp.ok && !resp.body.JNull?
  {
    QueryReadsBack(startISO, endISO);
    (QueryParams(startISO, endISO), ReadList(resp, "events", EventsFailure))
  }

  /** `listEvents()`: every event, under `events`, with its own failure message. */
  function ListEvents(resp: Response): (r: Result<seq<Json>, ApiError>)
    ensures !resp.ok ==> r == Err(RequestFailed(AllEventsFailure))
    ensures r.Ok? ==> r == ReadList(resp, "events", EventsFailure)
    ensures resp.ok ==> r == ReadList(resp, "events", EventsFailure)
    ensures r == ReadList(resp, "events", AllEventsFailure)
  {
    ReadList(resp, "events", AllEventsFailure)
  }

  /** `listEmployees()`: the directory, under `employees`. */
  function ListEmployees(resp: Response): (r: Result<seq<Json>, ApiError>)
    ensures !resp.ok ==> r == Err(RequestFailed(EmployeesFailure))
    ensures resp.ok && resp.body.JObj? && Member(resp.body.members, "employees").Some?
            && Member(resp.body.members, "employees").value.JArr? ==>
              r == Ok(Member(resp.body.members, "employees").value.items)
    ensures resp.ok && resp.body.JArr? ==> r == Ok([])
    ensures resp.ok && resp.body.JNull? ==> r == Err(NullBody)
    ensures resp.ok && resp.body.JObj?
            && !(Member(resp.body.members, "employees").Some? && Member(resp.body.members, "employees").value.JArr?)
            ==> r == Ok([])
    ensures r == ReadList(resp, "employees", EmployeesFailure)
  {
    ReadList(resp, "employees", EmployeesFailure)
  }
}

/** The read-only training viewer: per-employee progress folded over every
    event's enrolment and completion lists, the two organisation-wide
    percentages, the per-event view joined against the employee directory,
    the point lookup for one employee, and the title/location search. */
module Progress {
  import opened Common

  type EmpNo = string

  /** An event as the list shows it; title and location may be missing. */
  datatype ListedEvent = ListedEvent(id: string, title: Option<string>, start: string,
                                     end: Option<string>, allDay: bool, location: Option<string>)

  /** The enrolment and completion lists the mock keeps per event id. */
  datatype Membership = Membership(enrolledEmpNos: seq<EmpNo>, completedEmpNos: seq<EmpNo>)

  /** An event with its membership lists; a backend may leave either list out. */
  datatype EventDetail = EventDetail(event: ListedEvent, enrolledEmpNos: Option<seq<EmpNo>>,
                                     completedEmpNos: Option<seq<EmpNo>>)

  datatype Employee = Employee(empNo: EmpNo, name: string, dept: string)

  /** One employee's counters in the progress table. */
  datatype Counter = Counter(enrolled: nat, completed: nat)

  datatype Overall = Overall(totalAssigned: nat, totalCompleted: nat, overallPercent: int, avgPercent: int)

  /** The progress table, its keys in the order they were created, and the summary. */
  datatype GlobalProgress = GlobalProgress(byEmp: map<EmpNo, Counter>, keys: seq<EmpNo>, overall: Overall)

  datatype ProgressView = ProgressView(enrolled: seq<Employee>, completed: seq<Employee>,
                                       inProgress: seq<Employee>, progress: int)

  datatype PersonProgress = PersonProgress(enrolled: nat, completed: nat, pct: int)

  datatype FetchError = EventNotFound(id: string)

  // ---------------------------------------------------------------------------
  // The in-memory data source

  /** `events.find(x => x.id === id)`. */
  function FindEvent(events: seq<ListedEvent>, id: string): (r: Option<ListedEvent>)
    ensures r.None? <==> forall i :: 0 <= i < |events| ==> events[i].id != id
    ensures r.Some? ==> r.value in events && r.value.id == id
    ensures r.Some? ==> exists i :: 0 <= i < |events| && events[i] == r.value
                                    && forall j :: 0 <= j < i ==> events[j].id != id
  {
    if events == [] then None
    else if events[0].id == id then Some(events[0])
    else FindEvent(events[1..], id)
  }

  /** The mock `getEventDetail`: an unknown id fails; a known one gets the lists
      kept for it, or two empty lists when none are kept. */
  function MockEventDetail(events: seq<ListedEvent>, meta: map<string, Membership>, id: string)
    : (r: Result<EventDetail, FetchError>)
    ensures r.Err? <==> forall i :: 0 <= i < |events| ==> events[i].id != id
    ensures r.Err? ==> r.error == EventNotFound(id)
    ensures r.Ok? ==> r.value.event in events && r.value.event.id == id
    ensures r.Ok? && id in meta ==>
              r.value.enrolledEmpNos == Some(meta[id].enrolledEmpNos) && r.value.completedEmpNos == Some(meta[id].completedEmpNos)
    ensures r.Ok? && id !in meta ==> r.value.enrolledEmpNos == Some([]) && r.value.completedEmpNos == Some([])
  {
    match FindEvent(events, id)
    case None => Err(EventNotFound(id))
    case Some(ev) =>
      var m := if id in meta then meta[id] else Membership([], []);
      Ok(EventDetail(ev, Some(m.enrolledEmpNos), Some(m.completedEmpNos)))
  }

  // ---------------------------------------------------------------------------
  // What the progress fold reads

  /** `d.enrolledEmpNos || []` */
  function EnrolledOf(d: EventDetail): seq<EmpNo> {
    d.enrolledEmpNos.GetOr([])
  }

  /** `d.completedEmpNos || []` */
  function CompletedOf(d: EventDetail): seq<EmpNo> {
    d.completedEmpNos.GetOr([])
  }

  /** Every enrolment entry of every event, in event order, duplicates kept. */
  function EnrolledStream(ds: seq<EventDetail>): seq<EmpNo> {
    if ds == [] then [] else EnrolledStream(ds[..|ds| - 1]) + EnrolledOf(ds[|ds| - 1])
  }

  /** Every completion entry of every event, in event order, duplicates kept. */
  function CompletedStream(ds: seq<EventDetail>): seq<EmpNo> {
    if ds == [] then [] else CompletedStream(ds[..|ds| - 1]) + CompletedOf(ds[|ds| - 1])
  }

  /** The ids in the order the fold meets them: per event, its enrolled list, then its completed list. */
  function MemberStream(ds: seq<EventDetail>): seq<EmpNo> {
    if ds == [] then []
    else MemberStream(ds[..|ds| - 1]) + EnrolledOf(ds[|ds| - 1]) + CompletedOf(ds[|ds| - 1])
  }

  /** The sum of the enrolled lists' lengths. */
  function TotalAssigned(ds: seq<EventDetail>): nat {
    if ds == [] then 0 else TotalAssigned(ds[..|ds| - 1]) + |EnrolledOf(ds[|ds| - 1])|
  }

  /** The sum of the completed lists' lengths. */
  function TotalCompleted(ds: seq<EventDetail>): nat {
    if ds == [] then 0 else TotalCompleted(ds[..|ds| - 1]) + |CompletedOf(ds[|ds| - 1])|
  }

  /** The counters an employee should have: how often the id occurs across all
      enrolled lists, and across all completed lists. */
  function CounterOf(ds: seq<EventDetail>, no: EmpNo): Counter {
    Counter(multiset(EnrolledStream(ds))[no], multiset(CompletedStream(ds))[no])
  }

  // ---------------------------------------------------------------------------
  // The summary

  /** `Object.values(byEmp)`, listed in key order. */
  function Values(byEmp: map<EmpNo, Counter>, keys: seq<EmpNo>): (cs: seq<Counter>)
    requires forall k :: k in keys ==> k in byEmp
    ensures |cs| == |keys|
    ensures forall i :: 0 <= i < |keys| ==> cs[i] == byEmp[keys[i]]
  {
    seq(|keys|, i requires 0 <= i < |keys| => byEmp[keys[i]])
  }

  function SumEnrolled(cs: seq<Counter>): nat {
    if cs == [] then 0 else SumEnrolled(cs[..|cs| - 1]) + cs[|cs| - 1].enrolled
  }

  function SumCompleted(cs: seq<Counter>): nat {
    if cs == [] then 0 else SumCompleted(cs[..|cs| - 1]) + cs[|cs| - 1].completed
  }

  /** The employees that count for the average: those enrolled at least once. */
  predicate HasEnrolment(c: Counter) {
    c.enrolled > 0
  }

  function Qualifying(cs: seq<Counter>): seq<Counter> {
    Filter(cs, HasEnrolment)
  }

  /** `empPerc.reduce((a, b) => a + b, 0)`: the sum of the completed/enrolled ratios, exactly. */
  function RatioSum(cs: seq<Counter>): (r: real)
    requires forall i :: 0 <= i < |cs| ==> cs[i].enrolled > 0
    ensures r >= 0.0
    ensures (forall i :: 0 <= i < |cs| ==> cs[i].completed <= cs[i].enrolled) ==> r <= |cs| as real
  {
    if cs == [] then 0.0
    else
      var c := cs[|cs| - 1];
      var ratio := c.completed as real / c.enrolled as real;
      QuotientBounds(c.completed as real, c.enrolled as real);
      RatioSum(cs[..|cs| - 1]) + ratio
  }

  /** A quotient of a non-negative value by a positive one is non-negative, and
      at most 1 when the value does not exceed the divisor. */
  lemma QuotientBounds(a: real, n: real)
    requires n > 0.0 && a >= 0.0
    ensures a / n >= 0.0
    ensures a <= n ==> a / n <= 1.0
  {
    var q := a / n;
    assert q * n == a;
  }

  /** The unweighted per-employee average: the mean of completed/enrolled over the
      qualifying employees, as a rounded percentage; 0 when nobody qualifies. */
  function AvgPercent(cs: seq<Counter>): (r: int)
    ensures Qualifying(cs) == [] ==> r == 0
    ensures r >= 0
    ensures (forall i :: 0 <= i < |cs| ==> cs[i].completed <= cs[i].enrolled) ==> r <= 100
  {
    var q := Qualifying(cs);
    if |q| == 0 then 0
    else
      var sum := RatioSum(q);
      assert (forall i :: 0 <= i < |cs| ==> cs[i].completed <= cs[i].enrolled) ==> sum <= |q| as real by {
        if forall i :: 0 <= i < |cs| ==> cs[i].completed <= cs[i].enrolled {
          forall i | 0 <= i < |q| ensures q[i].completed <= q[i].enrolled {
            assert q[i] in cs;
            var j :| 0 <= j < |cs| && cs[j] == q[i];
          }
        }
      }
      QuotientBounds(sum, |q| as real);
      Round(sum / |q| as real * 100.0)
  }

  /** The overall rate: completed entries over assigned entries, as a rounded
      percentage; 0 when nothing is assigned. */
  function OverallPercent(totalAssigned: nat, totalCompleted: nat): (r: int)
    ensures totalAssigned == 0 ==> r == 0
    ensures r >= 0
    ensures totalCompleted <= totalAssigned ==> r <= 100
    ensures totalAssigned > 0 && totalCompleted == totalAssigned ==> r == 100
  {
    if totalAssigned == 0 then 0 else Percent(totalCompleted, totalAssigned)
  }

  // ---------------------------------------------------------------------------
  // The fold

  /** Which counter a list of ids bumps. */
  datatype Role = Enrolment | Completion

  /** The table's keys, and their creation order, after meeting the ids `ms`. */
  ghost predicate KeysFollow(byEmp: map<EmpNo, Counter>, keys: seq<EmpNo>, ms: seq<EmpNo>) {
    keys == FirstSeen(ms) && forall no :: no in byEmp <==> no in ms
  }

  /** The counters after counting the enrolment entries `es` and the completion entries `cs`. */
  ghost predicate CountsFollow(byEmp: map<EmpNo, Counter>, es: seq<EmpNo>, cs: seq<EmpNo>) {
    && (forall no :: no in byEmp ==> byEmp[no] == Counter(multiset(es)[no], multiset(cs)[no]))
    && (forall no :: no !in byEmp ==> multiset(es)[no] == 0 && multiset(cs)[no] == 0)
  }

  ghost predicate Tallied(byEmp: map<EmpNo, Counter>, keys: seq<EmpNo>, ms: seq<EmpNo>, es: seq<EmpNo>, cs: seq<EmpNo>) {
    KeysFollow(byEmp, keys, ms) && CountsFollow(byEmp, es, cs)
  }

  /** `byEmp[no].enrolled++` or `byEmp[no].completed++`. */
  function Bump(c: Counter, role: Role): Counter {
    match role
    case Enrolment => c.(enrolled := c.enrolled + 1)
    case Completion => c.(completed := c.completed + 1)
  }

  /** The entries counted after one more id of `role`. */
  function Counted(s: seq<EmpNo>, no: EmpNo, counted: bool): seq<EmpNo> {
    if counted then s + [no] else s
  }

  /** The progress table and the order its keys were created in. */
  datatype Table = Table(byEmp: map<EmpNo, Counter>, keys: seq<EmpNo>)

  /** Meeting `no` in a list of `role`: its counter is created at zero on first
      sight (`byEmp[no] ??= ...`), then bumped. */
  function Meet(t: Table, no: EmpNo, role: Role): Table {
    var c := if no in t.byEmp then t.byEmp[no] else Counter(0, 0);
    Table(t.byEmp[no := Bump(c, role)], if no in t.byEmp then t.keys else t.keys + [no])
  }

  /** Meeting every id of `ids`, in order. */
  function MeetAll(t: Table, ids: seq<EmpNo>, role: Role): Table {
    if ids == [] then t else Meet(MeetAll(t, ids[..|ids| - 1], role), ids[|ids| - 1], role)
  }

  lemma KeysStep(t: Table, no: EmpNo, role: Role, ms: seq<EmpNo>)
    requires KeysFollow(t.byEmp, t.keys, ms)
    ensures KeysFollow(Meet(t, no, role).byEmp, Meet(t, no, role).keys, ms + [no])
  {
    FirstSeenSnoc(ms, no);
    assert forall x :: x in ms + [no] <==> x in ms || x == no;
  }

  lemma CountsStep(t: Table, no: EmpNo, role: Role, es: seq<EmpNo>, cs: seq<EmpNo>)
    requires CountsFollow(t.byEmp, es, cs)
    ensures CountsFollow(Meet(t, no, role).byEmp, Counted(es, no, role == Enrolment), Counted(cs, no, role == Completion))
  {
    var b := Meet(t, no, role).byEmp;
    var es2, cs2 := Counted(es, no, role == Enrolment), Counted(cs, no, role == Completion);
    assert multiset(es2) == if role == Enrolment then multiset(es) + multiset{no} else multiset(es);
    assert multiset(cs2) == if role == Completion then multiset(cs) + multiset{no} else multiset(cs);
    forall x | x in b ensures b[x] == Counter(multiset(es2)[x], multiset(cs2)[x]) {
      if x != no {
        assert b[x] == t.byEmp[x];
      }
    }
    forall x | x !in b ensures multiset(es2)[x] == 0 && multiset(cs2)[x] == 0 {
      assert x != no && x !in t.byEmp;
    }
  }

  /** Meeting a list keeps the key order in step with the ids met. */
  lemma {:induction false} MeetAllKeys(t: Table, ids: seq<EmpNo>, role: Role, ms: seq<EmpNo>)
    requires KeysFollow(t.byEmp, t.keys, ms)
    ensures KeysFollow(MeetAll(t, ids, role).byEmp, MeetAll(t, ids, role).keys, ms + ids)
  {
    if ids == [] {
      assert ms + ids == ms;
    } else {
      var init, no := ids[..|ids| - 1], ids[|ids| - 1];
      MeetAllKeys(t, init, role, ms);
      KeysStep(MeetAll(t, init, role), no, role, ms + init);
      assert ms + ids == (ms + init) + [no];
    }
  }

  /** Meeting a list keeps the counters in step with the entries counted. */
  lemma {:induction false} MeetAllCounts(t: Table, ids: seq<EmpNo>, role: Role, es: seq<EmpNo>, cs: seq<EmpNo>)
    requires CountsFollow(t.byEmp, es, cs)
    ensures CountsFollow(MeetAll(t, ids, role).byEmp,
                         if role == Enrolment then es + ids else es,
                         if role == Completion then cs + ids else cs)
  {
    if ids == [] {
      assert es + ids == es && cs + ids == cs;
    } else {
      var init, no := ids[..|ids| - 1], ids[|ids| - 1];
      MeetAllCounts(t, init, role, es, cs);
      assert ids == init + [no];
      if role == Enrolment {
        CountsStep(MeetAll(t, init, role), no, role, es + init, cs);
        assert es + ids == (es + init) + [no];
      } else {
        CountsStep(MeetAll(t, init, role), no, role, es, cs + init);
        assert cs + ids == (cs + init) + [no];
      }
    }
  }

  /** One inner loop of the fold: every id of `ids` met in order. */
  method Tally(t: Table, ids: seq<EmpNo>, role: Role) returns (t': Table)
    ensures t' == MeetAll(t, ids, role)
  {
    t' := t;
    for j := 0 to |ids|
      invariant t' == MeetAll(t, ids[..j], role)
    {
      var no := ids[j];
      PrefixSnoc(ids, j);
      assert ids[..j + 1][..j] == ids[..j];
      var c := if no in t'.byEmp then t'.byEmp[no] else Counter(0, 0);
      if no !in t'.byEmp {
        t' := t'.(keys := t'.keys + [no]);
      }
      t' := t'.(byEmp := t'.byEmp[no := Bump(c, role)]);
    }
    assert ids[..|ids|] == ids;
  }

  /** `buildGlobalProgress` once every detail has arrived: one pass over the
      details that creates a zero counter for an id on first sight, bumps its
      enrolled or completed counter per occurrence, and adds up the list lengths. */
  method BuildGlobalProgress(ds: seq<EventDetail>) returns (g: GlobalProgress)
    ensures g.keys == FirstSeen(MemberStream(ds))
    ensures forall no :: no in g.byEmp <==> no in MemberStream(ds)
    ensures forall no :: no in g.byEmp ==> g.byEmp[no] == CounterOf(ds, no)
    ensures g.overall.totalAssigned == TotalAssigned(ds)
    ensures g.overall.totalCompleted == TotalCompleted(ds)
    ensures SumEnrolled(Values(g.byEmp, g.keys)) == g.overall.totalAssigned
    ensures SumCompleted(Values(g.byEmp, g.keys)) == g.overall.totalCompleted
    ensures g.overall.overallPercent == OverallPercent(g.overall.totalAssigned, g.overall.totalCompleted)
    ensures g.overall.avgPercent == AvgPercent(Values(g.byEmp, g.keys))
  {
    var t := Table(map[], []);
    var totalAssigned, totalCompleted := 0, 0;
    for i := 0 to |ds|
      invariant Tallied(t.byEmp, t.keys, MemberStream(ds[..i]), EnrolledStream(ds[..i]), CompletedStream(ds[..i]))
      invariant totalAssigned == TotalAssigned(ds[..i])
      invariant totalCompleted == TotalCompleted(ds[..i])
    {
      assert ds[..i + 1][..i] == ds[..i] && ds[..i + 1][i] == ds[i];
      var en, co := EnrolledOf(ds[i]), CompletedOf(ds[i]);
      totalAssigned, totalCompleted := totalAssigned + |en|, totalCompleted + |co|;
      ghost var ms, es, cs := MemberStream(ds[..i]), EnrolledStream(ds[..i]), CompletedStream(ds[..i]);
      MeetAllKeys(t, en, Enrolment, ms);
      MeetAllCounts(t, en, Enrolment, es, cs);
      t := Tally(t, en, Enrolment);
      MeetAllKeys(t, co, Completion, ms + en);
      MeetAllCounts(t, co, Completion, es + en, cs);
      t := Tally(t, co, Completion);
    }
    assert ds[..|ds|] == ds;
    CountersSumToTotals(ds, t.byEmp, t.keys);
    var overallPercent := OverallPercent(totalAssigned, totalCompleted);
    var avgPercent := AvgPercent(Values(t.byEmp, t.keys));
    g := GlobalProgress(t.byEmp, t.keys, Overall(totalAssigned, totalCompleted, overallPercent, avgPercent));
  }

  lemma PrefixSnoc(s: seq<EmpNo>, j: int)
    requires 0 <= j < |s|
    ensures s[..j + 1] == s[..j] + [s[j]]
  {
  }

  // ---------------------------------------------------------------------------
  // Properties of the fold

  /** Every enrolled or completed id is one of the ids the fold meets. */
  lemma {:induction false} StreamsInMembers(ds: seq<EventDetail>)
    ensures forall x :: x in EnrolledStream(ds) ==> x in MemberStream(ds)
    ensures forall x :: x in CompletedStream(ds) ==> x in MemberStream(ds)
  {
    if ds != [] {
      StreamsInMembers(ds[..|ds| - 1]);
    }
  }

  /** The streams are as long as the totals say. */
  lemma {:induction false} StreamLengths(ds: seq<EventDetail>)
    ensures |EnrolledStream(ds)| == TotalAssigned(ds)
    ensures |CompletedStream(ds)| == TotalCompleted(ds)
  {
    if ds != [] {
      StreamLengths(ds[..|ds| - 1]);
    }
  }

  /** The multiplicities in `m` of the ids in `keys`, added up. */
  function OccSum(keys: seq<EmpNo>, m: multiset<EmpNo>): nat {
    if keys == [] then 0 else OccSum(keys[..|keys| - 1], m) + m[keys[|keys| - 1]]
  }

  lemma {:induction false} OccSumAdd(keys: seq<EmpNo>, a: multiset<EmpNo>, b: multiset<EmpNo>)
    ensures OccSum(keys, a + b) == OccSum(keys, a) + OccSum(keys, b)
  {
    if keys != [] {
      OccSumAdd(keys[..|keys| - 1], a, b);
    }
  }

  lemma {:induction false} OccSumSingle(keys: seq<EmpNo>, x: EmpNo)
    requires Distinct(keys)
    ensures OccSum(keys, multiset{x}) == if x in keys then 1 else 0
  {
    if keys != [] {
      var init := keys[..|keys| - 1];
      assert Distinct(init);
      OccSumSingle(init, x);
      assert x in keys <==> x in init || x == keys[|keys| - 1];
    }
  }

  /** Adding up, over distinct keys that cover a list, how often each key occurs
      gives the list's length. */
  lemma {:induction false} OccSumCovers(keys: seq<EmpNo>, s: seq<EmpNo>)
    requires Distinct(keys)
    requires forall x :: x in s ==> x in keys
    ensures OccSum(keys, multiset(s)) == |s|
  {
    if s == [] {
      OccSumZero(keys);
    } else {
      var init, x := s[..|s| - 1], s[|s| - 1];
      assert s == init + [x];
      OccSumCovers(keys, init);
      OccSumAdd(keys, multiset(init), multiset{x});
      OccSumSingle(keys, x);
    }
  }

  lemma {:induction false} OccSumZero(keys: seq<EmpNo>)
    ensures OccSum(keys, multiset{}) == 0
  {
    if keys != [] {
      OccSumZero(keys[..|keys| - 1]);
    }
  }

  lemma {:induction false} SumsAreOccSums(ds: seq<EventDetail>, byEmp: map<EmpNo, Counter>, keys: seq<EmpNo>)
    requires forall k :: k in keys ==> k in byEmp && byEmp[k] == CounterOf(ds, k)
    ensures SumEnrolled(Values(byEmp, keys)) == OccSum(keys, multiset(EnrolledStream(ds)))
    ensures SumCompleted(Values(byEmp, keys)) == OccSum(keys, multiset(CompletedStream(ds)))
  {
    if keys != [] {
      var init := keys[..|keys| - 1];
      assert Values(byEmp, keys)[..|keys| - 1] == Values(byEmp, init);
      SumsAreOccSums(ds, byEmp, init);
    }
  }

  /** The counters add up to the two totals: every enrolment and every completion
      entry, duplicates included, lands in exactly one employee's counter. */
  lemma CountersSumToTotals(ds: seq<EventDetail>, byEmp: map<EmpNo, Counter>, keys: seq<EmpNo>)
    requires keys == FirstSeen(MemberStream(ds))
    requires forall k :: k in keys ==> k in byEmp && byEmp[k] == CounterOf(ds, k)
    ensures SumEnrolled(Values(byEmp, keys)) == TotalAssigned(ds)
    ensures SumCompleted(Values(byEmp, keys)) == TotalCompleted(ds)
  {
    SumsAreOccSums(ds, byEmp, keys);
    StreamsInMembers(ds);
    StreamLengths(ds);
    OccSumCovers(keys, EnrolledStream(ds));
    OccSumCovers(keys, CompletedStream(ds));
  }

  /** An id that only ever appears in completed lists still gets a counter, with
      nothing enrolled and its completions counted. */
  lemma CompletionOnlyTolerated(ds: seq<EventDetail>, no: EmpNo)
    requires no in CompletedStream(ds) && no !in EnrolledStream(ds)
    ensures no in MemberStream(ds)
    ensures CounterOf(ds, no).enrolled == 0 && CounterOf(ds, no).completed > 0
  {
    StreamsInMembers(ds);
  }

  /** A detail is consistent when its completed list is a sub-multiset of its enrolled list. */
  predicate Consistent(d: EventDetail) {
    multiset(CompletedOf(d)) <= multiset(EnrolledOf(d))
  }

  /** On consistent details nobody has more completions than enrolments, and
      there are no more completion entries than enrolment entries. */
  lemma {:induction false} ConsistentCounters(ds: seq<EventDetail>)
    requires forall i :: 0 <= i < |ds| ==> Consistent(ds[i])
    ensures multiset(CompletedStream(ds)) <= multiset(EnrolledStream(ds))
    ensures forall no :: CounterOf(ds, no).completed <= CounterOf(ds, no).enrolled
    ensures TotalCompleted(ds) <= TotalAssigned(ds)
  {
    if ds != [] {
      ConsistentCounters(ds[..|ds| - 1]);
      assert Consistent(ds[|ds| - 1]);
    }
    StreamLengths(ds);
    var a, b := multiset(CompletedStream(ds)), multiset(EnrolledStream(ds));
    assert b == a + (b - a);
  }

  /** On consistent details both summary percentages lie in [0, 100]. */
  lemma ConsistentPercentsInRange(ds: seq<EventDetail>, byEmp: map<EmpNo, Counter>, keys: seq<EmpNo>)
    requires forall i :: 0 <= i < |ds| ==> Consistent(ds[i])
    requires forall k :: k in keys ==> k in byEmp && byEmp[k] == CounterOf(ds, k)
    ensures 0 <= OverallPercent(TotalAssigned(ds), TotalCompleted(ds)) <= 100
    ensures 0 <= AvgPercent(Values(byEmp, keys)) <= 100
  {
    ConsistentCounters(ds);
    var cs := Values(byEmp, keys);
    forall i | 0 <= i < |cs| ensures cs[i].completed <= cs[i].enrolled {
      assert cs[i] == CounterOf(ds, keys[i]);
    }
  }

  /** Employees with nothing enrolled do not move the average: it is taken over
      the qualifying employees only. */
  lemma AvgOverQualifyingOnly(cs: seq<Counter>)
    ensures AvgPercent(cs) == AvgPercent(Qualifying(cs))
  {
    FilterAll(Qualifying(cs), HasEnrolment);
  }

  /** Adding a completion-only employee to the table leaves the average alone. */
  lemma AvgIgnoresUnenrolled(cs: seq<Counter>, completed: nat)
    ensures AvgPercent(cs + [Counter(0, completed)]) == AvgPercent(cs)
  {
    var c0 := Counter(0, completed);
    FilterAppend(cs, [c0], HasEnrolment);
    assert [c0][1..] == [];
    assert Filter([c0], HasEnrolment) == [];
    assert Qualifying(cs + [c0]) == Qualifying(cs);
  }

  /** Two events; A enrolled in both and done with one: A's counter is 2
      enrolled, 1 completed, and so are the totals. */
  lemma TwoEventsOneEmployee(ev1: ListedEvent, ev2: ListedEvent)
    ensures var ds := [EventDetail(ev1, Some(["A"]), Some(["A"])), EventDetail(ev2, Some(["A"]), Some([]))];
            && CounterOf(ds, "A") == Counter(2, 1)
            && TotalAssigned(ds) == 2 && TotalCompleted(ds) == 1
  {
    var ds := [EventDetail(ev1, Some(["A"]), Some(["A"])), EventDetail(ev2, Some(["A"]), Some([]))];
    assert ds[..1] == [ds[0]] && ds[..1][..0] == [];
    assert EnrolledStream(ds[..1]) == ["A"] && CompletedStream(ds[..1]) == ["A"];
    assert TotalAssigned(ds[..1]) == 1 && TotalCompleted(ds[..1]) == 1;
    assert EnrolledStream(ds) == ["A", "A"];
    assert CompletedStream(ds) == ["A"];
  }

  /** With one of two assignments done, both summary percentages are 50. */
  lemma HalfDoneIsFifty()
    ensures OverallPercent(2, 1) == 50
    ensures AvgPercent([Counter(2, 1)]) == 50
  {
    assert Qualifying([Counter(2, 1)]) == [Counter(2, 1)];
  }

  // ---------------------------------------------------------------------------
  // The per-employee lookup

  /** `personProgress`: the employee's counters and their rounded ratio; an id
      missing from the table reads as zero everywhere. */
  function PersonProgressOf(byEmp: map<EmpNo, Counter>, no: EmpNo): (r: PersonProgress)
    ensures no !in byEmp ==> r == PersonProgress(0, 0, 0)
    ensures no in byEmp ==> r.enrolled == byEmp[no].enrolled && r.completed == byEmp[no].completed
    ensures r.enrolled == 0 ==> r.pct == 0
    ensures r.enrolled > 0 ==> r.pct == Percent(r.completed, r.enrolled)
    ensures r.completed <= r.enrolled ==> 0 <= r.pct <= 100
  {
    var c := if no in byEmp then byEmp[no] else Counter(0, 0);
    var pct := if c.enrolled > 0 then Percent(c.completed, c.enrolled) else 0;
    PersonProgress(c.enrolled, c.completed, pct)
  }

  /** Over a table built from `ds`, the lookup reports the id's occurrence counts
      whether or not the id was ever seen. */
  lemma PersonProgressCounts(ds: seq<EventDetail>, byEmp: map<EmpNo, Counter>, no: EmpNo)
    requires forall k :: k in byEmp <==> k in MemberStream(ds)
    requires forall k :: k in byEmp ==> byEmp[k] == CounterOf(ds, k)
    ensures PersonProgressOf(byEmp, no).enrolled == multiset(EnrolledStream(ds))[no]
    ensures PersonProgressOf(byEmp, no).completed == multiset(CompletedStream(ds))[no]
  {
    StreamsInMembers(ds);
  }

  // ---------------------------------------------------------------------------
  // The per-event view

  function EmpNos(employees: seq<Employee>): seq<EmpNo> {
    seq(|employees|, i requires 0 <= i < |employees| => employees[i].empNo)
  }

  /** `employees[i]` is the last directory entry with id `no`. */
  predicate LastWith(employees: seq<Employee>, no: EmpNo, i: int) {
    0 <= i < |employees| && employees[i].empNo == no
    && forall j :: i < j < |employees| ==> employees[j].empNo != no
  }

  /** `Object.fromEntries(employees.map(e => [e.empNo, e]))`: each id maps to the
      last employee carrying it. */
  function Directory(employees: seq<Employee>): (dir: map<EmpNo, Employee>)
    ensures forall no :: no in dir <==> no in EmpNos(employees)
    ensures forall no :: no in dir ==> dir[no].empNo == no
    ensures forall no :: no in dir ==> exists i :: LastWith(employees, no, i) && dir[no] == employees[i]
  {
    var nos := EmpNos(employees);
    var idx := LastIndex(nos);
    var dir := map no | no in idx :: employees[idx[no]];
    assert forall j :: 0 <= j < |employees| ==> nos[j] == employees[j].empNo;
    forall no | no in dir ensures LastWith(employees, no, idx[no]) {
      assert nos[idx[no]] == no;
    }
    dir
  }

  /** `empMap[no] || {empNo: no, name: "-", dept: ""}` */
  function Resolve(dir: map<EmpNo, Employee>, no: EmpNo): Employee {
    if no in dir then dir[no] else Employee(no, "-", "")
  }

  function ResolveAll(dir: map<EmpNo, Employee>, nos: seq<EmpNo>): seq<Employee> {
    seq(|nos|, i requires 0 <= i < |nos| => Resolve(dir, nos[i]))
  }

  function Ids(es: seq<Employee>): seq<EmpNo> {
    seq(|es|, i requires 0 <= i < |es| => es[i].empNo)
  }

  /** `e => !completedNos.includes(e.empNo)` */
  function NotCompleted(done: seq<EmpNo>): Employee -> bool {
    (e: Employee) => e.empNo !in done
  }

  /** The same test on a raw id. */
  function NotIn(done: seq<EmpNo>): EmpNo -> bool {
    (no: EmpNo) => no !in done
  }

  /** Resolving keeps every id, in order, against a directory keyed by id. */
  lemma {:induction false} ResolvedIds(dir: map<EmpNo, Employee>, nos: seq<EmpNo>)
    requires forall no :: no in dir ==> dir[no].empNo == no
    ensures Ids(ResolveAll(dir, nos)) == nos
  {
    var r := ResolveAll(dir, nos);
    forall i | 0 <= i < |nos| ensures Ids(r)[i] == nos[i] {
      assert r[i] == Resolve(dir, nos[i]);
    }
  }

  /** The `detailView` of one fetched detail: both id lists resolved in order,
      the enrolled employees not in the completed id list, and the event's
      completion percentage. */
  function ViewOf(d: EventDetail, employees: seq<Employee>): (v: ProgressView)
    ensures v.enrolled == ResolveAll(Directory(employees), EnrolledOf(d))
    ensures v.completed == ResolveAll(Directory(employees), CompletedOf(d))
    ensures Ids(v.enrolled) == EnrolledOf(d) && Ids(v.completed) == CompletedOf(d)
    ensures forall e :: e in v.inProgress <==> e in v.enrolled && e.empNo !in CompletedOf(d)
    ensures |v.enrolled| == 0 ==> v.progress == 0
    ensures |v.enrolled| > 0 ==> v.progress == Percent(|v.completed|, |v.enrolled|)
    ensures |v.completed| <= |v.enrolled| ==> 0 <= v.progress <= 100
  {
    var dir := Directory(employees);
    var enrolled := ResolveAll(dir, EnrolledOf(d));
    var completed := ResolveAll(dir, CompletedOf(d));
    ResolvedIds(dir, EnrolledOf(d));
    ResolvedIds(dir, CompletedOf(d));
    var inProgress := Filter(enrolled, NotCompleted(CompletedOf(d)));
    var progress := if |enrolled| > 0 then Percent(|completed|, |enrolled|) else 0;
    ProgressView(enrolled, completed, inProgress, progress)
  }

  /** Resolving against the directory: a known id yields an employee from the
      directory, an unknown one the placeholder with name "-" and no department. */
  lemma {:induction false} ResolveAgainstDirectory(employees: seq<Employee>, nos: seq<EmpNo>)
    ensures forall i :: 0 <= i < |nos| && nos[i] !in EmpNos(employees) ==>
              ResolveAll(Directory(employees), nos)[i] == Employee(nos[i], "-", "")
    ensures forall i :: 0 <= i < |nos| && nos[i] in EmpNos(employees) ==>
              ResolveAll(Directory(employees), nos)[i] in employees
  {
    var dir := Directory(employees);
    forall i | 0 <= i < |nos| && nos[i] in EmpNos(employees)
      ensures ResolveAll(dir, nos)[i] in employees
    {
      var k :| LastWith(employees, nos[i], k) && dir[nos[i]] == employees[k];
    }
  }

  /** `detailView`: nothing before a detail has arrived. */
  function DetailView(detail: Option<EventDetail>, employees: seq<Employee>): (r: Option<ProgressView>)
    ensures r.None? <==> detail.None?
    ensures r.Some? ==> r.value == ViewOf(detail.value, employees)
    ensures r.Some? ==> Ids(r.value.enrolled) == EnrolledOf(detail.value)
                        && Ids(r.value.completed) == CompletedOf(detail.value)
  {
    match detail
    case None => None
    case Some(d) => Some(ViewOf(d, employees))
  }

  lemma {:induction false} FilterResolved(dir: map<EmpNo, Employee>, nos: seq<EmpNo>, done: seq<EmpNo>)
    requires forall no :: no in dir ==> dir[no].empNo == no
    ensures Filter(ResolveAll(dir, nos), NotCompleted(done)) == ResolveAll(dir, Filter(nos, NotIn(done)))
  {
    if nos != [] {
      var all := ResolveAll(dir, nos);
      var rest := Filter(nos[1..], NotIn(done));
      ResolveAllCons(dir, nos);
      FilterResolved(dir, nos[1..], done);
      if nos[0] in done {
        assert Filter(all, NotCompleted(done)) == Filter(all[1..], NotCompleted(done));
        assert Filter(nos, NotIn(done)) == rest;
      } else {
        assert Filter(all, NotCompleted(done)) == [all[0]] + Filter(all[1..], NotCompleted(done));
        assert Filter(nos, NotIn(done)) == [nos[0]] + rest;
        ResolveAllCons(dir, [nos[0]] + rest);
        assert ([nos[0]] + rest)[1..] == rest;
      }
    }
  }

  lemma ResolveAllCons(dir: map<EmpNo, Employee>, nos: seq<EmpNo>)
    requires forall no :: no in dir ==> dir[no].empNo == no
    requires nos != []
    ensures ResolveAll(dir, nos) == [Resolve(dir, nos[0])] + ResolveAll(dir, nos[1..])
    ensures ResolveAll(dir, nos)[0].empNo == nos[0]
  {
    assert ResolveAll(dir, nos)[1..] == ResolveAll(dir, nos[1..]);
  }

  /** The in-progress list is decided on raw ids: it is the enrolled ids not in
      the completed list, resolved, in enrolment order. */
  lemma InProgressByRawId(d: EventDetail, employees: seq<Employee>)
    ensures ViewOf(d, employees).inProgress
            == ResolveAll(Directory(employees), Filter(EnrolledOf(d), NotIn(CompletedOf(d))))
  {
    FilterResolved(Directory(employees), EnrolledOf(d), CompletedOf(d));
  }

  /** In-progress and completed share no id, and when every completed id is
      enrolled their ids together are exactly the enrolled ids. */
  lemma InProgressPartition(d: EventDetail, employees: seq<Employee>)
    ensures forall no :: !(no in Ids(ViewOf(d, employees).inProgress) && no in Ids(ViewOf(d, employees).completed))
    ensures (forall no :: no in CompletedOf(d) ==> no in EnrolledOf(d)) ==>
              forall no :: no in EnrolledOf(d) <==>
                no in Ids(ViewOf(d, employees).inProgress) || no in Ids(ViewOf(d, employees).completed)
  {
    var kept := Filter(EnrolledOf(d), NotIn(CompletedOf(d)));
    InProgressByRawId(d, employees);
    ResolvedIds(Directory(employees), kept);
  }

  /** One event, A and B enrolled, A done: the event is at 50%, B is in progress. */
  lemma OneEventHalfDone(ev: ListedEvent)
    ensures var v := ViewOf(EventDetail(ev, Some(["A", "B"]), Some(["A"])), []);
            && v.progress == 50
            && v.inProgress == [Employee("B", "-", "")]
            && v.completed == [Employee("A", "-", "")]
  {
    var v := ViewOf(EventDetail(ev, Some(["A", "B"]), Some(["A"])), []);
    assert v.enrolled == [Employee("A", "-", ""), Employee("B", "-", "")];
    assert v.enrolled[1..] == [Employee("B", "-", "")];
  }

  // ---------------------------------------------------------------------------
  // The list search

  /** `(ev.title || "").includes(k) || (ev.location || "").includes(k)` */
  predicate Matches(ev: ListedEvent, k: string) {
    Contains(ev.title.GetOr(""), k) || Contains(ev.location.GetOr(""), k)
  }

  function MatchesQuery(k: string): ListedEvent -> bool {
    (ev: ListedEvent) => Matches(ev, k)
  }

  /** `filtered`: the whole list for a blank query, otherwise the events whose
      title or location contains the trimmed query. */
  function Search(list: seq<ListedEvent>, q: string): (r: seq<ListedEvent>)
    ensures AllSpace(q) ==> r == list
    ensures !AllSpace(q) ==> forall ev :: ev in r <==> ev in list && Matches(ev, Trim(q))
    ensures |r| <= |list|
  {
    var k := Trim(q);
    if k == [] then list else Filter(list, MatchesQuery(k))
  }

  /** The search keeps the list's order: searching a concatenation is
      concatenating the searches. */
  lemma SearchKeepsOrder(a: seq<ListedEvent>, b: seq<ListedEvent>, q: string)
    ensures Search(a + b, q) == Search(a, q) + Search(b, q)
  {
    var k := Trim(q);
    if k != [] {
      FilterAppend(a, b, MatchesQuery(k));
    }
  }
}

/** The employee roster import: a parsed sheet (header row, then data rows of
    text cells) becomes a list of employee rows and a list of problems. */
module Roster {
  import opened Common

  /** One sheet row, as text cells. */
  type SheetRow = seq<string>

  /** A formatted employee row: five trimmed fields. */
  datatype Row = Row(empNo: string, name: string, dept: string, phone: string, email: string)

  /** A problem the import reports; `line` is the row's position among the
      kept (non-blank) rows plus 2, so it matches the sheet line only when no
      blank row comes before it. */
  datatype ImportError =
    | ColumnsMissing(columns: seq<string>)
    | RequiredMissing(line: int)
    | BadEmail(line: int)
    | BadPhone(line: int)

  /** What loading a sheet leaves behind: nothing, when the sheet has no rows at
      all and the handler fails before touching the state; otherwise the
      problems and the rows. */
  datatype ImportOutcome = Crashed | Imported(errors: seq<ImportError>, rows: seq<Row>)

  // ---------------------------------------------------------------------------
  // Headers

  /** `headerMap[t]`: the field a trimmed header text stands for, if it is one
      of the recognised aliases. */
  function HeaderField(t: string): (r: Option<string>)
    ensures r.Some? ==> r.value in FieldNames && |r.value| >= 4
  {
    if t == "사번" || t == "사원번호" || t == "번호" then Some("empNo")
    else if t == "이름" || t == "성명" then Some("name")
    else if t == "부서" || t == "부서명" then Some("dept")
    else if t == "연락처" || t == "전화번호" || t == "휴대폰" then Some("phone")
    else if t == "이메일" || t == "메일" then Some("email")
    else None
  }

  /** The names of the five fields of a row. */
  const FieldNames: set<string> := {"empNo", "name", "dept", "phone", "email"}

  /** `required`: the columns a sheet must have. */
  const Required: seq<string> := ["empNo", "name"]

  /** `headerMap[h.trim()] || h.trim()`: the trimmed header, replaced by its field
      name when it is an alias (every field name is non-empty, so `||` never
      falls through for an alias). */
  function NormalizeHeader(h: string): (r: string)
    ensures HeaderField(Trim(h)).Some? ==> r == HeaderField(Trim(h)).value
    ensures HeaderField(Trim(h)).None? ==> r == Trim(h)
  {
    var t := Trim(h);
    match HeaderField(t)
    case Some(f) => if f != "" then f else t
    case None => t
  }

  /** Normalising a normalised header changes nothing. */
  lemma NormalizeIdempotent(h: string)
    ensures NormalizeHeader(NormalizeHeader(h)) == NormalizeHeader(h)
  {
    var t := Trim(h);
    TrimIdempotent(h);
    if HeaderField(t).Some? {
      FieldNamesFixed(t);
    }
  }

  /** A field name an alias stands for is trimmed and is not itself an alias. */
  lemma FieldNamesFixed(t: string)
    requires HeaderField(t).Some?
    ensures Trim(HeaderField(t).value) == HeaderField(t).value
    ensures HeaderField(HeaderField(t).value).None?
  {
    if HeaderField(t) == Some("empNo") {
      NotAnAlias("empNo");
    } else if HeaderField(t) == Some("name") {
      NotAnAlias("name");
    } else if HeaderField(t) == Some("dept") {
      NotAnAlias("dept");
    } else if HeaderField(t) == Some("phone") {
      NotAnAlias("phone");
    } else {
      NotAnAlias("email");
    }
  }

  /** A header made only of ASCII letters is no alias and is trimmed already. */
  lemma NotAnAlias(f: string)
    requires f != [] && forall k :: 0 <= k < |f| ==> 'a' <= f[k] <= 'z' || 'A' <= f[k] <= 'Z'
    ensures Trim(f) == f
    ensures HeaderField(f).None?
  {
    TrimFixed(f);
    AsciiNotAlias(f);
  }

  /** Every alias starts with a Hangul syllable, so nothing starting with an
      ASCII character is one. */
  lemma AsciiNotAlias(t: string)
    requires t != [] && t[0] < '\U{80}'
    ensures HeaderField(t).None?
  {
  }

  /** A column counts as the employee number exactly when its trimmed header is
      one of the three aliases or the field name itself, and likewise for the name. */
  lemma RequiredColumnsRecognised(h: string)
    ensures NormalizeHeader(h) == "empNo" <==> Trim(h) in {"사번", "사원번호", "번호", "empNo"}
    ensures NormalizeHeader(h) == "name" <==> Trim(h) in {"이름", "성명", "name"}
  {
    var t := Trim(h);
    NormalizedAs(t);
  }

  /** The two required fields as `HeaderField` and its fallback see them. */
  lemma NormalizedAs(t: string)
    ensures (match HeaderField(t) case Some(f) => f case None => t) == "empNo"
            <==> t in {"사번", "사원번호", "번호", "empNo"}
    ensures (match HeaderField(t) case Some(f) => f case None => t) == "name"
            <==> t in {"이름", "성명", "name"}
  {
  }

  function NormalizeHeaders(raw: seq<string>): (r: seq<string>) {
    seq(|raw|, i requires 0 <= i < |raw| => NormalizeHeader(raw[i]))
  }

  /** `Object.fromEntries(normalized.map((h, i) => [h, i]))`. */
  function ColumnIndex(normalized: seq<string>): map<string, nat> {
    LastIndex(normalized)
  }

  function NotColumnIn(idx: map<string, nat>): string -> bool {
    (c: string) => c !in idx
  }

  /** `required.filter(r => !(r in idx))` */
  function MissingColumns(idx: map<string, nat>): (r: seq<string>)
    ensures forall c :: c in r <==> c in Required && c !in idx
    ensures r == [] <==> "empNo" in idx && "name" in idx
    ensures r == (if "empNo" in idx then [] else ["empNo"]) + (if "name" in idx then [] else ["name"])
  {
    Filter(Required, NotColumnIn(idx))
  }

  // ---------------------------------------------------------------------------
  // Rows

  /** `r.some(v => String(v).trim() !== "")` */
  predicate HasContent(r: SheetRow) {
    exists k :: 0 <= k < |r| && !AllSpace(r[k])
  }

  /** The data rows kept: those with a cell that is not blank, in sheet order. */
  function KeptRows(data: seq<SheetRow>): (r: seq<SheetRow>)
    ensures forall row :: row in r <==> row in data && HasContent(row)
  {
    Filter(data, HasContent)
  }

  /** Dropping blank rows keeps the sheet order. */
  lemma KeptRowsInOrder(a: seq<SheetRow>, b: seq<SheetRow>)
    ensures KeptRows(a + b) == KeptRows(a) + KeptRows(b)
  {
    FilterAppend(a, b, HasContent);
  }

  /** `String(r[idx[name]] ?? "").trim()`: the trimmed cell of the named column,
      or "" when the sheet has no such column or the row is too short. */
  function Field(r: SheetRow, idx: map<string, nat>, name: string): string {
    if name in idx && idx[name] < |r| then Trim(r[idx[name]]) else ""
  }

  /** `v` is what the named column gives for row `r`: already trimmed, the
      trimmed cell when the row reaches the column, and "" otherwise. */
  predicate FieldFrom(v: string, r: SheetRow, idx: map<string, nat>, name: string) {
    && Trim(v) == v
    && (name in idx && idx[name] < |r| ==> v == Trim(r[idx[name]]))
    && (!(name in idx && idx[name] < |r|) ==> v == "")
  }

  /** The record built for one sheet row (`.map(r => ({ empNo: ..., ... }))`). */
  function FormatRow(r: SheetRow, idx: map<string, nat>): (row: Row)
    ensures FieldFrom(row.empNo, r, idx, "empNo") && FieldFrom(row.name, r, idx, "name")
    ensures FieldFrom(row.dept, r, idx, "dept") && FieldFrom(row.phone, r, idx, "phone")
    ensures FieldFrom(row.email, r, idx, "email")
  {
    FieldIsFrom(r, idx, "empNo");
    FieldIsFrom(r, idx, "name");
    FieldIsFrom(r, idx, "dept");
    FieldIsFrom(r, idx, "phone");
    FieldIsFrom(r, idx, "email");
    Row(Field(r, idx, "empNo"), Field(r, idx, "name"), Field(r, idx, "dept"),
        Field(r, idx, "phone"), Field(r, idx, "email"))
  }

  function FormatRows(rows: seq<SheetRow>, idx: map<string, nat>): seq<Row> {
    seq(|rows|, i requires 0 <= i < |rows| => FormatRow(rows[i], idx))
  }

  /** The field read for a column is what `FieldFrom` describes. */
  lemma FieldIsFrom(r: SheetRow, idx: map<string, nat>, name: string)
    ensures FieldFrom(Field(r, idx, name), r, idx, name)
  {
    FieldsTrimmed(r, idx, name);
  }

  /** Every field is trimmed already, and a field without a column is "". */
  lemma FieldsTrimmed(r: SheetRow, idx: map<string, nat>, name: string)
    ensures Trim(Field(r, idx, name)) == Field(r, idx, name)
    ensures name !in idx ==> Field(r, idx, name) == ""
    ensures name in idx && idx[name] < |r| ==> Field(r, idx, name) == Trim(r[idx[name]])
  {
    if name in idx && idx[name] < |r| {
      TrimIdempotent(r[idx[name]]);
    }
  }

  // ---------------------------------------------------------------------------
  // Field checks

  /** A character `[^\s@]` matches. */
  predicate PlainChar(c: char) {
    !IsSpace(c) && c != '@'
  }

  /** Every character of `s` matches `[^\s@]`. */
  predicate AllPlain(s: string) {
    forall k :: 0 <= k < |s| ==> PlainChar(s[k])
  }

  /** The position of the first `c` in `s`. */
  function IndexOf(s: string, c: char): (r: Option<nat>)
    ensures r.None? <==> c !in s
    ensures r.Some? ==> r.value < |s| && s[r.value] == c && c !in s[..r.value]
  {
    if s == [] then None
    else if s[0] == c then Some(0)
    else
      var r := IndexOf(s[1..], c);
      if r.None? then None
      else
        assert s[..r.value + 1] == [s[0]] + s[1..][..r.value];
        Some(r.value + 1)
  }

  /** The email check as the validator performs it: a plain run, the first `@`,
      and after it a plain run with a `.` neither first nor last. */
  predicate ValidEmail(s: string) {
    match IndexOf(s, '@')
    case None => false
    case Some(at) =>
      var rest := s[at + 1..];
      at > 0 && AllPlain(s[..at]) && AllPlain(rest) && |rest| >= 3 && '.' in rest[1..|rest| - 1]
  }

  /** `s` splits as `a @ b . c` at positions `at` and `dot`, with `a`, `b` and `c`
      non-empty runs of `[^\s@]`: a match of `/^[^\s@]+@[^\s@]+\.[^\s@]+$/`. */
  predicate EmailAt(s: string, at: int, dot: int) {
    && 0 < at && at + 1 < dot && dot + 1 < |s|
    && s[at] == '@' && s[dot] == '.'
    && AllPlain(s[..at]) && AllPlain(s[at + 1..dot]) && AllPlain(s[dot + 1..])
  }

  /** The email check accepts exactly the texts the pattern matches. */
  lemma ValidEmailMatchesPattern(s: string)
    ensures ValidEmail(s) <==> exists at, dot :: EmailAt(s, at, dot)
  {
    if ValidEmail(s) {
      ValidEmailSplits(s);
    }
    if exists at, dot :: EmailAt(s, at, dot) {
      var at, dot :| EmailAt(s, at, dot);
      SplitIsValidEmail(s, at, dot);
    }
  }

  /** An address the check accepts splits as the pattern requires. */
  lemma ValidEmailSplits(s: string)
    requires ValidEmail(s)
    ensures exists at, dot :: EmailAt(s, at, dot)
  {
    var at := IndexOf(s, '@').value;
    var rest := s[at + 1..];
    var inner := rest[1..|rest| - 1];
    var k :| 0 <= k < |inner| && inner[k] == '.';
    var dot := at + 2 + k;
    assert s[at + 1..dot] == rest[..k + 1];
    assert s[dot + 1..] == rest[k + 2..];
    assert EmailAt(s, at, dot);
  }

  /** An address that splits as the pattern requires passes the check. */
  lemma SplitIsValidEmail(s: string, at: int, dot: int)
    requires EmailAt(s, at, dot)
    ensures ValidEmail(s)
  {
    assert PlainChar(s[at + 1]);
    forall k | 0 <= k < at ensures s[k] != '@' {
      assert s[..at][k] == s[k];
    }
    FirstAt(s, '@', at);
    var rest := s[at + 1..];
    forall k | 0 <= k < |rest| ensures PlainChar(rest[k]) {
      if at + 1 + k < dot {
        assert rest[k] == s[at + 1..dot][k];
      } else if at + 1 + k > dot {
        assert rest[k] == s[dot + 1..][k - (dot - at)];
      }
    }
    assert rest[1..|rest| - 1][dot - at - 2] == '.';
  }

  /** A character of `[0-9\-+() ]`. */
  predicate PhoneChar(c: char) {
    ('0' <= c <= '9') || c == '-' || c == '+' || c == '(' || c == ')' || c == ' '
  }

  /** `/^[0-9\-+() ]{8,}$/`: at least eight characters, each a digit, `-`, `+`,
      a parenthesis or a space. */
  predicate ValidPhone(s: string) {
    |s| >= 8 && forall k :: 0 <= k < |s| ==> PhoneChar(s[k])
  }

  /** Sample phone numbers: a mobile number and one with a country code pass,
      seven digits or a trailing letter fail. */
  lemma PhoneSamples()
    ensures ValidPhone("010-1234-5678") && ValidPhone("+82 (2) 123")
    ensures !ValidPhone("1234567") && !ValidPhone("0101234567x")
  {
    assert !PhoneChar("0101234567x"[10]);
  }

  /** The first `c` is at `i` when `s[i]` is `c` and nothing before it is. */
  lemma FirstAt(s: string, c: char, i: nat)
    requires i < |s| && s[i] == c && forall k :: 0 <= k < i ==> s[k] != c
    ensures IndexOf(s, c) == Some(i)
  {
    assert s[..i + 1][i] == c;
  }

  /** The email check, read off the position of the first `@`. */
  lemma EmailFromParts(s: string, at: nat)
    requires at < |s| && s[at] == '@' && forall k :: 0 <= k < at ==> s[k] != '@'
    ensures ValidEmail(s) <==>
              at > 0 && AllPlain(s[..at]) && AllPlain(s[at + 1..]) && |s| >= at + 4
              && '.' in s[at + 2..|s| - 1]
  {
    FirstAt(s, '@', at);
    if |s| >= at + 4 {
      assert s[at + 1..][1..|s| - at - 2] == s[at + 2..|s| - 1];
    }
  }

  /** A plain address passes the email check. */
  lemma EmailAccepted()
    ensures ValidEmail("kim@corp.kr")
  {
    var s := "kim@corp.kr";
    VisiblePlain(s[..3]);
    VisiblePlain(s[4..]);
    assert s[5..10][3] == '.';
    EmailFromParts(s, 3);
  }

  /** Printable ASCII other than `@` matches `[^\s@]`. */
  lemma VisiblePlain(s: string)
    requires forall k :: 0 <= k < |s| ==> '!' <= s[k] <= '~' && s[k] != '@'
    ensures AllPlain(s)
  {
  }

  /** An address without a dot after the `@` fails the email check. */
  lemma EmailNeedsDot()
    ensures !ValidEmail("kim@corp")
  {
    assert "kim@corp"[5..7] == "or";
    EmailFromParts("kim@corp", 3);
  }

  /** An address with nothing before the `@` fails the email check. */
  lemma EmailNeedsLocalPart()
    ensures !ValidEmail("@corp.kr")
  {
    EmailFromParts("@corp.kr", 0);
  }

  /** An address whose dot directly follows the `@` fails the email check. */
  lemma EmailNeedsDomain()
    ensures !ValidEmail("kim@.kr")
  {
    assert "kim@.kr"[5..6] == "k";
    EmailFromParts("kim@.kr", 3);
  }

  // ---------------------------------------------------------------------------
  // Validation

  /** `!it.empNo || !it.name` */
  predicate KeyMissing(it: Row) {
    it.empNo == "" || it.name == ""
  }

  /** `it.email && !/^[^\s@]+@[^\s@]+\.[^\s@]+$/.test(it.email)` */
  predicate EmailBad(it: Row) {
    it.email != "" && !ValidEmail(it.email)
  }

  /** `it.phone && !/^[0-9\-+() ]{8,}$/.test(it.phone)` */
  predicate PhoneBad(it: Row) {
    it.phone != "" && !ValidPhone(it.phone)
  }

  /** `[e]` when `flag` holds, nothing otherwise. */
  function Flagged(flag: bool, e: ImportError): seq<ImportError> {
    if flag then [e] else []
  }

  /** The problems of one row reported at `line`, in the order they are reported. */
  function RowErrors(it: Row, line: int): seq<ImportError> {
    Flagged(KeyMissing(it), RequiredMissing(line)) + Flagged(EmailBad(it), BadEmail(line))
    + Flagged(PhoneBad(it), BadPhone(line))
  }

  /** `if (flag) bad.push(e)` */
  function Report(bad: seq<ImportError>, flag: bool, e: ImportError): seq<ImportError> {
    if flag then bad + [e] else bad
  }

  /** The three checks of one row, each pushing onto what was reported before. */
  function CheckRow(bad: seq<ImportError>, it: Row, line: int): seq<ImportError> {
    Report(Report(Report(bad, KeyMissing(it), RequiredMissing(line)), EmailBad(it), BadEmail(line)),
           PhoneBad(it), BadPhone(line))
  }

  /** Checking a row appends exactly that row's problems. */
  lemma CheckRowAppends(bad: seq<ImportError>, it: Row, line: int)
    ensures CheckRow(bad, it, line) == bad + RowErrors(it, line)
  {
    var a := Flagged(KeyMissing(it), RequiredMissing(line));
    var b := Flagged(EmailBad(it), BadEmail(line));
    var c := Flagged(PhoneBad(it), BadPhone(line));
    assert Report(bad, KeyMissing(it), RequiredMissing(line)) == bad + a;
    assert Report(bad + a, EmailBad(it), BadEmail(line)) == bad + a + b;
    assert Report(bad + a + b, PhoneBad(it), BadPhone(line)) == bad + a + b + c;
    assert bad + a + b + c == bad + (a + b + c);
  }

  /** The problems of all kept rows; the row at index `i` among them is
      reported at line `i + 2`. */
  function Validation(rows: seq<Row>): seq<ImportError> {
    if rows == [] then []
    else CheckRow(Validation(rows[..|rows| - 1]), rows[|rows| - 1], |rows| + 1)
  }

  /** The `forEach` that pushes each row's problems onto `bad`. */
  method Validate(rows: seq<Row>) returns (bad: seq<ImportError>)
    ensures bad == Validation(rows)
  {
    bad := [];
    for i := 0 to |rows|
      invariant bad == Validation(rows[..i])
    {
      assert rows[..i + 1][..i] == rows[..i];
      var it := rows[i];
      assert Validation(rows[..i + 1]) == CheckRow(bad, it, i + 2);
      if KeyMissing(it) {
        bad := bad + [RequiredMissing(i + 2)];
      }
      if EmailBad(it) {
        bad := bad + [BadEmail(i + 2)];
      }
      if PhoneBad(it) {
        bad := bad + [BadPhone(i + 2)];
      }
    }
    assert rows[..|rows|] == rows;
  }

  /** The line a per-row problem refers to. */
  function LineOf(e: ImportError): int {
    match e
    case ColumnsMissing(_) => 0
    case RequiredMissing(line) => line
    case BadEmail(line) => line
    case BadPhone(line) => line
  }

  /** Every problem of a row names that row's line. */
  lemma RowErrorsOnLine(it: Row, line: int, e: ImportError)
    ensures e in RowErrors(it, line) ==> LineOf(e) == line
  {
  }

  /** A problem is reported exactly when the row on its line has it. */
  lemma {:induction false} ValidationPerRow(rows: seq<Row>, e: ImportError)
    ensures e in Validation(rows) <==>
              2 <= LineOf(e) < |rows| + 2 && e in RowErrors(rows[LineOf(e) - 2], LineOf(e))
  {
    if rows != [] {
      var init, last, line := rows[..|rows| - 1], rows[|rows| - 1], |rows| + 1;
      ValidationPerRow(init, e);
      CheckRowAppends(Validation(init), last, line);
      assert Validation(rows) == Validation(init) + RowErrors(last, line);
      RowErrorsOnLine(last, line, e);
      if 2 <= LineOf(e) < line {
        assert rows[LineOf(e) - 2] == init[LineOf(e) - 2];
      } else if LineOf(e) == line {
        assert rows[LineOf(e) - 2] == last;
      }
    }
  }

  /** Row `i` is flagged for a missing number or name, a malformed email, or a
      malformed phone, each at line `i + 2`, exactly when it has that fault. */
  lemma RowFlags(rows: seq<Row>, i: int)
    requires 0 <= i < |rows|
    ensures RequiredMissing(i + 2) in Validation(rows) <==> rows[i].empNo == "" || rows[i].name == ""
    ensures BadEmail(i + 2) in Validation(rows) <==> rows[i].email != "" && !ValidEmail(rows[i].email)
    ensures BadPhone(i + 2) in Validation(rows) <==> rows[i].phone != "" && !ValidPhone(rows[i].phone)
  {
    var it := rows[i];
    RowErrorsFlags(it, i + 2);
    ValidationAt(rows, i, RequiredMissing(i + 2));
    ValidationAt(rows, i, BadEmail(i + 2));
    ValidationAt(rows, i, BadPhone(i + 2));
  }

  /** `ValidationPerRow` for a problem about row `i`. */
  lemma ValidationAt(rows: seq<Row>, i: int, e: ImportError)
    requires 0 <= i < |rows| && LineOf(e) == i + 2
    ensures e in Validation(rows) <==> e in RowErrors(rows[i], i + 2)
  {
    ValidationPerRow(rows, e);
  }

  /** The problems of one row name its line and are exactly its faults. */
  lemma RowErrorsFlags(it: Row, line: int)
    ensures RequiredMissing(line) in RowErrors(it, line) <==> it.empNo == "" || it.name == ""
    ensures BadEmail(line) in RowErrors(it, line) <==> it.email != "" && !ValidEmail(it.email)
    ensures BadPhone(line) in RowErrors(it, line) <==> it.phone != "" && !ValidPhone(it.phone)
  {
  }

  // ---------------------------------------------------------------------------
  // The whole import

  /** The load handler from the parsed sheet onwards. */
  function Import(json: seq<SheetRow>): (r: ImportOutcome)
    ensures r.Crashed? <==> json == []
  {
    if json == [] then Crashed
    else ImportData(ColumnIndex(NormalizeHeaders(json[0])), json[1..])
  }

  /** The handler once the header row has given the column index `idx`: stop at
      missing columns, otherwise keep, format and validate the data rows. */
  function ImportData(idx: map<string, nat>, data: seq<SheetRow>): (r: ImportOutcome)
    ensures r.Imported?
    ensures MissingColumns(idx) != [] ==> r == Imported([ColumnsMissing(MissingColumns(idx))], [])
  {
    var missing := MissingColumns(idx);
    if missing != [] then Imported([ColumnsMissing(missing)], [])
    else
      var formatted := FormatRows(KeptRows(data), idx);
      Imported(Validation(formatted), formatted)
  }

  /** With both required columns present, every non-blank data row is kept and
      formatted, in order, whatever problems validation finds: the rows are the
      formatted kept rows and the problems are theirs. */
  lemma ImportKeepsRows(idx: map<string, nat>, data: seq<SheetRow>)
    requires "empNo" in idx && "name" in idx
    ensures |ImportData(idx, data).rows| == |KeptRows(data)|
    ensures forall i :: 0 <= i < |ImportData(idx, data).rows| ==>
              ImportData(idx, data).rows[i] == FormatRow(KeptRows(data)[i], idx)
    ensures ImportData(idx, data).errors == Validation(ImportData(idx, data).rows)
  {
  }

  /** A sheet with the required columns but no data rows imports nothing and
      reports nothing; one whose data rows are all blank does the same. */
  lemma HeaderOnlyImportsNothing(idx: map<string, nat>, data: seq<SheetRow>)
    requires "empNo" in idx && "name" in idx
    requires forall i :: 0 <= i < |data| ==> !HasContent(data[i])
    ensures ImportData(idx, data) == Imported([], [])
  {
    FilterNone(data, HasContent);
  }

  // ---------------------------------------------------------------------------
  // The uploader's state

  class Uploader {
    var rows: seq<Row>
    var errors: seq<ImportError>

    constructor ()
      ensures rows == [] && errors == []
    {
      rows, errors := [], [];
    }

    /** `reader.onload` once the workbook is parsed into `json`. */
    method OnLoad(json: seq<SheetRow>)
      modifies this
      ensures Import(json).Crashed? ==> rows == old(rows) && errors == old(errors)
      ensures Import(json).Imported? ==> errors == Import(json).errors && rows == Import(json).rows
    {
      if json == [] {
        return;
      }
      var idx := ColumnIndex(NormalizeHeaders(json[0]));
      var missing := MissingColumns(idx);
      if missing != [] {
        errors, rows := [ColumnsMissing(missing)], [];
        return;
      }
      var formatted := FormatRows(KeptRows(json[1..]), idx);
      var bad := Validate(formatted);
      errors, rows := bad, formatted;
    }
  }
}

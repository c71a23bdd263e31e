/** The `tempo:extract-logs` command: read one author's Tempo worklogs, find for
    each the key of the matching issue on the destination Jira (the first word
    of the source issue's summary), show them, and on confirmation re-create
    each keyed worklog on the destination. */
module ExtractWorklogs {
  import opened Wrappers
  import opened ArrayOps
  import opened Text
  import opened Outcome

  /** A Tempo worklog as the worklog-for-user API returns it (the fields used). */
  datatype TempoLog = TempoLog(
    issueId: int,
    timeSpentSeconds: int,
    startDate: string,
    startTime: string,
    description: string)

  /** A review-table row while the issue id is still attached. */
  datatype PendingRow = PendingRow(
    issueId: int,
    keyAdeo: string,
    time: int,
    date: string,
    startTime: string,
    formattedTime: string,
    description: string)

  /** A review-table row as shown and replicated (`issue_id` removed). */
  datatype ExportRow = ExportRow(
    keyAdeo: string,
    time: int,
    date: string,
    startTime: string,
    formattedTime: string,
    description: string)

  /** What the command keeps of an issue returned by the Jira search. */
  datatype IssueSummary = IssueSummary(id: int, key: string, summary: string)

  /** The body of a worklog creation request on the destination Jira. */
  datatype Payload = Payload(comment: string, date: string, startTime: string, timeSpent: string)

  datatype CreateCall = CreateCall(key: string, payload: Payload)

  const NO_RESULTS := "Nessun risultato trovato\n"
  const FOX_MARKER := "BMITFOX-"
  const B2C_MARKER := "BMITB2C"

  // ---------------------------------------------------------------------------
  // formatTime

  /** PHP's `%`: the remainder takes the sign of the dividend. */
  function TruncMod(a: int, b: int): (r: int)
    requires b > 0
    ensures a >= 0 ==> r == a % b
    ensures a < 0 ==> r <= 0
    ensures (a - r) % b == 0
    ensures -b < r < b
  {
    if a >= 0 then
      RemainderGap(a, b);
      a % b
    else
      RemainderGap(-a, b);
      -((-a) % b)
  }

  /** Taking the remainder off leaves a multiple of the divisor, on either side of zero. */
  lemma RemainderGap(n: int, b: int)
    requires b > 0
    ensures (n - n % b) % b == 0 && (-(n - n % b)) % b == 0
  {
    var q := n / b;
    assert n - n % b == b * q;
    MultipleMod(b, q);
    assert -(n - n % b) == b * -q;
    MultipleMod(b, -q);
  }

  lemma MultipleMod(b: int, k: int)
    requires b > 0
    ensures (b * k) % b == 0
  {
    DivModUnique(b * k, b, k, 0);
  }

  /** Division and remainder are determined by the quotient and the remainder
      they must satisfy. */
  lemma DivModUnique(n: int, b: int, q: int, r: int)
    requires b > 0 && n == b * q + r && 0 <= r < b
    ensures n % b == r && n / b == q
  {
    var q', r' := n / b, n % b;
    assert b * (q - q') == r' - r;
    MultipleBounds(b, q - q');
  }

  /** A non-zero multiple of `b` is at least `b` away from zero. */
  lemma MultipleBounds(b: int, k: int)
    requires b > 0
    ensures k >= 1 ==> b * k >= b
    ensures k <= -1 ==> b * k <= -b
  {
    if k >= 1 {
      assert b * k == b * (k - 1) + b;
      assert b * (k - 1) >= 0;
    } else if k <= -1 {
      assert b * k == b * (k + 1) - b;
      assert b * (k + 1) <= 0;
    }
  }

  /** `floor($seconds / 3600)`; Dafny's `/` already rounds down for a positive divisor. */
  function Hours(seconds: int): int {
    seconds / 3600
  }

  /** `floor(($seconds % 3600) / 60)`. */
  function Minutes(seconds: int): int {
    TruncMod(seconds, 3600) / 60
  }

  /** `formatTime($seconds)`: "<h>h" when the hours are not zero and "<m>m" when
      the minutes are not zero, joined by one space. */
  function FormatTime(seconds: int): (r: string)
    ensures seconds >= 0 ==> (r == "" <==> seconds < 60)
  {
    var h, m := Hours(seconds), Minutes(seconds);
    Implode((if h != 0 then [IntToString(h) + "h"] else [])
          + (if m != 0 then [IntToString(m) + "m"] else []))
  }

  /** "<h>h <m>m", "<h>h", "<m>m" or "", as each part is present. */
  function Layout(h: nat, m: nat): string {
    if h > 0 && m > 0 then (NatToString(h) + "h") + " " + (NatToString(m) + "m")
    else if h > 0 then NatToString(h) + "h"
    else if m > 0 then NatToString(m) + "m"
    else ""
  }

  /** For a non-negative duration: the hours are whole hours, the minutes the
      whole minutes left over (always below 60), and the text shows each part
      that is present. */
  lemma FormatTimeLayout(seconds: nat)
    ensures var h, m := seconds / 3600, (seconds % 3600) / 60;
      && Hours(seconds) == h && Minutes(seconds) == m
      && 0 <= m < 60
      && FormatTime(seconds) == Layout(h, m)
  {
    var h, m := seconds / 3600, (seconds % 3600) / 60;
    var hw, mw := NatToString(h) + "h", NatToString(m) + "m";
    if h > 0 && m > 0 {
      var parts := [hw] + [mw];
      assert parts[1..] == [mw];
      assert Implode(parts) == hw + " " + mw;
    }
  }

  lemma FormatTimeExamples()
    ensures FormatTime(0) == ""
    ensures FormatTime(59) == ""
    ensures FormatTime(1800) == "30m"
    ensures FormatTime(3600) == "1h"
    ensures FormatTime(5400) == "1h 30m"
    ensures FormatTime(6300) == "1h 45m"
  {
    assert FormatTime(1800) == "30m" by {
      FormatTimeLayout(1800);
      assert NatToString(30) == "30";
    }
    assert FormatTime(3600) == "1h" by {
      FormatTimeLayout(3600);
      assert NatToString(1) == "1";
    }
    assert FormatTime(5400) == "1h 30m" by {
      FormatTimeLayout(5400);
      assert NatToString(1) == "1" && NatToString(30) == "30";
    }
    assert FormatTime(6300) == "1h 45m" by {
      FormatTimeLayout(6300);
      assert NatToString(1) == "1" && NatToString(45) == "45";
    }
  }

  // ---------------------------------------------------------------------------
  // The duration notation the destination Jira reads back ("1h 30m")

  /** One "<digits>h" or "<digits>m" word, in seconds. */
  function ParseUnit(word: string): Option<nat> {
    if |word| < 2 || !AllDigits(word[..|word| - 1]) then None
    else
      var n := ParseNat(word[..|word| - 1]);
      if word[|word| - 1] == 'h' then Some(n * 3600)
      else if word[|word| - 1] == 'm' then Some(n * 60)
      else None
  }

  function ParseUnits(words: seq<string>): Option<nat> {
    if words == [] then Some(0)
    else
      match (ParseUnit(words[0]), ParseUnits(words[1..]))
      case (Some(a), Some(b)) => Some(a + b)
      case _ => None
  }

  /** The number of seconds a space-separated list of hour and minute words denotes. */
  function ParseDuration(text: string): Option<nat> {
    if text == "" then Some(0) else ParseUnits(Explode(text))
  }

  lemma UnitWord(n: nat, unit: char)
    requires unit == 'h' || unit == 'm'
    ensures ParseUnit(NatToString(n) + [unit]) == Some(n * if unit == 'h' then 3600 else 60)
    ensures NoSpace(NatToString(n) + [unit])
  {
    var w := NatToString(n) + [unit];
    assert w[..|w| - 1] == NatToString(n);
    ParseNatToString(n);
  }

  /** Whole hours and whole leftover minutes add up to the seconds without the
      part below a minute. */
  lemma MinutesArithmetic(seconds: nat)
    ensures 3600 * (seconds / 3600) + 60 * ((seconds % 3600) / 60) == seconds - seconds % 60
  {
    var h, r := seconds / 3600, seconds % 3600;
    DivModUnique(seconds, 60, 60 * h + r / 60, r % 60);
  }

  lemma {:induction false} ParseWords(hw: string, mw: string, a: nat, b: nat)
    requires NoSpace(hw) && NoSpace(mw)
    requires ParseUnit(hw) == Some(a) && ParseUnit(mw) == Some(b)
    ensures ParseDuration(hw + " " + mw) == Some(a + b)
    ensures ParseDuration(hw) == Some(a)
  {
    var parts := [hw, mw];
    assert parts[1..] == [mw];
    assert Implode(parts) == hw + " " + mw;
    ExplodeImplode(parts);
    ExplodeImplode([hw]);
    assert ParseUnits([mw]) == Some(b);
    assert ParseUnits(parts) == Some(a + b);
    assert ParseUnits([hw]) == Some(a);
    assert |hw| >= 2;
  }

  /** The layout reads back as `h` hours and `m` minutes. */
  lemma ParseLayout(h: nat, m: nat)
    ensures ParseDuration(Layout(h, m)) == Some(3600 * h + 60 * m)
  {
    var hw, mw := NatToString(h) + "h", NatToString(m) + "m";
    UnitWord(h, 'h');
    UnitWord(m, 'm');
    if h > 0 && m > 0 {
      ParseWords(hw, mw, h * 3600, m * 60);
    } else if h > 0 {
      ParseWords(hw, mw, h * 3600, m * 60);
    } else if m > 0 {
      ParseWords(mw, hw, m * 60, h * 3600);
    }
  }

  /** Reading the formatted duration back gives the seconds rounded down to a
      whole minute: the seconds below a minute are dropped, nothing else is lost. */
  lemma FormatTimeRoundTrip(seconds: nat)
    ensures ParseDuration(FormatTime(seconds)) == Some(seconds - seconds % 60)
  {
    FormatTimeLayout(seconds);
    MinutesArithmetic(seconds);
    ParseLayout(seconds / 3600, (seconds % 3600) / 60);
  }

  // ---------------------------------------------------------------------------
  // key_adeo

  /** `key_adeo`: the first word of the summary when it holds `BMITFOX-` or
      `BMITB2C`, otherwise the empty string; an issue the search did not return
      (`null`) has no key. */
  function KeyAdeo(entry: Option<IssueSummary>): string {
    if entry.None? then ""
    else
      var word := Explode(entry.value.summary)[0];
      if Contains(word, FOX_MARKER) || Contains(word, B2C_MARKER) then word else ""
  }

  /** A non-empty key is the summary's first word, up to the first space, and it
      holds one of the two project markers; otherwise the key is empty. */
  lemma {:induction false} KeyAdeoIsLeadingWord(entry: Option<IssueSummary>)
    ensures var k := KeyAdeo(entry);
      k != "" ==>
        && entry.Some?
        && NoSpace(k)
        && (entry.value.summary == k || entry.value.summary[..|k| + 1] == k + " ")
        && ((exists i: nat :: OccursAt(k, FOX_MARKER, i)) || (exists i: nat :: OccursAt(k, B2C_MARKER, i)))
    ensures entry.None? ==> KeyAdeo(entry) == ""
  {
    var k := KeyAdeo(entry);
    if k != "" {
      var s := entry.value.summary;
      ContainsIffOccurs(k, FOX_MARKER);
      ContainsIffOccurs(k, B2C_MARKER);
      var i := SpaceIndex(s);
      if i < |s| {
        assert Explode(s)[0] == s[..i];
        assert s[..i + 1] == s[..i] + " ";
      }
    }
  }

  /** A summary whose first word holds `BMITFOX-` or `BMITB2C` anywhere yields
      that word. */
  lemma KeyAdeoOfMarkedSummary(id: int, key: string, word: string, rest: string)
    requires NoSpace(word)
    requires (exists i: nat :: OccursAt(word, FOX_MARKER, i)) || (exists i: nat :: OccursAt(word, B2C_MARKER, i))
    ensures KeyAdeo(Some(IssueSummary(id, key, word + " " + rest))) == word
    ensures KeyAdeo(Some(IssueSummary(id, key, word))) == word
  {
    FirstPieceBeforeSpace(word, rest);
    ContainsIffOccurs(word, FOX_MARKER);
    ContainsIffOccurs(word, B2C_MARKER);
  }

  /** A summary whose first word holds neither marker yields no key. */
  lemma KeyAdeoOfPlainSummary(id: int, key: string, word: string, rest: string)
    requires NoSpace(word)
    requires forall i: nat :: !OccursAt(word, FOX_MARKER, i) && !OccursAt(word, B2C_MARKER, i)
    ensures KeyAdeo(Some(IssueSummary(id, key, word + " " + rest))) == ""
    ensures KeyAdeo(Some(IssueSummary(id, key, word))) == ""
  {
    FirstPieceBeforeSpace(word, rest);
    ContainsIffOccurs(word, FOX_MARKER);
    ContainsIffOccurs(word, B2C_MARKER);
  }

  // ---------------------------------------------------------------------------
  // Rows

  function LogIssueId(log: TempoLog): int {
    log.issueId
  }

  /** The first `array_map`: one pending row per worklog, key still empty. */
  function Project(log: TempoLog): PendingRow {
    PendingRow(log.issueId, "", log.timeSpentSeconds, log.startDate, log.startTime,
               FormatTime(log.timeSpentSeconds), log.description)
  }

  function SummaryId(s: IssueSummary): int {
    s.id
  }

  function Present(s: IssueSummary): Option<IssueSummary> {
    Some(s)
  }

  /** `array_fill_keys($ids, null)`. */
  function FillKeys(ids: seq<int>): (m: map<int, Option<IssueSummary>>)
    ensures forall id :: id in m <==> id in ids
    ensures forall id :: id in m ==> m[id] == None
  {
    map id | id in ids :: None
  }

  /** The second `array_map`: look up the issue, set `key_adeo`, drop `issue_id`.
      An id missing from the dictionary reads as `null`. */
  function AttachKey(issues: map<int, Option<IssueSummary>>, row: PendingRow): ExportRow {
    var entry := if row.issueId in issues then issues[row.issueId] else None;
    ExportRow(KeyAdeo(entry), row.time, row.date, row.startTime, row.formattedTime, row.description)
  }

  function AttachKeys(issues: map<int, Option<IssueSummary>>, rows: seq<PendingRow>): (r: seq<ExportRow>)
    ensures |r| == |rows|
    ensures forall i :: 0 <= i < |rows| ==> r[i] == AttachKey(issues, rows[i])
  {
    if rows == [] then [] else [AttachKey(issues, rows[0])] + AttachKeys(issues, rows[1..])
  }

  /** The second mapping keeps the number and the order of the rows; each row
      keeps every field but the issue id and gains only its `key_adeo`. */
  lemma AttachKeysKeepsRows(issues: map<int, Option<IssueSummary>>, rows: seq<PendingRow>, i: nat)
    requires i < |rows|
    ensures var r := AttachKeys(issues, rows);
      && |r| == |rows|
      && r[i].time == rows[i].time && r[i].date == rows[i].date
      && r[i].startTime == rows[i].startTime && r[i].formattedTime == rows[i].formattedTime
      && r[i].description == rows[i].description
      && (rows[i].issueId !in issues || issues[rows[i].issueId].None? ==> r[i].keyAdeo == "")
  {
  }

  /** The `foreach` over the search result: start from every id mapped to `null`,
      then store each returned issue under its own id. */
  method IndexSummaries(ids: seq<int>, found: seq<IssueSummary>) returns (issues: map<int, Option<IssueSummary>>)
    ensures issues == FillKeys(ids) + IndexBy(found, SummaryId, Present)
  {
    issues := FillKeys(ids);
    var i := 0;
    while i < |found|
      invariant 0 <= i <= |found|
      invariant issues == FillKeys(ids) + IndexBy(found[..i], SummaryId, Present)
    {
      IndexByExtend(FillKeys(ids), found, SummaryId, Present, i);
      issues := issues[found[i].id := Some(found[i])];
      i := i + 1;
    }
    assert found[..i] == found;
  }

  /** Every id of the query keeps an entry; it holds the last matching issue the
      search returned, and stays `null` when the search did not return it. */
  lemma {:induction false} SummaryEntry(ids: seq<int>, found: seq<IssueSummary>, id: int)
    requires id in ids
    ensures var issues := FillKeys(ids) + IndexBy(found, SummaryId, Present);
      && id in issues
      && ((forall j :: 0 <= j < |found| ==> found[j].id != id) ==> issues[id] == None)
      && (forall j :: (0 <= j < |found| && found[j].id == id
                         && (forall l :: j < l < |found| ==> found[l].id != id)) ==> issues[id] == Some(found[j]))
  {
    var issues := FillKeys(ids) + IndexBy(found, SummaryId, Present);
    forall j | 0 <= j < |found| && found[j].id == id && (forall l :: j < l < |found| ==> found[l].id != id)
      ensures issues[id] == Some(found[j])
    {
      IndexByLastWins(found, SummaryId, Present, j);
    }
    if forall j :: 0 <= j < |found| ==> found[j].id != id {
      assert id !in IndexBy(found, SummaryId, Present);
    }
  }

  // ---------------------------------------------------------------------------
  // Replication

  /** PHP's `empty()` on a string. */
  predicate EmptyString(s: string) {
    s == "" || s == "0"
  }

  function CallFor(row: ExportRow): CreateCall {
    CreateCall(row.keyAdeo, Payload(row.description, row.date, row.startTime, row.formattedTime))
  }

  /** The create calls an operator who confirms every row would cause. */
  function Eligible(rows: seq<ExportRow>): seq<CreateCall> {
    if rows == [] then []
    else (if EmptyString(rows[0].keyAdeo) then [] else [CallFor(rows[0])]) + Eligible(rows[1..])
  }

  /** The create calls of the replication loop when the `q`-th confirmation
      prompt is answered `answer(q)`: rows without a key are skipped without a
      prompt; every other row asks once and is sent only on a yes. */
  function Replication(rows: seq<ExportRow>, answer: nat -> bool, q: nat): seq<CreateCall> {
    if rows == [] then []
    else if EmptyString(rows[0].keyAdeo) then Replication(rows[1..], answer, q)
    else (if answer(q) then [CallFor(rows[0])] else []) + Replication(rows[1..], answer, q + 1)
  }

  function EligibleCount(rows: seq<ExportRow>): nat {
    if rows == [] then 0 else (if EmptyString(rows[0].keyAdeo) then 0 else 1) + EligibleCount(rows[1..])
  }

  /** The loop creates worklogs only for keyed rows, in row order, each at most once. */
  lemma {:induction false} ReplicationIsSubsequence(rows: seq<ExportRow>, answer: nat -> bool, q: nat)
    ensures Subsequence(Replication(rows, answer, q), Eligible(rows))
  {
    if rows != [] {
      ReplicationIsSubsequence(rows[1..], answer, if EmptyString(rows[0].keyAdeo) then q else q + 1);
      var rest := Replication(rows[1..], answer, if EmptyString(rows[0].keyAdeo) then q else q + 1);
      if EmptyString(rows[0].keyAdeo) {
        assert Eligible(rows) == Eligible(rows[1..]);
      } else {
        var e := [CallFor(rows[0])] + Eligible(rows[1..]);
        assert Eligible(rows) == e;
        if answer(q) {
          var r := [CallFor(rows[0])] + rest;
          assert r[1..] == rest && e[1..] == Eligible(rows[1..]);
        } else {
          assert Replication(rows, answer, q) == rest;
          SubsequenceOfExtended(rest, Eligible(rows[1..]), CallFor(rows[0]));
        }
      }
    }
  }

  /** Confirming every prompt replicates exactly the keyed rows. */
  lemma {:induction false} ReplicationAllConfirmed(rows: seq<ExportRow>, answer: nat -> bool, q: nat)
    requires forall k: nat :: answer(k)
    ensures Replication(rows, answer, q) == Eligible(rows)
  {
    if rows != [] {
      ReplicationAllConfirmed(rows[1..], answer, if EmptyString(rows[0].keyAdeo) then q else q + 1);
    }
  }

  /** The number of worklogs created never exceeds the number of keyed rows. */
  lemma {:induction false} ReplicationBound(rows: seq<ExportRow>, answer: nat -> bool, q: nat)
    ensures |Replication(rows, answer, q)| <= EligibleCount(rows) <= |rows|
  {
    if rows != [] {
      ReplicationBound(rows[1..], answer, if EmptyString(rows[0].keyAdeo) then q else q + 1);
    }
  }

  /** Declining every prompt replicates nothing. */
  lemma {:induction false} ReplicationAllDeclined(rows: seq<ExportRow>, answer: nat -> bool, q: nat)
    requires forall k: nat :: !answer(k)
    ensures Replication(rows, answer, q) == []
  {
    if rows != [] {
      ReplicationAllDeclined(rows[1..], answer, if EmptyString(rows[0].keyAdeo) then q else q + 1);
    }
  }

  /** The create calls, read row by row: row `j` is sent when it has a key and
      its own prompt is answered yes. Its prompt is the first one plus the
      number of keyed rows before it. */
  function Confirmed(rows: seq<ExportRow>, answer: nat -> bool, q: nat): seq<CreateCall> {
    if rows == [] then []
    else
      var n := |rows| - 1;
      Confirmed(rows[..n], answer, q)
        + (if !EmptyString(rows[n].keyAdeo) && answer(q + EligibleCount(rows[..n])) then [CallFor(rows[n])] else [])
  }

  /** Replicating two runs of rows one after the other: the second starts at the
      prompt after the last one the first asked. */
  lemma {:induction false} ReplicationAppend(a: seq<ExportRow>, b: seq<ExportRow>, answer: nat -> bool, q: nat)
    ensures Replication(a + b, answer, q) == Replication(a, answer, q) + Replication(b, answer, q + EligibleCount(a))
    ensures EligibleCount(a + b) == EligibleCount(a) + EligibleCount(b)
  {
    if a == [] {
      assert a + b == b;
    } else {
      var p := if EmptyString(a[0].keyAdeo) then q else q + 1;
      assert (a + b)[0] == a[0] && (a + b)[1..] == a[1..] + b;
      ReplicationAppend(a[1..], b, answer, p);
    }
  }

  /** A row is sent exactly when it has a key and its own prompt is confirmed,
      and the calls follow the order of the rows. */
  lemma {:induction false} ReplicationIsConfirmed(rows: seq<ExportRow>, answer: nat -> bool, q: nat)
    ensures Replication(rows, answer, q) == Confirmed(rows, answer, q)
  {
    if rows != [] {
      var n := |rows| - 1;
      var x := rows[n];
      ReplicationIsConfirmed(rows[..n], answer, q);
      assert rows == rows[..n] + [x];
      ReplicationAppend(rows[..n], [x], answer, q);
      assert [x][1..] == [];
    }
  }

  /** The replication `foreach`: `firstPrompt` is the number of the first
      per-row prompt. Returns the create calls, the ids of the created worklogs
      and the number of the next prompt. */
  method Replicate(rows: seq<ExportRow>, answer: nat -> bool, create: (string, Payload) -> string, firstPrompt: nat)
    returns (calls: seq<CreateCall>, created: seq<string>, nextPrompt: nat)
    ensures calls == Replication(rows, answer, firstPrompt)
    ensures |created| == |calls|
    ensures forall k :: 0 <= k < |calls| ==> created[k] == create(calls[k].key, calls[k].payload)
    ensures nextPrompt == firstPrompt + EligibleCount(rows)
  {
    calls, created, nextPrompt := [], [], firstPrompt;
    var i := 0;
    while i < |rows|
      invariant 0 <= i <= |rows|
      invariant calls + Replication(rows[i..], answer, nextPrompt) == Replication(rows, answer, firstPrompt)
      invariant nextPrompt + EligibleCount(rows[i..]) == firstPrompt + EligibleCount(rows)
      invariant |created| == |calls|
      invariant forall k :: 0 <= k < |calls| ==> created[k] == create(calls[k].key, calls[k].payload)
    {
      var row := rows[i];
      assert rows[i..][1..] == rows[i + 1..];
      if EmptyString(row.keyAdeo) {
        i := i + 1;
        continue;
      }
      var yes := answer(nextPrompt);
      nextPrompt := nextPrompt + 1;
      if !yes {
        i := i + 1;
        continue;
      }
      var call := CallFor(row);
      var id := create(call.key, call.payload);
      calls := calls + [call];
      created := created + [id];
      i := i + 1;
    }
  }

  // ---------------------------------------------------------------------------
  // execute

  /** The whole command. `fetched` is the answer of the worklog-for-user API,
      `search` the issues the Jira search returns for a list of ids, `answer(q)`
      the operator's reply to the q-th yes/no prompt (prompt 0 is "export?"),
      `create` the destination API's worklog creation. Returns how the command
      ends, the error lines printed, the search queries issued, the review
      table, the create calls and the ids they returned. */
  method Execute(
    fetched: Result<seq<TempoLog>, ApiError>,
    search: seq<int> -> seq<IssueSummary>,
    answer: nat -> bool,
    create: (string, Payload) -> string)
    returns (exit: Exit, errors: seq<string>, queries: seq<seq<int>>, table: seq<ExportRow>,
             calls: seq<CreateCall>, created: seq<string>)
    ensures fetched.Err? && fetched.error.Structured? ==>
      exit == Status(1) && errors == fetched.error.messages && queries == [] && table == [] && calls == []
    ensures fetched.Err? && fetched.error.Transport? ==>
      exit == Died(fetched.error.message) && errors == [] && queries == [] && table == [] && calls == []
    ensures fetched == Ok([]) ==>
      exit == Died(NO_RESULTS) && errors == [] && queries == [] && table == [] && calls == []
    ensures fetched.Ok? && fetched.value != [] ==>
      var ids := Dedup(MapSeq(LogIssueId, fetched.value));
      && exit == Status(0) && errors == [] && queries == [ids]
      && table == AttachKeys(FillKeys(ids) + IndexBy(search(ids), SummaryId, Present),
                             MapSeq(Project, fetched.value))
      && calls == (if answer(0) then Replication(table, answer, 1) else [])
    ensures |created| == |calls|
    ensures forall k :: 0 <= k < |calls| ==> created[k] == create(calls[k].key, calls[k].payload)
  {
    errors, queries, table, calls, created := [], [], [], [], [];
    if fetched.Err? {
      match fetched.error {
        case Structured(messages) =>
          errors := messages;
          exit := Status(1);
        case Transport(message) =>
          exit := Died(message);
      }
      return;
    }
    var logs := fetched.value;
    if |logs| == 0 {
      exit := Died(NO_RESULTS);
      return;
    }
    var pending := MapSeq(Project, logs);
    var ids := Dedup(MapSeq(LogIssueId, logs));
    queries := [ids];
    var issues := IndexSummaries(ids, search(ids));
    table := AttachKeys(issues, pending);
    exit := Status(0);
    if !answer(0) {
      return;
    }
    var next;
    calls, created, next := Replicate(table, answer, create, 1);
  }
}

/** The `jira:worklogs` command: for every issue key given, read the issue's
    worklogs from Jira, sort them by start time, keep those of one author (or
    all of them), and print a table per issue with the total time spent. */
module GetWorklogs {
  import opened Wrappers
  import opened Outcome
  import opened ArrayOps

  /** A worklog as the issue-worklog API returns it (the fields used). */
  datatype JiraWorklog = JiraWorklog(
    started: string,
    id: string,
    authorName: string,
    authorEmail: string,
    timeSpent: string,
    timeSpentSeconds: int)

  /** One table row. */
  datatype WorklogRow = WorklogRow(
    started: string,
    worklogId: string,
    author: string,
    authorEmail: string,
    timeSpent: string,
    timeSpentSeconds: int)

  /** A printed table: its title (the issue key), its rows and the total in
      seconds shown in its footer. */
  datatype Table = Table(issueKey: string, rows: seq<WorklogRow>, total: int)

  /** The `--email` value that turns the author filter off. */
  const ALL := "all"

  // ---------------------------------------------------------------------------
  // Projection

  /** The `array_map` over the response: one row per worklog. `localTime` is the
      conversion of the start time to Europe/Rome, formatted `d/m/Y H:i`. */
  function Project(localTime: string -> string, w: JiraWorklog): WorklogRow {
    WorklogRow(localTime(w.started), w.id, w.authorName, w.authorEmail, w.timeSpent, w.timeSpentSeconds)
  }

  function ProjectAll(localTime: string -> string, ws: seq<JiraWorklog>): (rows: seq<WorklogRow>)
    ensures |rows| == |ws|
    ensures forall i :: 0 <= i < |ws| ==> rows[i] == Project(localTime, ws[i])
  {
    if ws == [] then [] else [Project(localTime, ws[0])] + ProjectAll(localTime, ws[1..])
  }

  /** Every row carries its own worklog's id, author, duration and seconds. */
  lemma ProjectionKeepsWorklogs(localTime: string -> string, ws: seq<JiraWorklog>, i: nat)
    requires i < |ws|
    ensures var r := ProjectAll(localTime, ws)[i];
      && r.worklogId == ws[i].id && r.author == ws[i].authorName && r.authorEmail == ws[i].authorEmail
      && r.timeSpent == ws[i].timeSpent && r.timeSpentSeconds == ws[i].timeSpentSeconds
      && r.started == localTime(ws[i].started)
  {
  }

  // ---------------------------------------------------------------------------
  // Stable sort by start time

  /** The `usort` comparator compares `strtotime` of the formatted start times;
      `time` stands for that conversion. */
  function Key(time: string -> int, r: WorklogRow): int {
    time(r.started)
  }

  predicate Sorted(s: seq<WorklogRow>, time: string -> int) {
    forall i, j :: 0 <= i < j < |s| ==> Key(time, s[i]) <= Key(time, s[j])
  }

  /** Where `x` goes in `s` when it is placed after every row it does not
      precede: one step right of the last row whose key is not above its own. */
  function InsertPos(s: seq<WorklogRow>, x: WorklogRow, time: string -> int): (p: nat)
    ensures p <= |s|
    ensures forall i :: p <= i < |s| ==> Key(time, s[i]) > Key(time, x)
    ensures p > 0 ==> Key(time, s[p - 1]) <= Key(time, x)
  {
    if s == [] then 0
    else if Key(time, s[|s| - 1]) <= Key(time, x) then |s|
    else InsertPos(s[..|s| - 1], x, time)
  }

  /** `x` put into `s` after every row whose key is not above its own, found by
      walking from the right as an insertion sort shifts. */
  function Insert(s: seq<WorklogRow>, x: WorklogRow, time: string -> int): seq<WorklogRow> {
    if s == [] then [x]
    else if Key(time, s[|s| - 1]) <= Key(time, x) then s + [x]
    else Insert(s[..|s| - 1], x, time) + [s[|s| - 1]]
  }

  /** Rows ordered by key, rows with equal keys left in their input order:
      what PHP 8's stable `usort` produces with this comparator. */
  function StableSort(s: seq<WorklogRow>, time: string -> int): seq<WorklogRow> {
    if s == [] then [] else Insert(StableSort(s[..|s| - 1], time), s[|s| - 1], time)
  }

  lemma {:induction false} InsertAt(s: seq<WorklogRow>, x: WorklogRow, time: string -> int)
    ensures var p := InsertPos(s, x, time);
      Insert(s, x, time) == s[..p] + [x] + s[p..]
  {
    if s != [] && Key(time, s[|s| - 1]) > Key(time, x) {
      var t := s[..|s| - 1];
      InsertAt(t, x, time);
      var p := InsertPos(t, x, time);
      assert t[..p] == s[..p];
      assert t[p..] + [s[|s| - 1]] == s[p..];
    }
  }

  lemma {:induction false} InsertKeepsSorted(s: seq<WorklogRow>, x: WorklogRow, time: string -> int)
    requires Sorted(s, time)
    ensures Sorted(Insert(s, x, time), time)
  {
    InsertAt(s, x, time);
    var p := InsertPos(s, x, time);
    var r := s[..p] + [x] + s[p..];
    assert forall m :: 0 <= m < p ==> r[m] == s[m];
    assert forall m :: p < m < |r| ==> r[m] == s[m - 1];
    forall i, j | 0 <= i < j < |r| ensures Key(time, r[i]) <= Key(time, r[j]) {
      if j < p {
      } else if i < p && j == p {
        assert Key(time, s[i]) <= Key(time, s[p - 1]);
      } else if i < p {
        assert Key(time, s[i]) <= Key(time, s[j - 1]);
      } else if i == p {
        assert Key(time, r[j]) > Key(time, x);
      } else {
        assert Key(time, s[i - 1]) <= Key(time, s[j - 1]);
      }
    }
  }

  /** The sort orders the rows by start time. */
  lemma {:induction false} StableSortSorted(s: seq<WorklogRow>, time: string -> int)
    ensures Sorted(StableSort(s, time), time)
  {
    if s != [] {
      StableSortSorted(s[..|s| - 1], time);
      InsertKeepsSorted(StableSort(s[..|s| - 1], time), s[|s| - 1], time);
    }
  }

  /** The sort neither loses, adds nor duplicates a row. */
  lemma {:induction false} StableSortPermutes(s: seq<WorklogRow>, time: string -> int)
    ensures multiset(StableSort(s, time)) == multiset(s)
  {
    if s != [] {
      var t, x := s[..|s| - 1], s[|s| - 1];
      StableSortPermutes(t, time);
      InsertPermutes(StableSort(t, time), x, time);
      assert s == t + [x];
    }
  }

  lemma InsertPermutes(u: seq<WorklogRow>, x: WorklogRow, time: string -> int)
    ensures multiset(Insert(u, x, time)) == multiset(u) + multiset{x}
  {
    InsertAt(u, x, time);
    var p := InsertPos(u, x, time);
    assert u == u[..p] + u[p..];
    assert multiset(u[..p] + [x] + u[p..]) == multiset(u[..p]) + multiset{x} + multiset(u[p..]);
  }

  /** The rows whose key is `k`, in order. */
  function WithKey(s: seq<WorklogRow>, k: int, time: string -> int): seq<WorklogRow> {
    if s == [] then []
    else WithKey(s[..|s| - 1], k, time) + (if Key(time, s[|s| - 1]) == k then [s[|s| - 1]] else [])
  }

  lemma {:induction false} WithKeyAppend(a: seq<WorklogRow>, b: seq<WorklogRow>, k: int, time: string -> int)
    ensures WithKey(a + b, k, time) == WithKey(a, k, time) + WithKey(b, k, time)
  {
    if b != [] {
      assert (a + b)[..|a + b| - 1] == a + b[..|b| - 1];
      WithKeyAppend(a, b[..|b| - 1], k, time);
    } else {
      assert a + b == a;
    }
  }

  lemma {:induction false} WithKeyAbove(s: seq<WorklogRow>, k: int, time: string -> int)
    requires forall i :: 0 <= i < |s| ==> Key(time, s[i]) > k
    ensures WithKey(s, k, time) == []
  {
    if s != [] {
      WithKeyAbove(s[..|s| - 1], k, time);
    }
  }

  lemma WithKeySingle(x: WorklogRow, k: int, time: string -> int)
    ensures WithKey([x], k, time) == if Key(time, x) == k then [x] else []
  {
    assert [x][..0] == [];
  }

  /** Moving `x` over rows leaves the rows with key `k` in the same order when
      `x` or those rows have no row with that key. */
  lemma WithKeySplice(lo: seq<WorklogRow>, x: WorklogRow, hi: seq<WorklogRow>, k: int, time: string -> int)
    requires WithKey([x], k, time) == [] || WithKey(hi, k, time) == []
    ensures WithKey(lo + [x] + hi, k, time) == WithKey(lo + hi, k, time) + WithKey([x], k, time)
  {
    var a, w, h := WithKey(lo, k, time), WithKey([x], k, time), WithKey(hi, k, time);
    WithKeyAppend(lo + [x], hi, k, time);
    WithKeyAppend(lo, [x], k, time);
    WithKeyAppend(lo, hi, k, time);
    assert a + w + h == a + h + w;
  }

  lemma InsertWithKey(s: seq<WorklogRow>, x: WorklogRow, k: int, time: string -> int)
    ensures WithKey(Insert(s, x, time), k, time)
         == WithKey(s, k, time) + (if Key(time, x) == k then [x] else [])
  {
    InsertAt(s, x, time);
    var p := InsertPos(s, x, time);
    assert s == s[..p] + s[p..];
    WithKeySingle(x, k, time);
    if Key(time, x) == k {
      WithKeyAbove(s[p..], k, time);
    }
    WithKeySplice(s[..p], x, s[p..], k, time);
  }

  /** Stability: the rows that share a start time keep their relative order. */
  lemma {:induction false} StableSortIsStable(s: seq<WorklogRow>, k: int, time: string -> int)
    ensures WithKey(StableSort(s, time), k, time) == WithKey(s, k, time)
  {
    if s != [] {
      StableSortIsStable(s[..|s| - 1], k, time);
      InsertWithKey(StableSort(s[..|s| - 1], time), s[|s| - 1], k, time);
    }
  }

  /** Where the shifting stops, past every row above `x` and at a row not
      above it, is where `Insert` puts `x`. */
  lemma InsertStop(p: seq<WorklogRow>, j: nat, x: WorklogRow, q: seq<WorklogRow>, time: string -> int)
    requires j <= |p| && (j == 0 || Key(time, p[j - 1]) <= Key(time, x))
    requires forall k :: j <= k < |p| ==> Key(time, p[k]) > Key(time, x)
    requires |q| == |p| + 1 && q[j] == x
    requires forall k :: 0 <= k < j ==> q[k] == p[k]
    requires forall k :: j < k < |q| ==> q[k] == p[k - 1]
    ensures q == Insert(p, x, time)
  {
    InsertAt(p, x, time);
    var pos := InsertPos(p, x, time);
    assert pos == j;
    var r := p[..j] + [x] + p[j..];
    forall k | 0 <= k < |q| ensures q[k] == r[k] {
      if k < j {
        assert r[k] == p[k];
      } else if k > j {
        assert r[k] == p[k - 1];
      }
    }
  }

  /** One pass of the insertion sort: shift the rows of `a[..i]` whose key is
      above that of `a[i]` one step right and put `a[i]` into the gap. */
  method InsertLast(a: array<WorklogRow>, i: nat, time: string -> int)
    requires i < a.Length
    modifies a
    ensures a[..i + 1] == Insert(old(a[..i]), old(a[i]), time)
    ensures a[i + 1..] == old(a[i + 1..])
  {
    ghost var p := a[..i];
    var x := a[i];
    var j := i;
    while j > 0 && Key(time, a[j - 1]) > Key(time, x)
      invariant 0 <= j <= i
      invariant forall k :: 0 <= k < j ==> a[k] == p[k]
      invariant forall k :: j < k <= i ==> a[k] == p[k - 1]
      invariant forall k :: i < k < a.Length ==> a[k] == old(a[k])
      invariant forall k :: j <= k < i ==> Key(time, p[k]) > Key(time, x)
    {
      a[j] := a[j - 1];
      j := j - 1;
    }
    a[j] := x;
    InsertStop(p, j, x, a[..i + 1], time);
  }

  /** `usort`, in place: an insertion sort that shifts every larger row one
      step right and drops the current row into the gap. */
  method SortByStarted(a: array<WorklogRow>, time: string -> int)
    modifies a
    ensures a[..] == StableSort(old(a[..]), time)
  {
    ghost var input := a[..];
    var i := 0;
    while i < a.Length
      invariant 0 <= i <= a.Length
      invariant a[..i] == StableSort(input[..i], time)
      invariant a[i..] == input[i..]
    {
      assert a[i] == input[i];
      InsertLast(a, i, time);
      assert input[..i + 1][..i] == input[..i];
      assert a[i + 1..] == input[i + 1..];
      i := i + 1;
    }
    assert input[..a.Length] == input;
  }

  // ---------------------------------------------------------------------------
  // Filter and total

  /** The `--email` filter: `all` keeps every row, any other value only the rows
      of the author with exactly that address, in order. */
  function FilterEmail(rows: seq<WorklogRow>, email: string): (kept: seq<WorklogRow>)
    ensures email == ALL ==> kept == rows
  {
    if email == ALL then rows else OfAuthor(rows, email)
  }

  function OfAuthor(rows: seq<WorklogRow>, email: string): seq<WorklogRow> {
    if rows == [] then []
    else (if rows[0].authorEmail == email then [rows[0]] else []) + OfAuthor(rows[1..], email)
  }

  /** The author filter keeps exactly the rows with that address, each as many
      times as it occurs, in their order. */
  lemma {:induction false} OfAuthorExactly(rows: seq<WorklogRow>, email: string)
    ensures forall r :: r in OfAuthor(rows, email) <==> r in rows && r.authorEmail == email
    ensures forall r :: multiset(OfAuthor(rows, email))[r] == if r.authorEmail == email then multiset(rows)[r] else 0
    ensures Subsequence(OfAuthor(rows, email), rows)
  {
    if rows != [] {
      OfAuthorExactly(rows[1..], email);
      var rest := OfAuthor(rows[1..], email);
      assert rows == [rows[0]] + rows[1..];
      if rows[0].authorEmail == email {
        assert OfAuthor(rows, email) == [rows[0]] + rest;
        assert (OfAuthor(rows, email))[1..] == rest;
      } else {
        assert OfAuthor(rows, email) == rest;
        if rest != [] {
          assert rest[0] in rest;
        }
      }
    }
  }

  /** A lower bound on the keys of the rows bounds the keys of the kept rows. */
  lemma {:induction false} OfAuthorAbove(rows: seq<WorklogRow>, email: string, k: int, time: string -> int)
    requires forall i :: 0 <= i < |rows| ==> k <= Key(time, rows[i])
    ensures forall i :: 0 <= i < |OfAuthor(rows, email)| ==> k <= Key(time, OfAuthor(rows, email)[i])
  {
    if rows != [] {
      assert forall i :: 0 <= i < |rows[1..]| ==> rows[1..][i] == rows[i + 1];
      OfAuthorAbove(rows[1..], email, k, time);
    }
  }

  /** Filtering sorted rows leaves them sorted. */
  lemma {:induction false} OfAuthorSorted(rows: seq<WorklogRow>, email: string, time: string -> int)
    requires Sorted(rows, time)
    ensures Sorted(OfAuthor(rows, email), time)
  {
    if rows != [] {
      var tail := rows[1..];
      assert Sorted(tail, time) by {
        assert forall i :: 0 <= i < |tail| ==> tail[i] == rows[i + 1];
      }
      OfAuthorSorted(tail, email, time);
      var rest := OfAuthor(tail, email);
      if rows[0].authorEmail == email {
        assert forall i :: 0 <= i < |tail| ==> Key(time, rows[0]) <= Key(time, tail[i]) by {
          assert forall i :: 0 <= i < |tail| ==> tail[i] == rows[i + 1];
        }
        OfAuthorAbove(tail, email, Key(time, rows[0]), time);
        var r := [rows[0]] + rest;
        assert OfAuthor(rows, email) == r;
        forall i, j | 0 <= i < j < |r| ensures Key(time, r[i]) <= Key(time, r[j]) {
          assert r[j] == rest[j - 1];
          if i > 0 {
            assert r[i] == rest[i - 1];
          }
        }
      } else {
        assert OfAuthor(rows, email) == rest;
      }
    }
  }

  /** The `array_reduce` sum of `timeSpentSeconds`. */
  function Total(rows: seq<WorklogRow>): int {
    if rows == [] then 0 else rows[0].timeSpentSeconds + Total(rows[1..])
  }

  lemma {:induction false} TotalAppend(a: seq<WorklogRow>, b: seq<WorklogRow>)
    ensures Total(a + b) == Total(a) + Total(b)
  {
    if a != [] {
      assert (a + b)[1..] == a[1..] + b;
      TotalAppend(a[1..], b);
    } else {
      assert a + b == b;
    }
  }

  lemma {:induction false} OfAuthorAppend(a: seq<WorklogRow>, b: seq<WorklogRow>, email: string)
    ensures OfAuthor(a + b, email) == OfAuthor(a, email) + OfAuthor(b, email)
  {
    if a != [] {
      assert (a + b)[1..] == a[1..] + b;
      OfAuthorAppend(a[1..], b, email);
    } else {
      assert a + b == b;
    }
  }

  lemma TotalFilterAppend(a: seq<WorklogRow>, b: seq<WorklogRow>, email: string)
    ensures Total(FilterEmail(a + b, email)) == Total(FilterEmail(a, email)) + Total(FilterEmail(b, email))
  {
    if email == ALL {
      TotalAppend(a, b);
    } else {
      OfAuthorAppend(a, b, email);
      TotalAppend(OfAuthor(a, email), OfAuthor(b, email));
    }
  }

  lemma TotalOfInsert(s: seq<WorklogRow>, x: WorklogRow, email: string, time: string -> int)
    ensures Total(FilterEmail(Insert(s, x, time), email))
         == Total(FilterEmail(s, email)) + Total(FilterEmail([x], email))
  {
    InsertAt(s, x, time);
    var p := InsertPos(s, x, time);
    var lo, hi := s[..p], s[p..];
    assert s == lo + hi;
    assert lo + [x] + hi == lo + ([x] + hi);
    TotalFilterAppend(lo, [x] + hi, email);
    TotalFilterAppend([x], hi, email);
    TotalFilterAppend(lo, hi, email);
  }

  /** The footer total does not depend on the order the sort chose: it is the
      sum over the kept worklogs of the response. */
  lemma {:induction false} TotalIgnoresSort(s: seq<WorklogRow>, email: string, time: string -> int)
    ensures Total(FilterEmail(StableSort(s, time), email)) == Total(FilterEmail(s, email))
  {
    if s != [] {
      var t, x := s[..|s| - 1], s[|s| - 1];
      var u := StableSort(t, time);
      assert StableSort(s, time) == Insert(u, x, time);
      assert Total(FilterEmail(u, email)) == Total(FilterEmail(t, email)) by {
        TotalIgnoresSort(t, email, time);
      }
      assert Total(FilterEmail(Insert(u, x, time), email))
          == Total(FilterEmail(u, email)) + Total(FilterEmail([x], email)) by {
        TotalOfInsert(u, x, email, time);
      }
      assert Total(FilterEmail(s, email)) == Total(FilterEmail(t, email)) + Total(FilterEmail([x], email)) by {
        assert s == t + [x];
        TotalFilterAppend(t, [x], email);
      }
    }
  }

  lemma TotalExamples(started: string)
    ensures Total([]) == 0
    ensures Total([WorklogRow(started, "1", "A", "a@x", "1h", 3600),
                   WorklogRow(started, "2", "A", "a@x", "30m", 1800),
                   WorklogRow(started, "3", "A", "a@x", "15m", 900)]) == 6300
  {
    var rows := [WorklogRow(started, "1", "A", "a@x", "1h", 3600),
                 WorklogRow(started, "2", "A", "a@x", "30m", 1800),
                 WorklogRow(started, "3", "A", "a@x", "15m", 900)];
    assert Total(rows[2..]) == 900 by { assert rows[2..][1..] == []; }
    assert rows[1..][1..] == rows[2..];
    assert rows[1..][0] == rows[1];
  }

  // ---------------------------------------------------------------------------
  // One issue, and the whole command

  /** What one issue's worklogs produce: a table of the kept rows, or nothing
      when no row is kept. */
  function TableFor(issueKey: string, ws: seq<JiraWorklog>, email: string,
                    localTime: string -> string, time: string -> int): (t: Option<Table>)
    ensures t.Some? ==> (t.value.issueKey == issueKey && t.value.rows != []
                         && t.value.total == Total(t.value.rows))
  {
    var kept := FilterEmail(StableSort(ProjectAll(localTime, ws), time), email);
    if kept == [] then None else Some(Table(issueKey, kept, Total(kept)))
  }

  /** What a table holds: with `all`, every worklog of the response, sorted by
      start time; otherwise only the author's worklogs; its total is the sum
      over the kept worklogs whatever order the sort chose; and there is no
      table exactly when no worklog is kept. */
  lemma TableContents(issueKey: string, ws: seq<JiraWorklog>, email: string,
                      localTime: string -> string, time: string -> int)
    ensures var rows := ProjectAll(localTime, ws);
      var t := TableFor(issueKey, ws, email, localTime, time);
      && (t.None? <==> FilterEmail(StableSort(rows, time), email) == [])
      && (t.Some? ==> t.value.total == Total(FilterEmail(rows, email)))
      && (t.Some? && email == ALL ==>
            Sorted(t.value.rows, time) && multiset(t.value.rows) == multiset(rows))
      && (t.Some? && email != ALL ==>
            && (forall r :: r in t.value.rows <==> r in rows && r.authorEmail == email)
            && (forall r :: multiset(t.value.rows)[r] == if r.authorEmail == email then multiset(rows)[r] else 0)
            && Sorted(t.value.rows, time)
            && Subsequence(t.value.rows, StableSort(rows, time)))
  {
    var rows := ProjectAll(localTime, ws);
    var sorted := StableSort(rows, time);
    StableSortSorted(rows, time);
    StableSortPermutes(rows, time);
    TotalIgnoresSort(rows, email, time);
    OfAuthorExactly(sorted, email);
    OfAuthorSorted(sorted, email, time);
    forall r ensures r in sorted <==> r in rows {
      assert r in sorted <==> r in multiset(sorted);
    }
  }

  /** How far the command got through the issue keys: still going with the
      tables printed so far, or stopped by a failed API call. */
  datatype Progress = Running(tables: seq<Table>) | Stopped(tables: seq<Table>, errors: seq<string>, exit: Exit)

  /** The effect of the first `|keys|` iterations of the `foreach`. */
  function Run(keys: seq<string>, api: string -> Result<seq<JiraWorklog>, ApiError>, email: string,
               localTime: string -> string, time: string -> int): Progress
  {
    if keys == [] then Running([])
    else
      var before := Run(keys[..|keys| - 1], api, email, localTime, time);
      var key := keys[|keys| - 1];
      if before.Stopped? then before
      else
        match api(key)
        case Err(Structured(messages)) => Stopped(before.tables, messages, Status(1))
        case Err(Transport(message)) => Stopped(before.tables, [], Died(message))
        case Ok(ws) =>
          match TableFor(key, ws, email, localTime, time)
          case None => before
          case Some(t) => Running(before.tables + [t])
  }

  /** Stopping points: a structured error stops at its issue with status 1,
      and the issues after it are never asked for. */
  lemma {:induction false} RunStopsAtError(keys: seq<string>, api: string -> Result<seq<JiraWorklog>, ApiError>,
                                           email: string, localTime: string -> string, time: string -> int, i: nat)
    requires i < |keys| && api(keys[i]).Err?
    requires forall j :: 0 <= j < i ==> api(keys[j]).Ok?
    ensures Run(keys, api, email, localTime, time).Stopped?
    ensures api(keys[i]).error.Structured? ==>
      Run(keys, api, email, localTime, time).exit == Status(1) &&
      Run(keys, api, email, localTime, time).errors == api(keys[i]).error.messages
    ensures api(keys[i]).error.Transport? ==>
      Run(keys, api, email, localTime, time).exit == Died(api(keys[i]).error.message)
    ensures Run(keys, api, email, localTime, time) == Run(keys[..i + 1], api, email, localTime, time)
  {
    if i + 1 < |keys| {
      var n := |keys| - 1;
      assert keys[..n][i] == keys[i];
      assert forall j :: 0 <= j < i ==> keys[..n][j] == keys[j];
      RunStopsAtError(keys[..n], api, email, localTime, time, i);
      assert keys[..n][..i + 1] == keys[..i + 1];
    } else {
      RunRunning(keys[..i], api, email, localTime, time);
      assert keys[..i + 1] == keys;
    }
  }

  /** Without an error the command keeps going, one table per issue with a kept
      row, in the order of the keys. */
  lemma {:induction false} RunRunning(keys: seq<string>, api: string -> Result<seq<JiraWorklog>, ApiError>,
                                      email: string, localTime: string -> string, time: string -> int)
    requires forall j :: 0 <= j < |keys| ==> api(keys[j]).Ok?
    ensures Run(keys, api, email, localTime, time).Running?
    ensures |Run(keys, api, email, localTime, time).tables| <= |keys|
  {
    if keys != [] {
      var n := |keys| - 1;
      assert forall j :: 0 <= j < n ==> keys[..n][j] == keys[j];
      RunRunning(keys[..n], api, email, localTime, time);
    }
  }

  /** The `foreach` over the issue keys. Returns how the command ends, the error
      lines printed and the tables printed. */
  method Execute(keys: seq<string>, api: string -> Result<seq<JiraWorklog>, ApiError>, email: string,
                 localTime: string -> string, time: string -> int)
    returns (exit: Exit, errors: seq<string>, tables: seq<Table>)
    ensures Run(keys, api, email, localTime, time).Running? ==>
      exit == Status(0) && errors == [] && tables == Run(keys, api, email, localTime, time).tables
    ensures Run(keys, api, email, localTime, time).Stopped? ==>
      var r := Run(keys, api, email, localTime, time);
      exit == r.exit && errors == r.errors && tables == r.tables
  {
    tables := [];
    var i := 0;
    while i < |keys|
      invariant 0 <= i <= |keys|
      invariant Run(keys[..i], api, email, localTime, time) == Running(tables)
    {
      var key := keys[i];
      assert keys[..i + 1][..i] == keys[..i];
      match api(key) {
        case Err(Structured(messages)) =>
          exit, errors := Status(1), messages;
          RunStopped(keys, i + 1, api, email, localTime, time);
          return;
        case Err(Transport(message)) =>
          exit, errors := Died(message), [];
          RunStopped(keys, i + 1, api, email, localTime, time);
          return;
        case Ok(ws) =>
          var a := new WorklogRow[|ws|](k requires 0 <= k < |ws| => Project(localTime, ws[k]));
          assert a[..] == ProjectAll(localTime, ws);
          SortByStarted(a, time);
          var kept := FilterEmail(a[..], email);
          RunNext(keys, i, api, email, localTime, time);
          if kept != [] {
            tables := tables + [Table(key, kept, Total(kept))];
          }
      }
      i := i + 1;
    }
    assert keys[..i] == keys;
    exit, errors := Status(0), [];
  }

  /** One more issue whose worklogs were returned: its table, when it has one,
      follows the tables printed so far. */
  lemma RunNext(keys: seq<string>, i: nat, api: string -> Result<seq<JiraWorklog>, ApiError>,
                email: string, localTime: string -> string, time: string -> int)
    requires i < |keys| && Run(keys[..i], api, email, localTime, time).Running? && api(keys[i]).Ok?
    ensures var before := Run(keys[..i], api, email, localTime, time);
      var t := TableFor(keys[i], api(keys[i]).value, email, localTime, time);
      Run(keys[..i + 1], api, email, localTime, time)
        == if t.Some? then Running(before.tables + [t.value]) else before
  {
    assert keys[..i + 1][..i] == keys[..i];
  }

  /** Once stopped, the later keys change nothing. */
  lemma {:induction false} RunStopped(keys: seq<string>, i: nat, api: string -> Result<seq<JiraWorklog>, ApiError>,
                                      email: string, localTime: string -> string, time: string -> int)
    requires i <= |keys| && Run(keys[..i], api, email, localTime, time).Stopped?
    ensures Run(keys, api, email, localTime, time) == Run(keys[..i], api, email, localTime, time)
    decreases |keys|
  {
    if i < |keys| {
      var n := |keys| - 1;
      assert keys[..n][..i] == keys[..i];
      RunStopped(keys[..n], i, api, email, localTime, time);
    } else {
      assert keys[..i] == keys;
    }
  }
}

/** The `tempo:activity-report` command: read every Tempo worklog of a period
    page by page, look up the Jira issue (and its parent), the author and the
    Tempo account of each, and turn every worklog into one report row. */
module ActivityReport {
  import opened Wrappers
  import opened ArrayOps

  // ---------------------------------------------------------------------------
  // Data

  /** A Tempo account (the fields the report shows). */
  datatype Account = Account(id: int, key: string, name: string, leadId: string, category: string)

  /** A work-attribute definition: its key and the parallel lists of codes and
      labels. */
  datatype WorkAttribute = WorkAttribute(key: string, values: seq<string>, names: seq<string>)

  /** One attribute value attached to a worklog. */
  datatype Attribute = Attribute(key: string, value: string)

  /** A Tempo worklog (the fields the report uses). */
  datatype Worklog = Worklog(
    issueId: int,
    authorId: string,
    startDate: string,
    description: string,
    attributes: seq<Attribute>)

  /** A Jira issue as the search returns it (the fields the report uses).
      `parentId` is `fields.parent.id`, `accountLink` the id in
      `customfield_10122`, `epicLink` the value of `customfield_10011`. */
  datatype IssueDoc = IssueDoc(
    id: int,
    key: string,
    summary: string,
    parentId: Option<int>,
    accountLink: Option<int>,
    epicLink: Option<string>,
    projectKey: string,
    projectName: string,
    issueType: string,
    status: string,
    reporterId: string,
    externalKey: Option<string>,
    externalEpic: Option<string>,
    externalId: Option<string>)

  /** An issue as the command keeps it: the document plus the account attached
      while indexing (`$issue['account']`). */
  datatype Issue = Issue(doc: IssueDoc, account: Option<Account>)

  /** An entry of `$this->issues`. Before the issues are indexed the array is the
      list of issue ids, so an entry can still hold a bare id; a lookup whose
      response had no issue stores `null`. */
  datatype Slot = IdSlot(id: int) | NullSlot | IssueSlot(issue: Issue)

  /** A Jira user as `getByAccountId` returns it; `Unknown` is an empty answer. */
  datatype User = Unknown | Known(displayName: string)

  /** Why `getIssue` cannot return an array: the entry is an id, or the stored
      response held no issue. PHP throws a `TypeError` in both cases. */
  datatype IssueError = NotAnIssue(id: int) | NotFound(id: int)

  /** One row of `report.csv` (the columns that are not floats and not blank). */
  datatype ReportRow = ReportRow(
    issueKey: string,
    summary: string,
    workDate: string,
    userAccountId: string,
    fullName: string,
    accountKey: string,
    accountName: string,
    accountLeadId: string,
    accountCategory: string,
    activityName: string,
    issueType: string,
    issueStatus: string,
    projectKey: string,
    projectName: string,
    epicLink: string,
    description: string,
    parentKey: string,
    reporterId: string,
    externalKey: Option<string>,
    externalEpic: Option<string>,
    externalId: Option<string>,
    activity: Option<string>)

  /** A row and the missing-account warning printed while building it. */
  datatype Shaped = Shaped(row: ReportRow, warning: Option<string>)

  /** The lookup caches and the number of network lookups each has made. */
  datatype Caches = Caches(issues: map<int, Slot>, users: map<string, User>, issueFetches: nat, userFetches: nat)

  const ACTIVITY := "_Activity_"
  const NO_PARENT := "-"

  // ---------------------------------------------------------------------------
  // The Tempo worklog pagination

  /** A page of the worklog API: the worklogs and the `metadata` fields used. */
  datatype TempoPage = TempoPage(results: seq<Worklog>, next: Option<string>, offset: int, limit: int)

  /** The worklog API for the fixed period; the argument is the `offset`
      option, absent on the first request. */
  type TempoApi = Option<int> -> TempoPage

  /** `!empty($body['metadata']['next'])`: `null`, `""` and `"0"` are empty. */
  predicate HasNext(page: TempoPage) {
    page.next.Some? && page.next.value != "" && page.next.value != "0"
  }

  /** The request after a page: `offset = metadata.offset + metadata.limit`. */
  function NextRequest(page: TempoPage): Option<int> {
    Some(page.offset + page.limit)
  }

  /** The `k`-th request of the loop. */
  function RequestAt(api: TempoApi, k: nat): Option<int> {
    if k == 0 then None else NextRequest(api(RequestAt(api, k - 1)))
  }

  /** The first `k` requests of the loop. */
  function Requests(api: TempoApi, k: nat): (rs: seq<Option<int>>)
    ensures |rs| == k && forall m :: 0 <= m < k ==> rs[m] == RequestAt(api, m)
  {
    if k == 0 then [] else Requests(api, k - 1) + [RequestAt(api, k - 1)]
  }

  /** The worklogs of the pages fetched for `requests`, merged in fetch order. */
  function Gather(api: TempoApi, requests: seq<Option<int>>): seq<Worklog> {
    if requests == [] then []
    else Gather(api, requests[..|requests| - 1]) + api(requests[|requests| - 1]).results
  }

  /** The requests of one run of the do-while loop: it starts without an
      offset, asks for the next offset after every page with a `next` marker,
      and stops at the first page without one. */
  predicate IsTempoRun(api: TempoApi, requests: seq<Option<int>>) {
    && |requests| >= 1
    && requests[0] == None
    && (forall m :: 0 <= m < |requests| - 1 ==>
          HasNext(api(requests[m])) && requests[m + 1] == NextRequest(api(requests[m])))
    && !HasNext(api(requests[|requests| - 1]))
  }

  /** The do-while loop of `execute`. It terminates only when some page has no
      `next` marker; `bound` is the position of one. */
  method FetchWorklogs(api: TempoApi, ghost bound: nat) returns (requests: seq<Option<int>>, results: seq<Worklog>)
    requires !HasNext(api(RequestAt(api, bound)))
    ensures IsTempoRun(api, requests)
    ensures results == Gather(api, requests)
    ensures |requests| <= bound + 1
  {
    var options: Option<int> := None;
    requests, results := [], [];
    while true
      invariant |requests| <= bound
      invariant options == RequestAt(api, |requests|)
      invariant requests == Requests(api, |requests|)
      invariant forall m :: 0 <= m < |requests| ==> HasNext(api(requests[m]))
      invariant results == Gather(api, requests)
      decreases bound - |requests|
    {
      var body := api(options);
      assert (requests + [options])[..|requests|] == requests;
      requests := requests + [options];
      results := results + body.results;
      if !HasNext(body) {
        break;
      }
      options := NextRequest(body);
    }
  }

  lemma {:induction false} TempoRunPrefix(api: TempoApi, r1: seq<Option<int>>, r2: seq<Option<int>>, m: nat)
    requires IsTempoRun(api, r1) && IsTempoRun(api, r2)
    requires m < |r1| && m < |r2|
    ensures r1[m] == r2[m]
  {
    if m > 0 {
      TempoRunPrefix(api, r1, r2, m - 1);
    }
  }

  /** The loop is deterministic: two runs against the same API make the same
      requests, hence gather the same worklogs. */
  lemma TempoRunUnique(api: TempoApi, r1: seq<Option<int>>, r2: seq<Option<int>>)
    requires IsTempoRun(api, r1) && IsTempoRun(api, r2)
    ensures r1 == r2
  {
    if |r1| < |r2| {
      TempoRunPrefix(api, r1, r2, |r1| - 1);
    } else if |r2| < |r1| {
      TempoRunPrefix(api, r1, r2, |r2| - 1);
    }
    forall m | 0 <= m < |r1| && m < |r2| ensures r1[m] == r2[m] {
      TempoRunPrefix(api, r1, r2, m);
    }
  }

  /** Three pages of two worklogs, the last without a `next` marker: three
      requests and six worklogs. */
  lemma TempoThreePages(w: Worklog, requests: seq<Option<int>>)
    requires IsTempoRun(ThreePages(w), requests)
    ensures requests == [None, Some(2), Some(4)]
    ensures |Gather(ThreePages(w), requests)| == 6
  {
    var api := ThreePages(w);
    assert HasNext(api(None));
    assert |requests| > 1 && requests[1] == Some(2);
    assert HasNext(api(Some(2)));
    assert |requests| > 2 && requests[2] == Some(4);
    assert !HasNext(api(Some(4)));
    assert |requests| == 3;
    assert requests[..2] == [None, Some(2)] && requests[..2][..1] == [None];
    assert Gather(api, [None]) == [w, w];
  }

  function ThreePages(w: Worklog): TempoApi {
    (o: Option<int>) =>
      if o == None then TempoPage([w, w], Some("page2"), 0, 2)
      else if o == Some(2) then TempoPage([w, w], Some("page3"), 2, 2)
      else TempoPage([w, w], None, 4, 2)
  }

  // ---------------------------------------------------------------------------
  // The Jira search pagination (`getIssuesByKey`)

  /** A page of the Jira search: the issues, and the page size and total the
      server reports. */
  datatype SearchPage = SearchPage(issues: seq<IssueDoc>, maxResults: int, total: int)

  /** The search `id in (...)` over the given ids, from the `startAt` given. */
  type SearchApi = (seq<int>, int) -> SearchPage

  /** The do-while condition: fewer issues gathered than the page's `total`,
      and the next `startAt` still below it. */
  predicate Continues(count: int, page: SearchPage, nextStart: int) {
    count < page.total && page.total > nextStart
  }

  function SearchGather(search: SearchApi, keys: seq<int>, starts: seq<int>): seq<IssueDoc> {
    if starts == [] then []
    else SearchGather(search, keys, starts[..|starts| - 1]) + search(keys, starts[|starts| - 1]).issues
  }

  /** The step from call `m` to call `m + 1`: it starts `maxResults` (as call
      `m` reported it) later, and it is made because the condition held. */
  predicate StepAt(search: SearchApi, keys: seq<int>, starts: seq<int>, m: nat)
    requires m + 1 < |starts|
  {
    && starts[m + 1] == starts[m] + search(keys, starts[m]).maxResults
    && Continues(|SearchGather(search, keys, starts[..m + 1])|, search(keys, starts[m]), starts[m + 1])
  }

  predicate Steps(search: SearchApi, keys: seq<int>, starts: seq<int>) {
    forall m: nat :: m + 1 < |starts| ==> StepAt(search, keys, starts, m)
  }

  /** A run of the loop: the first call starts at 0, every later call follows
      from the one before, and the condition fails after the last call. */
  predicate IsSearchRun(search: SearchApi, keys: seq<int>, starts: seq<int>) {
    && |starts| >= 1
    && starts[0] == 0
    && Steps(search, keys, starts)
    && var last := search(keys, starts[|starts| - 1]);
       !Continues(|SearchGather(search, keys, starts)|, last, starts[|starts| - 1] + last.maxResults)
  }

  /** The search never reports an empty page size nor a total above `bound`:
      without a positive page size the loop need not end. */
  ghost predicate SearchBounded(search: SearchApi, bound: nat) {
    forall keys: seq<int>, s: int :: search(keys, s).maxResults > 0 && search(keys, s).total <= bound
  }

  lemma StepsExtend(search: SearchApi, keys: seq<int>, starts: seq<int>, next: int)
    requires |starts| >= 1 && Steps(search, keys, starts)
    requires var last := starts[|starts| - 1];
      next == last + search(keys, last).maxResults
      && Continues(|SearchGather(search, keys, starts)|, search(keys, last), next)
    ensures Steps(search, keys, starts + [next])
  {
    var t := starts + [next];
    forall m: nat | m + 1 < |t| ensures StepAt(search, keys, t, m) {
      assert t[..m + 1] == starts[..m + 1];
      if m + 1 < |starts| {
        assert StepAt(search, keys, starts, m);
      } else {
        assert starts[..m + 1] == starts;
      }
    }
  }

  /** `getIssuesByKey`: the do-while loop, its first pass written out before
      the loop. */
  method GetIssuesByKey(search: SearchApi, keys: seq<int>, ghost bound: nat)
    returns (starts: seq<int>, results: seq<IssueDoc>)
    requires SearchBounded(search, bound)
    ensures IsSearchRun(search, keys, starts)
    ensures results == SearchGather(search, keys, starts)
  {
    var response := search(keys, 0);
    starts, results := [0], response.issues;
    assert starts[..0] == [];
    var startAt := response.maxResults;
    while |results| < response.total && response.total > startAt
      invariant |starts| >= 1 && starts[0] == 0
      invariant Steps(search, keys, starts)
      invariant response == search(keys, starts[|starts| - 1])
      invariant startAt == starts[|starts| - 1] + response.maxResults
      invariant results == SearchGather(search, keys, starts)
      decreases bound - startAt
    {
      StepsExtend(search, keys, starts, startAt);
      ghost var before := starts;
      starts := starts + [startAt];
      assert starts[..|starts| - 1] == before;
      response := search(keys, startAt);
      results := results + response.issues;
      startAt := startAt + response.maxResults;
    }
  }

  /** A first page whose `total` does not exceed its `maxResults` ends the loop
      after one call. */
  lemma SearchSinglePage(search: SearchApi, keys: seq<int>, starts: seq<int>)
    requires IsSearchRun(search, keys, starts)
    requires search(keys, 0).total <= search(keys, 0).maxResults
    ensures starts == [0]
  {
    StepOf(search, keys, starts, 0);
  }

  /** The loop never asks for more once it holds `total` issues. */
  lemma SearchStopsWhenComplete(search: SearchApi, keys: seq<int>, starts: seq<int>, m: nat)
    requires IsSearchRun(search, keys, starts)
    requires m < |starts| && |SearchGather(search, keys, starts[..m + 1])| >= search(keys, starts[m]).total
    ensures m == |starts| - 1
  {
    StepOf(search, keys, starts, m);
  }

  lemma StepOf(search: SearchApi, keys: seq<int>, starts: seq<int>, m: nat)
    requires Steps(search, keys, starts)
    ensures m + 1 < |starts| ==> StepAt(search, keys, starts, m)
  {
  }

  // ---------------------------------------------------------------------------
  // Issue-id list, accounts and work attributes

  function WorklogIssueId(w: Worklog): int {
    w.issueId
  }

  /** `$this->issues` right after the `array_reduce`: position `i` holds the
      `i`-th distinct issue id. */
  function ListSlots(ids: seq<int>): (m: map<int, Slot>)
    ensures forall i :: i in m <==> 0 <= i < |ids|
    ensures forall i :: 0 <= i < |ids| ==> m[i] == IdSlot(ids[i])
  {
    map i | 0 <= i < |ids| :: IdSlot(ids[i])
  }

  /** The issue-id list names every worklog's issue exactly once, in the order
      of first occurrence. */
  lemma IssueIdsOfWorklogs(results: seq<Worklog>)
    ensures var xs := MapSeq(WorklogIssueId, results);
      var ids := Dedup(xs);
      && Distinct(ids)
      && (forall i :: 0 <= i < |results| ==> results[i].issueId in ids)
      && (forall id :: id in ids ==> exists i :: 0 <= i < |results| && results[i].issueId == id)
      && (forall i, j :: 0 <= i < j < |ids| ==> FirstIndex(xs, ids[i]) < FirstIndex(xs, ids[j]))
  {
    var xs := MapSeq(WorklogIssueId, results);
    var ids := Dedup(xs);
    forall i | 0 <= i < |results| ensures results[i].issueId in ids {
      assert xs[i] == results[i].issueId;
    }
    forall id | id in ids ensures exists i :: 0 <= i < |results| && results[i].issueId == id {
      var i :| 0 <= i < |xs| && xs[i] == id;
      assert results[i].issueId == id;
    }
    DedupKeepsFirstOccurrenceOrder(xs);
  }

  function AccountId(a: Account): int {
    a.id
  }

  function SameAccount(a: Account): Account {
    a
  }

  predicate Paired(d: WorkAttribute) {
    |d.values| == |d.names|
  }

  function DefKey(d: WorkAttribute): string {
    d.key
  }

  /** `array_combine($values, $names)`: code to label. */
  function DefTable(d: WorkAttribute): (t: map<string, string>)
    ensures Paired(d) ==> forall c :: c in t <==> c in d.values
  {
    if Paired(d) then Combine(d.values, d.names) else map[]
  }

  /** Index of the first definition whose lists differ in length. */
  function FirstUnpaired(defs: seq<WorkAttribute>): (i: nat)
    ensures i <= |defs|
    ensures forall j :: 0 <= j < i ==> Paired(defs[j])
    ensures i < |defs| ==> !Paired(defs[i])
  {
    if defs == [] then 0 else if !Paired(defs[0]) then 0 else 1 + FirstUnpaired(defs[1..])
  }

  /** The attribute's label when the definitions know its code, otherwise the
      code as it is (`$this->workAttributes[$key][$value] ?? $value`). */
  function Translate(workAttributes: map<string, map<string, string>>, key: string, value: string): (shown: string)
    ensures key in workAttributes && value in workAttributes[key] ==> shown == workAttributes[key][value]
    ensures !(key in workAttributes && value in workAttributes[key]) ==> shown == value
  {
    if key in workAttributes && value in workAttributes[key] then workAttributes[key][value] else value
  }

  function AttributeKey(a: Attribute): string {
    a.key
  }

  function Translator(workAttributes: map<string, map<string, string>>): Attribute -> string {
    (a: Attribute) => Translate(workAttributes, a.key, a.value)
  }

  /** The `$attributes` array of `mapResults`: key to translated value, a later
      attribute with the same key winning. */
  function Attributes(workAttributes: map<string, map<string, string>>, attrs: seq<Attribute>): map<string, string> {
    IndexBy(attrs, AttributeKey, Translator(workAttributes))
  }

  /** The "Activity" column: `$attributes["_Activity_"]`, `null` when absent. */
  function Activity(workAttributes: map<string, map<string, string>>, attrs: seq<Attribute>): Option<string> {
    var m := Attributes(workAttributes, attrs);
    if ACTIVITY in m then Some(m[ACTIVITY]) else None
  }

  /** The activity is the translation of the worklog's last `_Activity_`
      attribute, and there is none when the worklog has no such attribute. */
  lemma ActivityOfAttributes(workAttributes: map<string, map<string, string>>, attrs: seq<Attribute>)
    ensures (forall i :: 0 <= i < |attrs| ==> attrs[i].key != ACTIVITY) ==> Activity(workAttributes, attrs) == None
    ensures forall i :: (0 <= i < |attrs| && attrs[i].key == ACTIVITY
                         && (forall j :: i < j < |attrs| ==> attrs[j].key != ACTIVITY)) ==>
      Activity(workAttributes, attrs) == Some(Translate(workAttributes, ACTIVITY, attrs[i].value))
  {
    forall i | 0 <= i < |attrs| && attrs[i].key == ACTIVITY && (forall j :: i < j < |attrs| ==> attrs[j].key != ACTIVITY)
      ensures Activity(workAttributes, attrs) == Some(Translate(workAttributes, ACTIVITY, attrs[i].value))
    {
      IndexByLastWins(attrs, AttributeKey, Translator(workAttributes), i);
    }
    assert ACTIVITY in Attributes(workAttributes, attrs) ==>
      exists i :: 0 <= i < |attrs| && AttributeKey(attrs[i]) == ACTIVITY;
  }

  /** Over the dictionary built from the definitions, a code is shown as the
      label paired with its last position in the last definition with that
      key. */
  lemma TranslateOfDefinitions(defs: seq<WorkAttribute>, i: nat, c: nat)
    requires i < FirstUnpaired(defs)
    requires forall j :: i < j < FirstUnpaired(defs) ==> defs[j].key != defs[i].key
    requires c < |defs[i].values| && defs[i].values[c] !in defs[i].values[c + 1..]
    ensures Translate(IndexBy(defs[..FirstUnpaired(defs)], DefKey, DefTable), defs[i].key, defs[i].values[c])
         == defs[i].names[c]
  {
    var ps := defs[..FirstUnpaired(defs)];
    assert ps[i] == defs[i];
    forall j | i < j < |ps| ensures DefKey(ps[j]) != DefKey(ps[i]) {
      assert ps[j] == defs[j];
    }
    IndexByLastWins(ps, DefKey, DefTable, i);
    CombineLastWins(defs[i].values, defs[i].names, c);
  }

  /** A code that the last definition with its key does not list is shown as it is. */
  lemma TranslateUnknownCode(defs: seq<WorkAttribute>, i: nat, value: string)
    requires i < FirstUnpaired(defs)
    requires forall j :: i < j < FirstUnpaired(defs) ==> defs[j].key != defs[i].key
    requires value !in defs[i].values
    ensures Translate(IndexBy(defs[..FirstUnpaired(defs)], DefKey, DefTable), defs[i].key, value) == value
  {
    var ps := defs[..FirstUnpaired(defs)];
    assert ps[i] == defs[i];
    forall j | i < j < |ps| ensures DefKey(ps[j]) != DefKey(ps[i]) {
      assert ps[j] == defs[j];
    }
    IndexByLastWins(ps, DefKey, DefTable, i);
  }

  /** A code whose key no definition has is shown as it is. */
  lemma TranslateUnknownKey(defs: seq<WorkAttribute>, key: string, value: string)
    requires forall i :: 0 <= i < FirstUnpaired(defs) ==> defs[i].key != key
    ensures Translate(IndexBy(defs[..FirstUnpaired(defs)], DefKey, DefTable), key, value) == value
  {
    var ps := defs[..FirstUnpaired(defs)];
    assert forall i :: 0 <= i < |ps| ==> ps[i] == defs[i];
  }

  // ---------------------------------------------------------------------------
  // Indexing the issues

  /** `$issue['account']`: the Tempo account the issue links to, `null` when
      the link is empty or names no known account. */
  function AccountOf(accounts: map<int, Account>, d: IssueDoc): (a: Option<Account>)
    ensures a.Some? <==> d.accountLink.Some? && d.accountLink.value in accounts
    ensures a.Some? ==> a.value == accounts[d.accountLink.value]
  {
    if d.accountLink.Some? && d.accountLink.value in accounts then Some(accounts[d.accountLink.value]) else None
  }

  /** Over the accounts stored from the account list, an issue gets the last
      listed account whose id its link names, and none when no listed account
      has that id. */
  lemma AccountOfList(list: seq<Account>, d: IssueDoc)
    ensures (forall i :: 0 <= i < |list| ==> d.accountLink != Some(list[i].id)) ==>
      AccountOf(IndexBy(list, AccountId, SameAccount), d) == None
    ensures forall i :: (0 <= i < |list| && d.accountLink == Some(list[i].id)
                         && (forall j :: i < j < |list| ==> list[j].id != list[i].id)) ==>
      AccountOf(IndexBy(list, AccountId, SameAccount), d) == Some(list[i])
  {
    forall i | 0 <= i < |list| && d.accountLink == Some(list[i].id) && (forall j :: i < j < |list| ==> list[j].id != list[i].id)
      ensures AccountOf(IndexBy(list, AccountId, SameAccount), d) == Some(list[i])
    {
      IndexByLastWins(list, AccountId, SameAccount, i);
    }
    var m := IndexBy(list, AccountId, SameAccount);
    if d.accountLink.Some? && d.accountLink.value in m {
      var i :| 0 <= i < |list| && AccountId(list[i]) == d.accountLink.value;
    }
  }

  function DocId(d: IssueDoc): int {
    d.id
  }

  function Storer(accounts: map<int, Account>): IssueDoc -> Slot {
    (d: IssueDoc) => IssueSlot(Issue(d, AccountOf(accounts, d)))
  }

  /** `empty($this->issues[$k])`: no entry, the id `0`, or `null`. */
  predicate SlotEmpty(slots: map<int, Slot>, k: int) {
    k !in slots || slots[k] == IdSlot(0) || slots[k] == NullSlot
  }

  /** `!empty($issue['fields']['parent']['id'])`. */
  predicate HasParent(d: IssueDoc) {
    d.parentId.Some? && d.parentId.value != 0
  }

  /** Line 127: the issue has a parent whose entry is empty once the issues
      before it, `stored`, are in the dictionary. */
  predicate ParentMissing(base: map<int, Slot>, stored: seq<IssueDoc>, accounts: map<int, Account>, d: IssueDoc) {
    HasParent(d) && SlotEmpty(base + IndexBy(stored, DocId, Storer(accounts)), d.parentId.value)
  }

  /** The parents collected by the first `foreach`: the parent of an issue is
      kept when its entry in `$this->issues`, as it stands at that moment, is
      empty. Entries still hold list positions then, so a parent id equal to
      a position of a non-zero id is not kept. */
  function EpicsOf(base: map<int, Slot>, found: seq<IssueDoc>, accounts: map<int, Account>): (epics: seq<int>)
    ensures forall e :: e in epics ==> exists i :: 0 <= i < |found| && HasParent(found[i]) && found[i].parentId.value == e
  {
    if found == [] then []
    else
      var n := |found| - 1;
      var d := found[n];
      var before := EpicsOf(base, found[..n], accounts);
      assert forall i :: 0 <= i < n ==> found[..n][i] == found[i];
      if ParentMissing(base, found[..n], accounts, d)
      then before + [d.parentId.value]
      else before
  }

  /** One step of the first `foreach`: the last issue's parent is appended
      exactly when it is set and its entry is empty at that point. */
  lemma EpicsOfLast(base: map<int, Slot>, found: seq<IssueDoc>, accounts: map<int, Account>)
    requires found != []
    ensures var n := |found| - 1;
      var p := found[n].parentId;
      EpicsOf(base, found, accounts) ==
        EpicsOf(base, found[..n], accounts)
        + (if ParentMissing(base, found[..n], accounts, found[n]) then [p.value] else [])
  {
  }

  /** A parent whose entry is empty when its issue is stored is collected. */
  lemma {:induction false} EpicsOfCollectsAt(base: map<int, Slot>, found: seq<IssueDoc>, accounts: map<int, Account>, i: nat)
    requires i < |found| && ParentMissing(base, found[..i], accounts, found[i])
    ensures found[i].parentId.value in EpicsOf(base, found, accounts)
    decreases |found|
  {
    var n := |found| - 1;
    EpicsOfLast(base, found, accounts);
    if i < n {
      var prefix := found[..n];
      assert prefix[..i] == found[..i] && prefix[i] == found[i];
      EpicsOfCollectsAt(base, prefix, accounts, i);
    }
  }

  /** The issue at which a collected parent was added. */
  lemma {:induction false} EpicsOfSource(base: map<int, Slot>, found: seq<IssueDoc>, accounts: map<int, Account>, e: int)
    returns (i: nat)
    requires e in EpicsOf(base, found, accounts)
    ensures i < |found| && ParentMissing(base, found[..i], accounts, found[i]) && found[i].parentId.value == e
    decreases |found|
  {
    assert found != [] by {
      assert EpicsOf(base, [], accounts) == [];
    }
    var n := |found| - 1;
    EpicsOfLast(base, found, accounts);
    var prefix := found[..n];
    if e in EpicsOf(base, prefix, accounts) {
      i := EpicsOfSource(base, prefix, accounts, e);
      assert prefix[..i] == found[..i] && prefix[i] == found[i];
    } else {
      i := n;
    }
  }

  /** The converse: a parent is collected only at an issue where it is set
      and its entry is empty once the issues before it are stored. */
  lemma EpicsOfOnlyMissing(base: map<int, Slot>, found: seq<IssueDoc>, accounts: map<int, Account>, e: int)
    requires e in EpicsOf(base, found, accounts)
    ensures exists i :: 0 <= i < |found| && ParentMissing(base, found[..i], accounts, found[i]) && found[i].parentId.value == e
  {
    var i := EpicsOfSource(base, found, accounts, e);
  }

  /** A parent that is missing from the list and that no earlier returned
      issue fills is collected, so it is searched for. */
  lemma EpicsOfCollects(base: map<int, Slot>, found: seq<IssueDoc>, accounts: map<int, Account>, i: nat)
    requires i < |found| && HasParent(found[i]) && SlotEmpty(base, found[i].parentId.value)
    requires forall j :: 0 <= j < i ==> found[j].id != found[i].parentId.value
    ensures found[i].parentId.value in EpicsOf(base, found, accounts)
  {
    var k := found[i].parentId.value;
    assert forall j :: 0 <= j < i ==> found[..i][j] == found[j];
    IndexedEntry(base, found[..i], accounts, k);
    EpicsOfCollectsAt(base, found, accounts, i);
  }

  /** The parent check reads list positions: with the ids `[7, 9]`, an issue whose
      parent is `1` does not add that parent, because entry `1` still holds `9`. */
  lemma EpicCheckReadsPositions(d: IssueDoc, accounts: map<int, Account>)
    requires d.id == 7 && d.parentId == Some(1)
    ensures EpicsOf(ListSlots([7, 9]), [d], accounts) == []
  {
    assert [d][..0] == [];
  }

  /** An issue whose entry was filled by the search holds the last document the
      search returned under its id, with its account attached; an id the
      search did not return keeps what it had. */
  lemma IndexedEntry(base: map<int, Slot>, found: seq<IssueDoc>, accounts: map<int, Account>, k: int)
    ensures var m := base + IndexBy(found, DocId, Storer(accounts));
      && ((forall i :: 0 <= i < |found| ==> found[i].id != k) ==> (k in m <==> k in base) && (k in base ==> m[k] == base[k]))
      && (forall i :: (0 <= i < |found| && found[i].id == k && (forall j :: i < j < |found| ==> found[j].id != k)) ==>
            k in m && m[k] == IssueSlot(Issue(found[i], AccountOf(accounts, found[i]))))
  {
    var idx := IndexBy(found, DocId, Storer(accounts));
    forall i | 0 <= i < |found| && found[i].id == k && (forall j :: i < j < |found| ==> found[j].id != k)
      ensures idx[k] == IssueSlot(Issue(found[i], AccountOf(accounts, found[i])))
    {
      IndexByLastWins(found, DocId, Storer(accounts), i);
    }
    if k in idx {
      var i :| 0 <= i < |found| && DocId(found[i]) == k;
    }
  }

  /** The issue dictionary after indexing: the search run over the ids, then the
      run over the de-duplicated parents found missing, both stored with their
      accounts over the positional list of ids. */
  predicate IssuesIndexed(search: SearchApi, ids: seq<int>, accounts: map<int, Account>,
                          starts: seq<int>, found: seq<IssueDoc>, epicStarts: seq<int>, parents: seq<IssueDoc>,
                          issues: map<int, Slot>)
  {
    var epics := Dedup(EpicsOf(ListSlots(ids), found, accounts));
    && IsSearchRun(search, ids, starts) && found == SearchGather(search, ids, starts)
    && IsSearchRun(search, epics, epicStarts) && parents == SearchGather(search, epics, epicStarts)
    && issues == ListSlots(ids) + IndexBy(found, DocId, Storer(accounts)) + IndexBy(parents, DocId, Storer(accounts))
  }

  /** What `execute` does once the dictionaries are built, from the fetched
      worklogs to the report, given the caches `indexed` hold after the issues
      are indexed and the caches `after` hold at the end. */
  predicate Reported(tempo: TempoApi, search: SearchApi, accounts: map<int, Account>,
                     workAttributes: map<string, map<string, string>>,
                     fetchIssue: int -> seq<IssueDoc>, fetchUser: string -> User,
                     requests: seq<Option<int>>, worklogs: seq<Worklog>, ids: seq<int>,
                     starts: seq<int>, found: seq<IssueDoc>, epicStarts: seq<int>, parents: seq<IssueDoc>,
                     indexed: Caches, report: Report, after: Caches)
  {
    && IsTempoRun(tempo, requests) && worklogs == Gather(tempo, requests)
    && ids == Dedup(MapSeq(WorklogIssueId, worklogs))
    && IssuesIndexed(search, ids, accounts, starts, found, epicStarts, parents, indexed.issues)
    && (forall k :: 0 <= k < |ids| ==> k in indexed.issues)
    && var (mapped, final) := MapAllSpec(indexed, worklogs, Mapper(workAttributes, fetchIssue, fetchUser));
       && after == final
       && (mapped.Err? ==> report == Crashed(LookupFailed(mapped.error)))
       && (mapped.Ok? && worklogs == [] ==> report == Crashed(EmptyReport))
       && (mapped.Ok? && worklogs != [] ==> report == Written(mapped.value))
  }

  // ---------------------------------------------------------------------------
  // Lookups

  /** What `getIssue` returns for a filled entry. */
  function SlotValue(slot: Slot, id: int): Result<Issue, IssueError> {
    match slot
    case IssueSlot(issue) => Ok(issue)
    case IdSlot(_) => Err(NotAnIssue(id))
    case NullSlot => Err(NotFound(id))
  }

  /** What a lookup stores: `$response['issues'][0]`, `null` when there is none. */
  function Fetched(response: seq<IssueDoc>): Slot {
    if response == [] then NullSlot else IssueSlot(Issue(response[0], None))
  }

  /** `getIssue($id)`: a filled entry is returned as it is; an empty one is
      looked up once, stored, and returned. */
  function IssueLookup(c: Caches, id: int, fetch: int -> seq<IssueDoc>): (r: (Result<Issue, IssueError>, Caches))
    ensures !SlotEmpty(c.issues, id) ==> r.1 == c && r.0 == SlotValue(c.issues[id], id)
    ensures SlotEmpty(c.issues, id) ==>
      && r.1 == c.(issues := c.issues[id := Fetched(fetch(id))], issueFetches := c.issueFetches + 1)
      && (fetch(id) != [] <==> r.0.Ok?)
      && (fetch(id) != [] ==> r.0.value == Issue(fetch(id)[0], None))
    ensures forall k :: !SlotEmpty(c.issues, k) ==> k in r.1.issues && r.1.issues[k] == c.issues[k]
    ensures r.1.users == c.users && r.1.userFetches == c.userFetches
  {
    if !SlotEmpty(c.issues, id) then (SlotValue(c.issues[id], id), c)
    else
      var slot := Fetched(fetch(id));
      (SlotValue(slot, id), c.(issues := c.issues[id := slot], issueFetches := c.issueFetches + 1))
  }

  /** Asking twice for an issue that was found fetches it once, and both calls
      return the same issue. */
  lemma IssueLookupTwice(c: Caches, id: int, fetch: int -> seq<IssueDoc>)
    ensures var (r1, c1) := IssueLookup(c, id, fetch);
      var (r2, c2) := IssueLookup(c1, id, fetch);
      r1.Ok? ==> r2 == r1 && c2 == c1 && c1.issueFetches <= c.issueFetches + 1
  {
  }

  /** `getUser($id)`: the same write-once lookup for users. */
  function UserLookup(c: Caches, id: string, fetch: string -> User): (r: (User, Caches))
    ensures (id in c.users && c.users[id] != Unknown) ==> r == (c.users[id], c)
    ensures !(id in c.users && c.users[id] != Unknown) ==>
      r == (fetch(id), c.(users := c.users[id := fetch(id)], userFetches := c.userFetches + 1))
    ensures forall k :: k in c.users && c.users[k] != Unknown ==> k in r.1.users && r.1.users[k] == c.users[k]
    ensures r.1.issues == c.issues && r.1.issueFetches == c.issueFetches
  {
    if id in c.users && c.users[id] != Unknown then (c.users[id], c)
    else
      var u := fetch(id);
      (u, c.(users := c.users[id := u], userFetches := c.userFetches + 1))
  }

  /** A user is fetched once; the second call returns the stored answer. */
  lemma UserLookupTwice(c: Caches, id: string, fetch: string -> User)
    ensures var (u1, c1) := UserLookup(c, id, fetch);
      var (u2, c2) := UserLookup(c1, id, fetch);
      u1 != Unknown ==> u2 == u1 && c2 == c1 && c1.userFetches <= c.userFetches + 1
  {
  }

  // ---------------------------------------------------------------------------
  // Row shaping

  /** An account column: `$account[...]` on `null` is printed empty. */
  function AccountField(account: Option<Account>, f: Account -> string): string {
    if account.Some? then f(account.value) else ""
  }

  function AccountKey(a: Account): string { a.key }
  function AccountName(a: Account): string { a.name }
  function AccountLead(a: Account): string { a.leadId }
  function AccountCategory(a: Account): string { a.category }

  /** The body of `mapResults` once the issue, its parent (when it has one) and
      the author are known. */
  function ShapeRow(log: Worklog, issue: Issue, parent: Option<Issue>, user: User,
                    workAttributes: map<string, map<string, string>>): (s: Shaped)
    ensures s.warning.Some? <==> issue.account.None?
    ensures s.warning.Some? ==> s.warning.value == issue.doc.key
    ensures parent.None? ==> s.row.epicLink == NO_PARENT && s.row.parentKey == NO_PARENT
    ensures parent.Some? ==>
      s.row.parentKey == parent.value.doc.key && s.row.epicLink == parent.value.doc.epicLink.GetOr(NO_PARENT)
    ensures issue.account.None? ==>
      s.row.accountKey == "" && s.row.accountName == "" && s.row.accountLeadId == "" && s.row.accountCategory == ""
    ensures issue.account.Some? ==>
      s.row.accountKey == issue.account.value.key && s.row.accountName == issue.account.value.name
    ensures s.row.activity == Activity(workAttributes, log.attributes)
    ensures s.row.issueKey == issue.doc.key && s.row.userAccountId == log.authorId
      && s.row.description == log.description && s.row.workDate == log.startDate
  {
    var doc := issue.doc;
    var row := ReportRow(
      doc.key, doc.summary, log.startDate, log.authorId,
      if user.Known? then user.displayName else "",
      AccountField(issue.account, AccountKey), AccountField(issue.account, AccountName),
      AccountField(issue.account, AccountLead), AccountField(issue.account, AccountCategory),
      doc.projectName, doc.issueType, doc.status, doc.projectKey, doc.projectName,
      if parent.Some? then parent.value.doc.epicLink.GetOr(NO_PARENT) else NO_PARENT,
      log.description,
      if parent.Some? then parent.value.doc.key else NO_PARENT,
      doc.reporterId, doc.externalKey, doc.externalEpic, doc.externalId,
      Activity(workAttributes, log.attributes));
    Shaped(row, if issue.account.None? then Some(doc.key) else None)
  }

  /** The row carries its worklog's own author, date, description and
      activity. */
  predicate RowOf(shaped: Shaped, log: Worklog, workAttributes: map<string, map<string, string>>) {
    && shaped.row.userAccountId == log.authorId
    && shaped.row.workDate == log.startDate
    && shaped.row.description == log.description
    && shaped.row.activity == Activity(workAttributes, log.attributes)
  }

  /** `mapResults($result)`: look up the issue, then its parent when it has one,
      then the author, and shape the row. A lookup that cannot return an issue
      ends the command. */
  function MapStep(c: Caches, workAttributes: map<string, map<string, string>>, log: Worklog,
                   fetchIssue: int -> seq<IssueDoc>, fetchUser: string -> User): (r: (Result<Shaped, IssueError>, Caches))
    ensures r.0.Ok? ==> RowOf(r.0.value, log, workAttributes)
    ensures r.0.Ok? ==> 
      var issue := IssueLookup(c, log.issueId, fetchIssue).0;
      issue.Ok? && r.0.value.row.issueKey == issue.value.doc.key
      && (r.0.value.warning.Some? <==> issue.value.account.None?)
    ensures r.0.Err? ==> r.1.users == c.users
    ensures forall k :: !SlotEmpty(c.issues, k) ==> k in r.1.issues && r.1.issues[k] == c.issues[k]
  {
    var (issue, c1) := IssueLookup(c, log.issueId, fetchIssue);
    if issue.Err? then (Err(issue.error), c1)
    else
      var (parent, c2) :=
        if HasParent(issue.value.doc) then IssueLookup(c1, issue.value.doc.parentId.value, fetchIssue)
        else (Ok(issue.value), c1);
      if parent.Err? then (Err(parent.error), c2)
      else
        var (user, c3) := UserLookup(c2, log.authorId, fetchUser);
        var p := if HasParent(issue.value.doc) then Some(parent.value) else None;
        (Ok(ShapeRow(log, issue.value, p, user, workAttributes)), c3)
  }

  type Step = (Caches, Worklog) -> (Result<Shaped, IssueError>, Caches)

  function Mapper(workAttributes: map<string, map<string, string>>,
                  fetchIssue: int -> seq<IssueDoc>, fetchUser: string -> User): Step {
    (c: Caches, log: Worklog) => MapStep(c, workAttributes, log, fetchIssue, fetchUser)
  }

  /** `array_map([$this, 'mapResults'], $results)` over the first worklogs,
      ending at the first failed lookup. */
  function MapAllSpec(c: Caches, logs: seq<Worklog>, step: Step): (Result<seq<Shaped>, IssueError>, Caches) {
    if logs == [] then (Ok([]), c)
    else
      var n := |logs| - 1;
      var (before, c1) := MapAllSpec(c, logs[..n], step);
      if before.Err? then (before, c1)
      else
        var (one, c2) := step(c1, logs[n]);
        if one.Err? then (Err(one.error), c2) else (Ok(before.value + [one.value]), c2)
  }

  /** A step whose every row belongs to the worklog it was made from. */
  ghost predicate KeepsRows(step: Step, workAttributes: map<string, map<string, string>>) {
    forall c: Caches, log: Worklog :: step(c, log).0.Ok? ==> RowOf(step(c, log).0.value, log, workAttributes)
  }

  lemma MapperKeepsRows(workAttributes: map<string, map<string, string>>,
                        fetchIssue: int -> seq<IssueDoc>, fetchUser: string -> User)
    ensures KeepsRows(Mapper(workAttributes, fetchIssue, fetchUser), workAttributes)
  {
    var step := Mapper(workAttributes, fetchIssue, fetchUser);
    forall c: Caches, log: Worklog
      ensures step(c, log).0.Ok? ==> RowOf(step(c, log).0.value, log, workAttributes)
    {
      assert step(c, log) == MapStep(c, workAttributes, log, fetchIssue, fetchUser);
    }
  }

  lemma {:induction false} MapAllKeepsRows(c: Caches, logs: seq<Worklog>, step: Step,
                                          workAttributes: map<string, map<string, string>>)
    requires KeepsRows(step, workAttributes)
    ensures var r := MapAllSpec(c, logs, step).0;
      r.Ok? ==> |r.value| == |logs| && forall i :: 0 <= i < |logs| ==> RowOf(r.value[i], logs[i], workAttributes)
  {
    if logs != [] {
      var n := |logs| - 1;
      MapAllKeepsRows(c, logs[..n], step, workAttributes);
      var (before, c1) := MapAllSpec(c, logs[..n], step);
      var one := step(c1, logs[n]).0;
      if before.Ok? && one.Ok? {
        var rows := before.value + [one.value];
        assert MapAllSpec(c, logs, step).0 == Ok(rows);
        forall i | 0 <= i < |logs| ensures RowOf(rows[i], logs[i], workAttributes) {
          if i < n {
            assert rows[i] == before.value[i] && logs[..n][i] == logs[i];
          }
        }
      }
    }
  }

  /** Every worklog gives one row, in order, carrying its own author,
      description, date and activity. */
  lemma MapAllRows(c: Caches, workAttributes: map<string, map<string, string>>, logs: seq<Worklog>,
                   fetchIssue: int -> seq<IssueDoc>, fetchUser: string -> User)
    ensures var r := MapAllSpec(c, logs, Mapper(workAttributes, fetchIssue, fetchUser)).0;
      r.Ok? ==> |r.value| == |logs| && forall i :: 0 <= i < |logs| ==> RowOf(r.value[i], logs[i], workAttributes)
  {
    MapperKeepsRows(workAttributes, fetchIssue, fetchUser);
    MapAllKeepsRows(c, logs, Mapper(workAttributes, fetchIssue, fetchUser), workAttributes);
  }

  /** The lookups never overwrite a filled entry: an issue stored while
      indexing is the one every row sees. */
  lemma {:induction false} MapAllKeepsFilled(c: Caches, workAttributes: map<string, map<string, string>>, logs: seq<Worklog>,
                                            fetchIssue: int -> seq<IssueDoc>, fetchUser: string -> User, k: int)
    requires !SlotEmpty(c.issues, k)
    ensures var c' := MapAllSpec(c, logs, Mapper(workAttributes, fetchIssue, fetchUser)).1;
      k in c'.issues && c'.issues[k] == c.issues[k]
  {
    if logs != [] {
      var n := |logs| - 1;
      MapAllKeepsFilled(c, workAttributes, logs[..n], fetchIssue, fetchUser, k);
      var c1 := MapAllSpec(c, logs[..n], Mapper(workAttributes, fetchIssue, fetchUser)).1;
      var c2 := MapStep(c1, workAttributes, logs[n], fetchIssue, fetchUser).1;
      assert k in c2.issues && c2.issues[k] == c1.issues[k];
    }
  }

  // ---------------------------------------------------------------------------
  // The command

  /** How the command ends: the report written, or a crash. */
  datatype Crash = UnpairedAttributes | LookupFailed(error: IssueError) | EmptyReport
  datatype Report = Written(shaped: seq<Shaped>) | Crashed(reason: Crash)

  class ReportCommand {
    var accounts: map<int, Account>
    var workAttributes: map<string, map<string, string>>
    var issues: map<int, Slot>
    var users: map<string, User>
    var issueFetches: nat
    var userFetches: nat
    /** The Jira search `id = <id>` and the user API, the lookups behind the caches. */
    const lookupIssue: int -> seq<IssueDoc>
    const lookupUser: string -> User

    function Snapshot(): Caches
      reads this
    {
      Caches(issues, users, issueFetches, userFetches)
    }

    constructor(lookupIssue: int -> seq<IssueDoc>, lookupUser: string -> User)
      ensures this.lookupIssue == lookupIssue && this.lookupUser == lookupUser
      ensures accounts == map[] && workAttributes == map[] && issues == map[] && users == map[]
      ensures issueFetches == 0 && userFetches == 0
    {
      this.lookupIssue := lookupIssue;
      this.lookupUser := lookupUser;
      accounts, workAttributes, issues, users := map[], map[], map[], map[];
      issueFetches, userFetches := 0, 0;
    }

    /** The `foreach` storing every account under its id. */
    method IndexAccounts(list: seq<Account>)
      modifies this
      ensures accounts == old(accounts) + IndexBy(list, AccountId, SameAccount)
      ensures workAttributes == old(workAttributes) && Snapshot() == old(Snapshot())
    {
      var i := 0;
      while i < |list|
        invariant 0 <= i <= |list|
        invariant accounts == old(accounts) + IndexBy(list[..i], AccountId, SameAccount)
        invariant workAttributes == old(workAttributes) && Snapshot() == old(Snapshot())
      {
        IndexByExtend(old(accounts), list, AccountId, SameAccount, i);
        accounts := accounts[list[i].id := list[i]];
        i := i + 1;
      }
      assert list[..i] == list;
    }

    /** The `foreach` storing every definition's code-to-label table under its
        key. `array_combine` throws at the first definition whose lists differ
        in length, which ends the command (`ok` false); the tables stored before
        it stay. */
    method IndexWorkAttributes(defs: seq<WorkAttribute>) returns (ok: bool)
      modifies this
      ensures ok <==> forall j :: 0 <= j < |defs| ==> Paired(defs[j])
      ensures workAttributes == old(workAttributes) + IndexBy(defs[..FirstUnpaired(defs)], DefKey, DefTable)
      ensures ok ==> workAttributes == old(workAttributes) + IndexBy(defs, DefKey, DefTable)
      ensures accounts == old(accounts) && Snapshot() == old(Snapshot())
    {
      workAttributes, ok := IndexDefinitions(workAttributes, defs);
    }

    method GetIssue(id: int) returns (r: Result<Issue, IssueError>)
      modifies this
      ensures (r, Snapshot()) == IssueLookup(old(Snapshot()), id, lookupIssue)
      ensures accounts == old(accounts) && workAttributes == old(workAttributes)
    {
      if !SlotEmpty(issues, id) {
        return SlotValue(issues[id], id);
      }
      var response := lookupIssue(id);
      issueFetches := issueFetches + 1;
      issues := issues[id := Fetched(response)];
      return SlotValue(issues[id], id);
    }

    method GetUser(id: string) returns (u: User)
      modifies this
      ensures (u, Snapshot()) == UserLookup(old(Snapshot()), id, lookupUser)
      ensures accounts == old(accounts) && workAttributes == old(workAttributes)
    {
      if !(id in users && users[id] != Unknown) {
        var response := lookupUser(id);
        userFetches := userFetches + 1;
        users := users[id := response];
      }
      return users[id];
    }

    /** `mapResults`. */
    method MapResult(log: Worklog) returns (r: Result<Shaped, IssueError>)
      modifies this
      ensures (r, Snapshot()) == MapStep(old(Snapshot()), workAttributes, log, lookupIssue, lookupUser)
      ensures accounts == old(accounts) && workAttributes == old(workAttributes)
    {
      var issue := GetIssue(log.issueId);
      if issue.Err? {
        return Err(issue.error);
      }
      var parent: Option<Issue> := None;
      if HasParent(issue.value.doc) {
        var p := GetIssue(issue.value.doc.parentId.value);
        if p.Err? {
          return Err(p.error);
        }
        parent := Some(p.value);
      }
      var user := GetUser(log.authorId);
      return Ok(ShapeRow(log, issue.value, parent, user, workAttributes));
    }

    /** The `array_map` over all worklogs. */
    method MapAll(logs: seq<Worklog>) returns (r: Result<seq<Shaped>, IssueError>)
      modifies this
      ensures (r, Snapshot()) == MapAllSpec(old(Snapshot()), logs, Mapper(workAttributes, lookupIssue, lookupUser))
      ensures accounts == old(accounts) && workAttributes == old(workAttributes)
    {
      var rows: seq<Shaped> := [];
      var i := 0;
      while i < |logs|
        invariant 0 <= i <= |logs|
        invariant (Ok(rows), Snapshot()) == MapAllSpec(old(Snapshot()), logs[..i], Mapper(workAttributes, lookupIssue, lookupUser))
        invariant accounts == old(accounts) && workAttributes == old(workAttributes)
      {
        assert logs[..i + 1][..i] == logs[..i];
        var step := MapResult(logs[i]);
        if step.Err? {
          MapAllStopped(old(Snapshot()), logs, i + 1, Mapper(workAttributes, lookupIssue, lookupUser));
          return Err(step.error);
        }
        rows := rows + [step.value];
        i := i + 1;
      }
      assert logs[..i] == logs;
      return Ok(rows);
    }

    /** A `foreach` storing every issue the search returned under its id, with
        its account attached. */
    method StoreIssues(found: seq<IssueDoc>)
      modifies this
      ensures issues == old(issues) + IndexBy(found, DocId, Storer(accounts))
      ensures users == old(users) && issueFetches == old(issueFetches) && userFetches == old(userFetches)
      ensures accounts == old(accounts) && workAttributes == old(workAttributes)
    {
      var i := 0;
      while i < |found|
        invariant 0 <= i <= |found|
        invariant issues == old(issues) + IndexBy(found[..i], DocId, Storer(accounts))
        invariant users == old(users) && issueFetches == old(issueFetches) && userFetches == old(userFetches)
        invariant accounts == old(accounts) && workAttributes == old(workAttributes)
      {
        var d := found[i];
        IndexByExtend(old(issues), found, DocId, Storer(accounts), i);
        issues := issues[d.id := IssueSlot(Issue(d, AccountOf(accounts, d)))];
        i := i + 1;
      }
      assert found[..i] == found;
    }

    /** The first `foreach` over the search result: it also collects the
        parents whose entry is empty at that moment. */
    method StoreIssuesAndParents(found: seq<IssueDoc>) returns (epics: seq<int>)
      modifies this
      ensures issues == old(issues) + IndexBy(found, DocId, Storer(accounts))
      ensures epics == EpicsOf(old(issues), found, accounts)
      ensures users == old(users) && issueFetches == old(issueFetches) && userFetches == old(userFetches)
      ensures accounts == old(accounts) && workAttributes == old(workAttributes)
    {
      ghost var base := issues;
      epics := [];
      var i := 0;
      while i < |found|
        invariant 0 <= i <= |found|
        invariant issues == base + IndexBy(found[..i], DocId, Storer(accounts))
        invariant epics == EpicsOf(base, found[..i], accounts)
        invariant users == old(users) && issueFetches == old(issueFetches) && userFetches == old(userFetches)
        invariant accounts == old(accounts) && workAttributes == old(workAttributes)
      {
        var d := found[i];
        assert found[..i + 1][..i] == found[..i];
        if HasParent(d) && SlotEmpty(issues, d.parentId.value) {
          epics := epics + [d.parentId.value];
        }
        IndexByExtend(base, found, DocId, Storer(accounts), i);
        issues := issues[d.id := IssueSlot(Issue(d, AccountOf(accounts, d)))];
        i := i + 1;
      }
      assert found[..i] == found;
    }

    /** The issue-indexing part of `execute`: the list of ids becomes the
        dictionary, the search results are stored with their accounts, the
        parents found missing are searched and stored too. */
    method IndexIssues(ids: seq<int>, search: SearchApi, ghost bound: nat)
      returns (starts: seq<int>, found: seq<IssueDoc>, epics: seq<int>, epicStarts: seq<int>, parents: seq<IssueDoc>)
      requires SearchBounded(search, bound)
      modifies this
      ensures IsSearchRun(search, ids, starts) && found == SearchGather(search, ids, starts)
      ensures epics == EpicsOf(ListSlots(ids), found, accounts)
      ensures IsSearchRun(search, Dedup(epics), epicStarts) && parents == SearchGather(search, Dedup(epics), epicStarts)
      ensures issues == ListSlots(ids) + IndexBy(found, DocId, Storer(accounts)) + IndexBy(parents, DocId, Storer(accounts))
      ensures IssuesIndexed(search, ids, accounts, starts, found, epicStarts, parents, issues)
      ensures forall k :: 0 <= k < |ids| ==> k in issues
      ensures users == old(users) && issueFetches == old(issueFetches) && userFetches == old(userFetches)
      ensures accounts == old(accounts) && workAttributes == old(workAttributes)
    {
      issues := ListSlots(ids);
      starts, found := GetIssuesByKey(search, ids, bound);
      epics := StoreIssuesAndParents(found);
      epicStarts, parents := GetIssuesByKey(search, Dedup(epics), bound);
      StoreIssues(parents);
    }

    /** `execute`: accounts, work attributes, the worklogs of the period, the
        issue index, then one row per worklog. The report needs a first row
        for its header: with no worklog PHP fails on `$results[0]`. */
    method Execute(accountList: seq<Account>, defs: seq<WorkAttribute>, tempo: TempoApi, search: SearchApi,
                   ghost tempoBound: nat, ghost searchBound: nat)
      returns (requests: seq<Option<int>>, worklogs: seq<Worklog>, ids: seq<int>,
               ghost starts: seq<int>, ghost found: seq<IssueDoc>, ghost epicStarts: seq<int>, ghost parents: seq<IssueDoc>,
               ghost indexed: Caches, report: Report)
      requires !HasNext(tempo(RequestAt(tempo, tempoBound)))
      requires SearchBounded(search, searchBound)
      modifies this
      ensures accounts == old(accounts) + IndexBy(accountList, AccountId, SameAccount)
      ensures (exists j :: 0 <= j < |defs| && !Paired(defs[j])) ==>
        report == Crashed(UnpairedAttributes) && requests == [] && Snapshot() == old(Snapshot())
      ensures (forall j :: 0 <= j < |defs| ==> Paired(defs[j])) ==>
        && workAttributes == old(workAttributes) + IndexBy(defs, DefKey, DefTable)
        && indexed.users == old(users) && indexed.issueFetches == old(issueFetches) && indexed.userFetches == old(userFetches)
        && Reported(tempo, search, accounts, workAttributes, lookupIssue, lookupUser, requests, worklogs, ids,
                    starts, found, epicStarts, parents, indexed, report, Snapshot())
    {
      requests, worklogs, ids, indexed := [], [], [], Snapshot();
      starts, found, epicStarts, parents := [], [], [], [];
      IndexAccounts(accountList);
      var ok := IndexWorkAttributes(defs);
      if !ok {
        report := Crashed(UnpairedAttributes);
      } else {
        requests, worklogs, ids, starts, found, epicStarts, parents, indexed, report := Run(tempo, search, tempoBound, searchBound);
      }
    }

    /** The part of `execute` after the dictionaries are built: the worklogs
        are fetched, their issues indexed, and the rows mapped into the report. */
    method Run(tempo: TempoApi, search: SearchApi, ghost tempoBound: nat, ghost searchBound: nat)
      returns (requests: seq<Option<int>>, worklogs: seq<Worklog>, ids: seq<int>,
               ghost starts: seq<int>, ghost found: seq<IssueDoc>, ghost epicStarts: seq<int>, ghost parents: seq<IssueDoc>,
               ghost indexed: Caches, report: Report)
      requires !HasNext(tempo(RequestAt(tempo, tempoBound)))
      requires SearchBounded(search, searchBound)
      modifies this
      ensures accounts == old(accounts) && workAttributes == old(workAttributes)
      ensures indexed.users == old(users) && indexed.issueFetches == old(issueFetches) && indexed.userFetches == old(userFetches)
      ensures Reported(tempo, search, accounts, workAttributes, lookupIssue, lookupUser, requests, worklogs, ids,
                       starts, found, epicStarts, parents, indexed, report, Snapshot())
    {
      requests, worklogs := FetchWorklogs(tempo, tempoBound);
      ids := Dedup(MapSeq(WorklogIssueId, worklogs));
      var epics;
      starts, found, epics, epicStarts, parents := IndexIssues(ids, search, searchBound);
      indexed := Snapshot();
      var mapped := MapAll(worklogs);
      MapAllRows(indexed, workAttributes, worklogs, lookupIssue, lookupUser);
      report :=
        if mapped.Err? then Crashed(LookupFailed(mapped.error))
        else if |mapped.value| == 0 then Crashed(EmptyReport)
        else Written(mapped.value);
    }
  }

  /** The loop of `IndexWorkAttributes` on the dictionary it extends: every
      definition up to the first unpaired one is stored under its key. */
  method IndexDefinitions(base: map<string, map<string, string>>, defs: seq<WorkAttribute>)
    returns (m: map<string, map<string, string>>, ok: bool)
    ensures ok <==> forall j :: 0 <= j < |defs| ==> Paired(defs[j])
    ensures m == base + IndexBy(defs[..FirstUnpaired(defs)], DefKey, DefTable)
    ensures ok ==> m == base + IndexBy(defs, DefKey, DefTable)
  {
    m := base;
    var i := 0;
    while i < |defs| && |defs[i].values| == |defs[i].names|
      invariant 0 <= i <= |defs|
      invariant i + FirstUnpaired(defs[i..]) == FirstUnpaired(defs)
      invariant m == base + IndexBy(defs[..i], DefKey, DefTable)
    {
      IndexByExtend(base, defs, DefKey, DefTable, i);
      FirstUnpairedFrom(defs, i);
      m := m[defs[i].key := Combine(defs[i].values, defs[i].names)];
      i := i + 1;
    }
    ok := i == |defs|;
    assert defs[..|defs|] == defs;
  }

  /** Past a paired definition, the first unpaired one is one step further on. */
  lemma FirstUnpairedFrom(defs: seq<WorkAttribute>, i: nat)
    requires i < |defs| && Paired(defs[i])
    ensures FirstUnpaired(defs[i..]) == 1 + FirstUnpaired(defs[i + 1..])
  {
    assert defs[i..][1..] == defs[i + 1..];
  }

  /** Once a lookup fails, the later worklogs change nothing. */
  lemma {:induction false} MapAllStopped(c: Caches, logs: seq<Worklog>, i: nat, step: Step)
    requires i <= |logs| && MapAllSpec(c, logs[..i], step).0.Err?
    ensures MapAllSpec(c, logs, step) == MapAllSpec(c, logs[..i], step)
    decreases |logs|
  {
    if i < |logs| {
      var n := |logs| - 1;
      assert logs[..n][..i] == logs[..i];
      MapAllStopped(c, logs[..n], i, step);
    } else {
      assert logs[..i] == logs;
    }
  }
}

/** `scripts/gap_snapshot.py`: the two-way ratchet over the gap suite.

    A missing field, a `null` and an empty string are told apart only as far as the script does:
    `None` stands for the first two. */
module GapSnapshot {
  import opened Options
  import opened Sorting

  datatype Status = Pass | ParityFail | CompileFail | Crash | NodeFail | Skipped

  datatype Triage = Triage(issue: Option<string>, added: Option<string>, category: Option<string>, reason: Option<string>)

  /** A snapshot entry: a status and its triage fields. */
  datatype Entry = Entry(status: Status, triage: Triage)

  type Snapshot = map<string, Entry>
  type Statuses = map<string, Status>

  /** What one update reads besides the snapshot: the report of the tests that ran, the date, the
      known-failure table and the test files on disk. */
  datatype Update = Update(report: Statuses, today: string, known: map<string, Triage>, onDisk: set<string>)

  // ---------------------------------------------------------------- one entry

  const NO_TRIAGE := Triage(None, None, None, None)

  predicate Filled(value: Option<string>) {
    value.Some? && value.value != ""
  }

  /** The old value if it is filled, else the known one if that is, else the default. */
  function Field(previous: Option<string>, known: Option<string>, default: Option<string>): Option<string> {
    if Filled(previous) then previous else if Filled(known) then known else default
  }

  function NewEntry(status: Status, previous: Triage, known: Triage, today: string): Entry {
    Entry(status, Triage(
      Field(previous.issue, known.issue, None),
      Field(previous.added, known.added, Some(today)),
      Field(previous.category, known.category, Some("untriaged")),
      Field(previous.reason, known.reason, Some(""))))
  }

  function TriageIn(tests: Snapshot, id: string): Triage {
    if id in tests then tests[id].triage else NO_TRIAGE
  }

  function KnownTriage(u: Update, id: string): Triage {
    if id in u.known then u.known[id] else NO_TRIAGE
  }

  // ---------------------------------------------------------------- merge

  /** The snapshot after an update, test by test. */
  function Merge(u: Update, tests: Snapshot): Snapshot {
    map id | id in tests.Keys + u.report.Keys && id in u.onDisk && !(id in u.report && u.report[id] == Pass) ::
      if id in u.report then NewEntry(u.report[id], TriageIn(tests, id), KnownTriage(u, id), u.today) else tests[id]
  }

  /** `merge`: fold the report into a copy of the snapshot, then prune the tests that left the disk. */
  method MergeReport(u: Update, tests: Snapshot) returns (merged: Snapshot)
    ensures merged == Merge(u, tests)
  {
    merged := tests;
    var rest := u.report.Keys;
    while rest != {}
      invariant rest <= u.report.Keys
      invariant forall id | id in rest || id !in u.report ::
          (id in merged <==> id in tests) && (id in tests ==> merged[id] == tests[id])
      invariant forall id | id in u.report && id !in rest ::
          if u.report[id] == Pass then id !in merged
          else id in merged && merged[id] == NewEntry(u.report[id], TriageIn(tests, id), KnownTriage(u, id), u.today)
      decreases rest
    {
      var id :| id in rest;
      rest := rest - {id};
      if u.report[id] == Pass {
        merged := merged - {id};
        continue;
      }
      merged := merged[id := NewEntry(u.report[id], TriageIn(merged, id), KnownTriage(u, id), u.today)];
    }
    merged := map id | id in merged && id in u.onDisk :: merged[id];
  }

  // ---------------------------------------------------------------- diff

  datatype DiffKind = RegressionDiff | ImprovementDiff | ChangedDiff
  datatype Diff = Diff(kind: DiffKind, id: string, expected: Status, actual: Status)

  /** A test without an entry is expected to pass. */
  function Expected(tests: Snapshot, id: string): Status {
    if id in tests then tests[id].status else Pass
  }

  function KindOf(expected: Status, actual: Status): DiffKind {
    if expected == Pass then RegressionDiff else if actual == Pass then ImprovementDiff else ChangedDiff
  }

  method KeysInAnyOrder(report: Statuses) returns (q: seq<string>)
    ensures multiset(q) == multiset(report.Keys)
  {
    q := [];
    var rest := report.Keys;
    while rest != {}
      invariant rest <= report.Keys && multiset(q) == multiset(report.Keys - rest)
      decreases rest
    {
      var id :| id in rest;
      assert report.Keys - (rest - {id}) == report.Keys - rest + {id};
      rest := rest - {id};
      q := q + [id];
    }
    assert report.Keys - rest == report.Keys;
  }

  method SortedKeys(report: Statuses) returns (ids: seq<string>)
    ensures forall id :: id in ids <==> id in report
    ensures forall i, j | 0 <= i < j < |ids| :: ids[i] != ids[j] && StringLeq(ids[i], ids[j])
  {
    var q := KeysInAnyOrder(report);
    ids := Sort(StringLeq, q);
    StringOrder();
    SortOrdered(StringLeq, q);
    assert forall id :: id in ids <==> id in multiset(ids);
    NoRepeats(ids, report.Keys);
  }

  lemma NoRepeats(s: seq<string>, elements: set<string>)
    requires multiset(s) == multiset(elements)
    ensures forall i, j | 0 <= i < j < |s| :: s[i] != s[j]
  {
    forall i, j | 0 <= i < j < |s|
      ensures s[i] != s[j]
    {
      assert s == s[..i] + [s[i]] + s[i + 1..j] + [s[j]] + s[j + 1..];
      assert multiset(s)[s[i]] <= 1;
    }
  }

  /** `diff`: every divergence between report and snapshot, once, in the order of test ids. */
  method DiffReport(report: Statuses, tests: Snapshot) returns (out: seq<Diff>)
    ensures forall d :: d in out <==>
                        && d.id in report && d.actual == report[d.id] && d.expected == Expected(tests, d.id)
                        && d.expected != d.actual && d.kind == KindOf(d.expected, d.actual)
    ensures forall i, j | 0 <= i < j < |out| :: out[i].id != out[j].id && StringLeq(out[i].id, out[j].id)
  {
    var ids := SortedKeys(report);
    out := [];
    for n := 0 to |ids|
      invariant forall d :: d in out <==>
          && d.id in ids[..n] && d.actual == report[d.id] && d.expected == Expected(tests, d.id)
          && d.expected != d.actual && d.kind == KindOf(d.expected, d.actual)
      invariant forall i | 0 <= i < |out| :: out[i].id in ids[..n]
      invariant forall i, j | 0 <= i < j < |out| :: out[i].id != out[j].id && StringLeq(out[i].id, out[j].id)
    {
      var id, actual, expected := ids[n], report[ids[n]], Expected(tests, ids[n]);
      assert ids[..n + 1] == ids[..n] + [id];
      if expected == actual {
        continue;
      }
      out := out + [Diff(KindOf(expected, actual), id, expected, actual)];
    }
    assert ids[..|ids|] == ids;
  }

  // ---------------------------------------------------------------- shards

  /** Reports of different tests. */
  ghost predicate Disjoint(reports: seq<Statuses>) {
    forall i, j | 0 <= i < j < |reports| :: reports[i].Keys !! reports[j].Keys
  }

  function Union(reports: seq<Statuses>): Statuses {
    if reports == [] then map[] else Union(reports[..|reports| - 1]) + reports[|reports| - 1]
  }

  /** The shards of one run, folded in one after another. */
  function FoldShards(context: Update, reports: seq<Statuses>, tests: Snapshot): Snapshot {
    if reports == [] then tests
    else Merge(context.(report := reports[|reports| - 1]), FoldShards(context, reports[..|reports| - 1], tests))
  }

  lemma MergeTwo(context: Update, first: Statuses, second: Statuses, tests: Snapshot)
    requires first.Keys !! second.Keys
    ensures Merge(context.(report := second), Merge(context.(report := first), tests)) ==
            Merge(context.(report := first + second), tests)
  {
    var mid := Merge(context.(report := first), tests);
    var two := Merge(context.(report := second), mid);
    var one := Merge(context.(report := first + second), tests);
    forall id
      ensures id in two <==> id in one
      ensures id in two && id in one ==> two[id] == one[id]
    {
      if id in second && id in context.onDisk {
        assert id in mid <==> id in tests;
      }
    }
  }

  lemma {:induction false} UnionKeys(reports: seq<Statuses>, id: string)
    ensures id in Union(reports) <==> exists k :: 0 <= k < |reports| && id in reports[k]
  {
    if reports != [] {
      UnionKeys(reports[..|reports| - 1], id);
    }
  }

  /** Folding the shards of a run one by one is one merge of the whole run. */
  lemma {:induction false} ShardsAreOneMerge(context: Update, reports: seq<Statuses>, tests: Snapshot)
    requires reports != [] && Disjoint(reports)
    ensures FoldShards(context, reports, tests) == Merge(context.(report := Union(reports)), tests)
  {
    var front, last := reports[..|reports| - 1], reports[|reports| - 1];
    if front == [] {
      assert Union(reports) == last;
    } else {
      ShardsAreOneMerge(context, front, tests);
      forall id | id in Union(front)
        ensures id !in last
      {
        UnionKeys(front, id);
      }
      MergeTwo(context, Union(front), last, tests);
    }
  }

  lemma {:induction false} UnionValue(reports: seq<Statuses>, k: nat, id: string)
    requires Disjoint(reports) && k < |reports| && id in reports[k]
    ensures id in Union(reports) && Union(reports)[id] == reports[k][id]
  {
    if k < |reports| - 1 {
      UnionValue(reports[..|reports| - 1], k, id);
      assert reports[k].Keys !! reports[|reports| - 1].Keys;
    }
  }

  /** Neither the order of the shards nor the way the run was cut into them shows in the snapshot. */
  lemma ShardingDoesNotShow(context: Update, a: seq<Statuses>, b: seq<Statuses>, tests: Snapshot)
    requires a != [] && b != [] && Disjoint(a) && Disjoint(b)
    requires Union(a) == Union(b) || multiset(a) == multiset(b)
    ensures FoldShards(context, a, tests) == FoldShards(context, b, tests)
  {
    if multiset(a) == multiset(b) {
      SameShardsSameUnion(a, b);
    }
    ShardsAreOneMerge(context, a, tests);
    ShardsAreOneMerge(context, b, tests);
  }

  lemma SameShardsSameUnion(a: seq<Statuses>, b: seq<Statuses>)
    requires Disjoint(a) && Disjoint(b) && multiset(a) == multiset(b)
    ensures Union(a) == Union(b)
  {
    forall id
      ensures id in Union(a) ==> id in Union(b) && Union(a)[id] == Union(b)[id]
    {
      UnionIncluded(a, b, id);
    }
    forall id
      ensures id in Union(b) ==> id in Union(a)
    {
      UnionIncluded(b, a, id);
    }
  }

  lemma UnionIncluded(a: seq<Statuses>, b: seq<Statuses>, id: string)
    requires Disjoint(a) && Disjoint(b) && multiset(a) == multiset(b)
    ensures id in Union(a) ==> id in Union(b) && Union(a)[id] == Union(b)[id]
  {
    if id in Union(a) {
      UnionKeys(a, id);
      var k :| 0 <= k < |a| && id in a[k];
      assert a[k] in multiset(a);
      assert a[k] in b;
      var n :| 0 <= n < |b| && b[n] == a[k];
      UnionValue(a, k, id);
      UnionValue(b, n, id);
    }
  }

  // ---------------------------------------------------------------- whole runs of updates

  function Run(updates: seq<Update>, tests: Snapshot): Snapshot {
    if updates == [] then tests
    else Merge(updates[|updates| - 1], Run(updates[..|updates| - 1], tests))
  }

  /** The status most recently reported for a test. */
  function LastReport(updates: seq<Update>, id: string): Option<Status> {
    if updates == [] then None
    else
      var u := updates[|updates| - 1];
      if id in u.report then Some(u.report[id]) else LastReport(updates[..|updates| - 1], id)
  }

  /** The snapshot always tells the last report: a test that stays on disk is absent after a pass,
      listed with its last other status, and as it was if it never ran. */
  lemma {:induction false} SnapshotTellsLastReport(updates: seq<Update>, tests: Snapshot, id: string)
    requires forall u | u in updates :: id in u.onDisk
    ensures var after := Run(updates, tests);
            match LastReport(updates, id)
            case None => (id in after <==> id in tests) && (id in tests ==> after[id] == tests[id])
            case Some(s) => if s == Pass then id !in after else id in after && after[id].status == s
  {
    if updates != [] {
      SnapshotTellsLastReport(updates[..|updates| - 1], tests, id);
    }
  }

  /** A test that is not on disk at the last update has no entry, reported or not. */
  lemma PrunedTestHasNoEntry(updates: seq<Update>, tests: Snapshot, id: string)
    requires updates != [] && id !in updates[|updates| - 1].onDisk
    ensures id !in Run(updates, tests)
  {
  }

  /** Every filled triage field of `before` is the same in `after`. */
  predicate Keeps(before: Triage, after: Triage) {
    && (Filled(before.issue) ==> after.issue == before.issue)
    && (Filled(before.added) ==> after.added == before.added)
    && (Filled(before.category) ==> after.category == before.category)
    && (Filled(before.reason) ==> after.reason == before.reason)
  }

  /** Until a test passes or leaves the disk, no update changes a triage field someone filled in. */
  lemma {:induction false} TriageSurvives(updates: seq<Update>, tests: Snapshot, id: string)
    requires id in tests
    requires forall u | u in updates :: id in u.onDisk && (id in u.report ==> u.report[id] != Pass)
    ensures var after := Run(updates, tests); id in after && Keeps(tests[id].triage, after[id].triage)
  {
    if updates != [] {
      TriageSurvives(updates[..|updates| - 1], tests, id);
    }
  }

  /** An update acts test by test: what happens to one test depends on its own entry and its own
      reports alone. */
  lemma {:induction false} TestsAreIndependent(updates: seq<Update>, a: Snapshot, b: Snapshot, id: string)
    requires (id in a <==> id in b) && (id in a ==> a[id] == b[id])
    ensures var a', b' := Run(updates, a), Run(updates, b);
            (id in a' <==> id in b') && (id in a' ==> a'[id] == b'[id])
  {
    if updates != [] {
      TestsAreIndependent(updates[..|updates| - 1], a, b, id);
    }
  }

  // ---------------------------------------------------------------- check after update

  /** Right after an update, the divergences are exactly the reported failures whose file is gone. */
  lemma DiffAfterMerge(u: Update, tests: Snapshot, id: string)
    requires id in u.report
    ensures Expected(Merge(u, tests), id) != u.report[id] <==> u.report[id] != Pass && id !in u.onDisk
  {
  }

  lemma FieldStable(previous: Option<string>, known: Option<string>, default: Option<string>)
    ensures Field(Field(previous, known, default), known, default) == Field(previous, known, default)
  {
  }

  /** Accepting the same run twice is accepting it once. */
  lemma MergeIdempotent(u: Update, tests: Snapshot)
    ensures Merge(u, Merge(u, tests)) == Merge(u, tests)
  {
    var once := Merge(u, tests);
    forall id | id in once && id in u.report
      ensures NewEntry(u.report[id], once[id].triage, KnownTriage(u, id), u.today) == once[id]
    {
      var before, known := TriageIn(tests, id), KnownTriage(u, id);
      FieldStable(before.issue, known.issue, None);
      FieldStable(before.added, known.added, Some(u.today));
      FieldStable(before.category, known.category, Some("untriaged"));
      FieldStable(before.reason, known.reason, Some(""));
    }
  }
}

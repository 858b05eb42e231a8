/** `scripts/gate_failure_watch.py`: one issue per failing gate workflow, kept by completed runs. */
module FailureWatch {
  import opened Options
  import opened Text

  // ---------------------------------------------------------------- configuration and runs

  /** `isTag` is the release-tag pattern; `workflows` maps a workflow file to its name. */
  datatype Config = Config(branch: string, isTag: string -> bool, workflows: map<string, string>)

  /** A completed workflow run: `body` is the issue text and `comment` the closing comment it gives rise to. */
  datatype WorkflowRun = WorkflowRun(path: string, event: string, branch: Option<string>, conclusion: string,
                                     body: string, comment: string)

  predicate Eligible(run: WorkflowRun, config: Config) {
    run.path in config.workflows &&
    if run.event == "schedule" then run.branch == None || run.branch == Some(config.branch)
    else if run.event == "repository_dispatch" || run.event == "workflow_dispatch" then run.branch == Some(config.branch)
    else if run.event == "push" then
      run.branch == Some(config.branch) || config.isTag(match run.branch case Some(b) => b case None => "")
    else false
  }

  predicate IsRed(run: WorkflowRun) {
    run.conclusion in {"action_required", "failure", "startup_failure", "timed_out"}
  }

  predicate IsGreen(run: WorkflowRun) {
    run.conclusion == "success"
  }

  // ---------------------------------------------------------------- markers and titles

  const PREFIX := "[scheduled-gate:"
  const SUFFIX := " is failing on main"

  function Marker(path: string): string {
    PREFIX + path + "]"
  }

  function Title(path: string, name: string): string {
    Marker(path) + " " + name + SUFFIX
  }

  predicate BracketFree(s: string) {
    forall i | 0 <= i < |s| :: s[i] != '[' && s[i] != ']'
  }

  lemma Differ(a: string, b: string) returns (i: nat)
    requires |a| == |b| && a != b
    ensures i < |a| && a[i] != b[i]
  {
    i :| 0 <= i < |a| && a[i] != b[i];
  }

  lemma PrefixChars()
    ensures |PREFIX| == 16 && PREFIX[0] == '['
    ensures forall j | 0 < j < |PREFIX| :: PREFIX[j] != '['
    ensures forall j | 0 <= j < |PREFIX| :: PREFIX[j] != ' '
    ensures forall j | 0 <= j < |SUFFIX| :: SUFFIX[j] != '['
    ensures SUFFIX[0] == ' '
  {
  }

  lemma TitleAt(q: string, name: string, k: nat)
    requires k < |Title(q, name)|
    ensures Title(q, name)[k] ==
            var start := |PREFIX| + |q| + 2;
            if k < |PREFIX| then PREFIX[k]
            else if k < |PREFIX| + |q| then q[k - |PREFIX|]
            else if k == start - 2 then ']'
            else if k == start - 1 then ' '
            else if k < start + |name| then name[k - start]
            else SUFFIX[k - start - |name|]
  {
  }

  lemma MarkerAt(p: string, j: nat)
    requires j <= |PREFIX| + |p|
    ensures Marker(p)[j] == if j < |PREFIX| then PREFIX[j] else if j < |PREFIX| + |p| then p[j - |PREFIX|] else ']'
  {
  }

  /** A marker occurs in a title at its start or not at all. */
  lemma MarkerPosition(p: string, q: string, name: string, k: nat)
    requires BracketFree(q) && !Contains(name, PREFIX) && k > 0
    ensures !OccursAt(Title(q, name), Marker(p), k)
  {
    var t, m, start := Title(q, name), Marker(p), |PREFIX| + |q| + 2;
    PrefixChars();
    if k < start || k >= start + |name| {
      MarkerAt(p, 0);
      if k < |t| {
        TitleAt(q, name, k);
      }
      NotAt(t, m, k, 0);
    } else {
      var j := k - start;
      if j + |PREFIX| <= |name| {
        assert !OccursAt(name, PREFIX, j);
        var i := Differ(name[j..j + |PREFIX|], PREFIX);
        MarkerAt(p, i);
        TitleAt(q, name, k + i);
        NotAt(t, m, k, i);
      } else {
        var i := |name| - j;
        MarkerAt(p, i);
        TitleAt(q, name, k + i);
        NotAt(t, m, k, i);
      }
    }
  }

  /** The title of one workflow starts with the marker of another only if they are the same. */
  lemma MarkerAtStart(p: string, q: string, name: string)
    requires BracketFree(p) && BracketFree(q)
    ensures OccursAt(Title(q, name), Marker(p), 0) <==> p == q
  {
    var t, m, n := Title(q, name), Marker(p), |PREFIX|;
    if p != q {
      var i := if |p| < |q| then |p| else |q|;
      if |p| == |q| {
        i := Differ(p, q);
      }
      MarkerAt(p, n + i);
      TitleAt(q, name, n + i);
      NotAt(t, m, 0, n + i);
    }
  }

  /** The title of one workflow contains the marker of another only if they are the same. */
  lemma MarkerIsExclusive(p: string, q: string, name: string)
    requires BracketFree(p) && BracketFree(q) && !Contains(name, PREFIX)
    ensures Contains(Title(q, name), Marker(p)) <==> p == q
  {
    var t := Title(q, name);
    MarkerAtStart(p, q, name);
    forall k | 0 < k <= |t|
      ensures !OccursAt(t, Marker(p), k)
    {
      MarkerPosition(p, q, name, k);
    }
  }

  // ---------------------------------------------------------------- the tracker

  datatype Issue = Issue(number: nat, title: string, body: string, open: bool, comments: seq<string>)

  predicate Marked(issue: Issue, path: string) {
    Contains(issue.title, Marker(path))
  }

  /** The index of the highest-numbered issue whose title contains the marker. */
  function Find(issues: seq<Issue>, path: string): (r: Option<nat>)
    ensures r.Some? ==> r.value < |issues| && Marked(issues[r.value], path)
    ensures r.Some? ==> forall i | 0 <= i < |issues| && Marked(issues[i], path) :: issues[i].number <= issues[r.value].number
    ensures r.None? ==> forall i | 0 <= i < |issues| :: !Marked(issues[i], path)
  {
    if issues == [] then None
    else
      var n := |issues| - 1;
      var best := Find(issues[..n], path);
      if Marked(issues[n], path) && (best.None? || issues[best.value].number < issues[n].number) then Some(n) else best
  }

  function SyncIssues(issues: seq<Issue>, next: nat, path: string, name: string, body: string): seq<Issue> {
    match Find(issues, path)
    case None => issues + [Issue(next, Title(path, name), body, true, [])]
    case Some(i) => issues[i := issues[i].(title := Title(path, name), body := body, open := true)]
  }

  function CloseIssues(issues: seq<Issue>, path: string, comment: string): seq<Issue> {
    match Find(issues, path)
    case None => issues
    case Some(i) =>
      if !issues[i].open then issues
      else issues[i := issues[i].(open := false, comments := issues[i].comments + [comment])]
  }

  /** The tracker after a completed run. */
  function Handle(issues: seq<Issue>, next: nat, config: Config, run: WorkflowRun): seq<Issue> {
    if !Eligible(run, config) then issues
    else if IsGreen(run) then CloseIssues(issues, run.path, run.comment)
    else if !IsRed(run) then issues
    else SyncIssues(issues, next, run.path, config.workflows[run.path], run.body)
  }

  /** The issue tracker as the observer's requests change it. */
  class Tracker {
    var issues: seq<Issue>
    var next: nat

    ghost predicate Valid()
      reads this
    {
      forall i | 0 <= i < |issues| :: issues[i].number < next
    }

    constructor (existing: seq<Issue>, number: nat)
      requires forall i | 0 <= i < |existing| :: existing[i].number < number
      ensures Valid() && issues == existing && next == number
    {
      issues, next := existing, number;
    }

    /** `find_issue`: the title search, then the match with the highest number. */
    method FindIssue(path: string) returns (r: Option<nat>)
      ensures r == Find(issues, path)
    {
      r := None;
      for n := 0 to |issues|
        invariant r == Find(issues[..n], path)
      {
        assert issues[..n + 1][..n] == issues[..n];
        if Marked(issues[n], path) && (r.None? || issues[r.value].number < issues[n].number) {
          r := Some(n);
        }
      }
      assert issues[..|issues|] == issues;
    }

    /** `sync_failure_issue`: create the issue, or update and reopen the one there is. */
    method SyncFailureIssue(path: string, name: string, body: string)
      requires Valid()
      modifies this
      ensures Valid() && issues == SyncIssues(old(issues), old(next), path, name, body)
    {
      var title := Title(path, name);
      var existing := FindIssue(path);
      if existing.None? {
        issues := issues + [Issue(next, title, body, true, [])];
        next := next + 1;
        return;
      }
      var i := existing.value;
      issues := issues[i := issues[i].(open := true, title := title, body := body)];
    }

    /** `close_failure_issue`: comment on an open issue and close it. */
    method CloseFailureIssue(path: string, comment: string)
      requires Valid()
      modifies this
      ensures Valid() && next == old(next) && issues == CloseIssues(old(issues), path, comment)
    {
      var existing := FindIssue(path);
      if existing.None? || !issues[existing.value].open {
        return;
      }
      var i := existing.value;
      issues := issues[i := issues[i].(comments := issues[i].comments + [comment])];
      issues := issues[i := issues[i].(open := false)];
    }

    /** `handle_event`. */
    method HandleEvent(run: WorkflowRun, config: Config, dryRun: bool)
      requires Valid()
      modifies this
      ensures Valid()
      ensures issues == if dryRun then old(issues) else Handle(old(issues), old(next), config, run)
    {
      if !Eligible(run, config) {
        return;
      }
      if IsGreen(run) {
        if !dryRun {
          CloseFailureIssue(run.path, run.comment);
        }
        return;
      }
      if !IsRed(run) {
        return;
      }
      if !dryRun {
        SyncFailureIssue(run.path, config.workflows[run.path], run.body);
      }
    }
  }

  // ---------------------------------------------------------------- whole runs

  /** No workflow's title contains the marker of another. */
  ghost predicate MarkersDistinct(config: Config) {
    forall p, q | p in config.workflows && q in config.workflows ::
      Contains(Title(q, config.workflows[q]), Marker(p)) ==> p == q
  }

  /** Workflow files without brackets and names without the marker prefix are enough. */
  lemma PlainPathsAreDistinct(config: Config)
    requires forall p | p in config.workflows :: BracketFree(p) && !Contains(config.workflows[p], PREFIX)
    ensures MarkersDistinct(config)
  {
    forall p, q | p in config.workflows && q in config.workflows
      ensures Contains(Title(q, config.workflows[q]), Marker(p)) ==> p == q
    {
      MarkerIsExclusive(p, q, config.workflows[q]);
    }
  }

  lemma OwnMarker(path: string, name: string)
    ensures Contains(Title(path, name), Marker(path))
  {
    var t, m := Title(path, name), Marker(path);
    assert t == m + (" " + name + SUFFIX);
    assert OccursAt(t, m, 0);
  }

  /** What the history of one workflow amounts to. */
  datatype Record = Never | Tracked(open: bool, body: string, comments: seq<string>)

  /** The reference: the record of `path` after the given runs, with no tracker in sight. */
  function History(config: Config, runs: seq<WorkflowRun>, path: string): Record {
    if runs == [] then Never
    else
      var before, run := History(config, runs[..|runs| - 1], path), runs[|runs| - 1];
      if run.path != path || !Eligible(run, config) then before else Recorded(before, run)
  }

  /** A record after one more eligible run. */
  function Recorded(before: Record, run: WorkflowRun): Record {
    if IsRed(run) then Failed(before, run.body) else if IsGreen(run) then Recovered(before, run.comment) else before
  }

  function Failed(before: Record, body: string): Record {
    Tracked(true, body, if before.Tracked? then before.comments else [])
  }

  function Recovered(before: Record, comment: string): Record {
    if before.Tracked? && before.open then before.(open := false, comments := before.comments + [comment]) else before
  }

  /** A workflow with a record has exactly one issue, and it says what the record says; others have none. */
  ghost predicate Reflects(issues: seq<Issue>, path: string, name: string, record: Record) {
    match record
    case Never => forall i | 0 <= i < |issues| :: !Marked(issues[i], path)
    case Tracked(open, body, comments) =>
      exists k: nat :: IsOnlyIssue(issues, path, k) && Says(issues[k], Title(path, name), open, body, comments)
  }

  predicate Says(issue: Issue, title: string, open: bool, body: string, comments: seq<string>) {
    issue.title == title && issue.open == open && issue.body == body && issue.comments == comments
  }

  ghost predicate IsOnlyIssue(issues: seq<Issue>, path: string, k: nat) {
    k < |issues| && forall i | 0 <= i < |issues| :: Marked(issues[i], path) <==> i == k
  }

  /** Tracker states along a run of events: `next` is whatever number the tracker hands out. */
  function RunAll(config: Config, runs: seq<WorkflowRun>, issues: seq<Issue>, numbers: nat -> nat): seq<Issue> {
    if runs == [] then issues
    else
      var n := |runs| - 1;
      Handle(RunAll(config, runs[..n], issues, numbers), numbers(n), config, runs[n])
  }

  /** The only issue of a workflow, changed but still marked, is its only issue. */
  lemma OnlyIssueUpdated(issues: seq<Issue>, path: string, k: nat, issue: Issue)
    requires IsOnlyIssue(issues, path, k) && Marked(issue, path)
    ensures IsOnlyIssue(issues[k := issue], path, k)
  {
  }

  lemma OnlyIssueFound(issues: seq<Issue>, path: string, k: nat)
    requires IsOnlyIssue(issues, path, k)
    ensures Find(issues, path) == Some(k)
  {
  }

  lemma SyncReflects(issues: seq<Issue>, next: nat, path: string, name: string, body: string, before: Record)
    requires Reflects(issues, path, name, before)
    ensures Reflects(SyncIssues(issues, next, path, name, body), path, name, Failed(before, body))
  {
    var after, title := SyncIssues(issues, next, path, name, body), Title(path, name);
    OwnMarker(path, name);
    if before.Never? {
      assert IsOnlyIssue(after, path, |issues|);
      assert Says(after[|issues|], title, true, body, []);
    } else {
      var k: nat :| IsOnlyIssue(issues, path, k) && Says(issues[k], title, before.open, before.body, before.comments);
      OnlyIssueFound(issues, path, k);
      OnlyIssueUpdated(issues, path, k, after[k]);
      assert Says(after[k], title, true, body, before.comments);
    }
  }

  lemma CloseReflects(issues: seq<Issue>, path: string, name: string, comment: string, before: Record)
    requires Reflects(issues, path, name, before)
    ensures Reflects(CloseIssues(issues, path, comment), path, name, Recovered(before, comment))
  {
    var after, title := CloseIssues(issues, path, comment), Title(path, name);
    if before.Tracked? {
      var k: nat :| IsOnlyIssue(issues, path, k) && Says(issues[k], title, before.open, before.body, before.comments);
      OnlyIssueFound(issues, path, k);
      OnlyIssueUpdated(issues, path, k, after[k]);
      if before.open {
        assert Says(after[k], title, false, before.body, before.comments + [comment]);
      }
    }
  }

  /** A run of its own workflow moves the tracker as it moves the record. */
  lemma OwnRun(config: Config, issues: seq<Issue>, next: nat, run: WorkflowRun, before: Record)
    requires Eligible(run, config)
    requires Reflects(issues, run.path, config.workflows[run.path], before)
    ensures Reflects(Handle(issues, next, config, run), run.path, config.workflows[run.path], Recorded(before, run))
  {
    var name := config.workflows[run.path];
    SyncReflects(issues, next, run.path, name, run.body, before);
    CloseReflects(issues, run.path, name, run.comment, before);
  }

  /** A run never touches an issue that does not carry its own marker. */
  lemma ForeignIssuesUntouched(config: Config, issues: seq<Issue>, next: nat, run: WorkflowRun)
    ensures var after := Handle(issues, next, config, run);
            && |issues| <= |after| <= |issues| + 1
            && (forall i | 0 <= i < |issues| && !Marked(issues[i], run.path) :: after[i] == issues[i])
            && (|after| > |issues| ==>
                  run.path in config.workflows && after[|issues|].title == Title(run.path, config.workflows[run.path]))
  {
  }

  /** A run of another workflow leaves the record and the issue of `path` alone. */
  lemma OtherRun(config: Config, issues: seq<Issue>, next: nat, run: WorkflowRun, path: string, record: Record, other: Record)
    requires MarkersDistinct(config) && path in config.workflows && run.path != path
    requires Reflects(issues, path, config.workflows[path], record)
    requires run.path in config.workflows ==> Reflects(issues, run.path, config.workflows[run.path], other)
    ensures Reflects(Handle(issues, next, config, run), path, config.workflows[path], record)
  {
    if Eligible(run, config) {
      var after := Handle(issues, next, config, run);
      var name := config.workflows[run.path];
      assert !Contains(Title(run.path, name), Marker(path));
      assert !Contains(Title(path, config.workflows[path]), Marker(run.path));
      ForeignIssuesUntouched(config, issues, next, run);
      forall i | 0 <= i < |after|
        ensures Marked(after[i], path) <==> i < |issues| && Marked(issues[i], path)
        ensures i < |issues| && Marked(issues[i], path) ==> (other.Tracked? && Marked(issues[i], run.path)) || after[i] == issues[i]
      {
        if i < |issues| && Marked(issues[i], run.path) {
          assert issues[i].title == Title(run.path, name);
        }
      }
      if record.Tracked? {
        var k: nat :| IsOnlyIssue(issues, path, k)
                 && Says(issues[k], Title(path, config.workflows[path]), record.open, record.body, record.comments);
        assert IsOnlyIssue(after, path, k);
        assert !Marked(issues[k], run.path);
      }
    }
  }

  /** The tracker shows exactly the history of every watched workflow. */
  ghost predicate ShowsHistory(config: Config, runs: seq<WorkflowRun>, issues: seq<Issue>) {
    forall p | p in config.workflows :: Reflects(issues, p, config.workflows[p], History(config, runs, p))
  }

  ghost predicate Unmarked(config: Config, issues: seq<Issue>) {
    forall p, i | p in config.workflows && 0 <= i < |issues| :: !Marked(issues[i], p)
  }

  /** Safety over every run: from a tracker without marked issues, whatever runs complete in whatever
      order, the tracker shows exactly the history of every watched workflow. */
  lemma {:induction false} TrackerShowsHistory(config: Config, runs: seq<WorkflowRun>, issues: seq<Issue>, numbers: nat -> nat)
    requires MarkersDistinct(config) && Unmarked(config, issues)
    ensures ShowsHistory(config, runs, RunAll(config, runs, issues, numbers))
    ensures issues <= RunAll(config, runs, issues, numbers)
  {
    if runs != [] {
      var n := |runs| - 1;
      var front, run := runs[..n], runs[n];
      var before := RunAll(config, front, issues, numbers);
      TrackerShowsHistory(config, front, issues, numbers);
      UnmarkedPrefixKept(config, before, numbers(n), run, issues);
      forall p | p in config.workflows
        ensures Reflects(RunAll(config, runs, issues, numbers), p, config.workflows[p], History(config, runs, p))
      {
        if run.path == p {
          if Eligible(run, config) {
            OwnRun(config, before, numbers(n), run, History(config, front, p));
          }
        } else {
          OtherRun(config, before, numbers(n), run, p, History(config, front, p), History(config, front, run.path));
        }
      }
    }
  }

  function RedRun(path: string): WorkflowRun {
    WorkflowRun(path, "schedule", None, "failure", "", "")
  }

  lemma RunOne(config: Config, run: WorkflowRun, numbers: nat -> nat)
    ensures RunAll(config, [run], [], numbers) == Handle([], numbers(0), config, run)
    ensures forall p :: run.path != p ==> History(config, [run], p) == Never
  {
    var front := [run][..0];
    assert front == [];
    assert RunAll(config, front, [], numbers) == [];
    assert forall p :: History(config, front, p) == Never;
  }

  /** If the title of `q` contains the marker of `p`, one red run of `q` gives `p` an issue it has no
      history for. */
  lemma OneRedRunConfuses(config: Config, p: string, q: string, numbers: nat -> nat)
    requires p in config.workflows && q in config.workflows && p != q
    requires Contains(Title(q, config.workflows[q]), Marker(p))
    ensures !ShowsHistory(config, [RedRun(q)], RunAll(config, [RedRun(q)], [], numbers))
  {
    var run := RedRun(q);
    var after := RunAll(config, [run], [], numbers);
    RunOne(config, run, numbers);
    assert after == Handle([], numbers(0), config, run);
    assert Find([], q) == None;
    assert after == [Issue(numbers(0), Title(q, config.workflows[q]), "", true, [])];
    assert Marked(after[0], p);
    assert !Reflects(after, p, config.workflows[p], Never);
  }

  /** The tracker shows the history over every run, from every tracker without marked issues, if and
      only if no title contains the marker of another workflow. */
  lemma AlwaysShowsHistoryIff(config: Config)
    ensures MarkersDistinct(config) <==>
            forall runs, issues, numbers: nat -> nat | Unmarked(config, issues) ::
              ShowsHistory(config, runs, RunAll(config, runs, issues, numbers))
  {
    if MarkersDistinct(config) {
      forall runs, issues, numbers: nat -> nat | Unmarked(config, issues)
        ensures ShowsHistory(config, runs, RunAll(config, runs, issues, numbers))
      {
        TrackerShowsHistory(config, runs, issues, numbers);
      }
    } else {
      var p, q :| p in config.workflows && q in config.workflows && p != q
                  && Contains(Title(q, config.workflows[q]), Marker(p));
      var numbers: nat -> nat := n => n;
      OneRedRunConfuses(config, p, q, numbers);
      assert Unmarked(config, []);
    }
  }

  lemma UnmarkedPrefixKept(config: Config, issues: seq<Issue>, next: nat, run: WorkflowRun, existing: seq<Issue>)
    requires existing <= issues && Unmarked(config, existing)
    ensures existing <= Handle(issues, next, config, run)
  {
    if Eligible(run, config) {
      ForeignIssuesUntouched(config, issues, next, run);
      assert forall i | 0 <= i < |existing| :: issues[i] == existing[i];
    }
  }

  // ---------------------------------------------------------------- what the history says

  /** The last eligible run of `path` that was red or green. */
  function LastDecisive(config: Config, runs: seq<WorkflowRun>, path: string): Option<WorkflowRun> {
    if runs == [] then None
    else
      var run := runs[|runs| - 1];
      if run.path == path && Eligible(run, config) && (IsRed(run) || IsGreen(run)) then Some(run)
      else LastDecisive(config, runs[..|runs| - 1], path)
  }

  /** An issue is open exactly when the last decisive run was red, and then tells of that run; there
      is a record exactly when some run was red. */
  lemma {:induction false} OpenIffLastDecisiveRed(config: Config, runs: seq<WorkflowRun>, path: string)
    ensures var record, last := History(config, runs, path), LastDecisive(config, runs, path);
            && ((record.Tracked? && record.open) <==> (last.Some? && IsRed(last.value)))
            && (record.Tracked? && record.open ==> record.body == last.value.body)
            && (record.Tracked? <==> exists i :: 0 <= i < |runs| && runs[i].path == path && Eligible(runs[i], config) && IsRed(runs[i]))
  {
    if runs != [] {
      OpenIffLastDecisiveRed(config, runs[..|runs| - 1], path);
    }
  }

  /** Bracket-free paths are needed: a path that ends in the marker prefix and another path is taken
      for that other path, whatever its beginning, and a red run of it opens an issue for the other. */
  lemma BracketsConfuseMarkers(config: Config, start: string, path: string, numbers: nat -> nat)
    requires path in config.workflows && start + PREFIX + path in config.workflows
    ensures var q := start + PREFIX + path;
            !MarkersDistinct(config) && !ShowsHistory(config, [RedRun(q)], RunAll(config, [RedRun(q)], [], numbers))
  {
    var q := start + PREFIX + path;
    ConfusedTitle(start, path, config.workflows[q]);
    assert |q| > |path|;
    OneRedRunConfuses(config, path, q, numbers);
  }

  lemma ConfusedTitle(start: string, path: string, name: string)
    ensures Contains(Title(start + PREFIX + path, name), Marker(path))
  {
    var t, k := Title(start + PREFIX + path, name), |PREFIX + start|;
    assert t == PREFIX + start + (Marker(path) + (" " + name + SUFFIX));
    assert t[k..k + |Marker(path)|] == Marker(path);
    assert OccursAt(t, Marker(path), k);
  }
}

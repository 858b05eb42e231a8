/** The target-collector run of `scripts/copied_minor_fallback_report.py`: aggregate every trace,
    gate the totals, and exit.  Its exit code is a statement about every single cycle. */
module GcGates {
  import opened Sequences
  import opened Text
  import opened Options
  import opened Tally
  import opened GcTotals

  // ---------------------------------------------------------------- old-page accounting

  datatype OldPageRule =
    | LiveAndDeadAreAllocated | PinnedWithinLive | SelectedWithinCandidates
    | BytesNeedPages | MovedWithinSelected | MovedWithinReleased

  predicate Breaks(cycle: Fields, rule: OldPageRule) {
    var pages, policy, evacuation := Nested(cycle, "old_pages"), Nested(cycle, "evacuation_policy"), Nested(cycle, "evacuation");
    var all, live := NonNegativeInt(pages, "allocated_bytes"), NonNegativeInt(pages, "live_bytes");
    var selected, selectedLive := NonNegativeInt(policy, "old_page_selected_pages"), NonNegativeInt(policy, "old_page_selected_live_bytes");
    var moved := NonNegativeInt(evacuation, "old_page_moved_bytes");
    match rule
    case LiveAndDeadAreAllocated => all > 0 && live + NonNegativeInt(pages, "dead_bytes") != all
    case PinnedWithinLive => all > 0 && NonNegativeInt(pages, "pinned_bytes") > live
    case SelectedWithinCandidates => selected > NonNegativeInt(policy, "old_page_candidate_pages")
    case BytesNeedPages => selected == 0 && (selectedLive > 0 || NonNegativeInt(policy, "old_page_reclaimable_bytes") > 0)
    case MovedWithinSelected => moved > selectedLive
    case MovedWithinReleased => moved > NonNegativeInt(evacuation, "released_original_bytes")
  }

  const RULES := [LiveAndDeadAreAllocated, PinnedWithinLive, SelectedWithinCandidates, BytesNeedPages,
                  MovedWithinSelected, MovedWithinReleased]

  /** The rules for which `broken` holds, in order. */
  function Filter(broken: OldPageRule -> bool, rules: seq<OldPageRule>): seq<OldPageRule> {
    if rules == [] then []
    else
      var n := |rules| - 1;
      Filter(broken, rules[..n]) + if broken(rules[n]) then [rules[n]] else []
  }

  function BrokenBy(cycle: Fields): OldPageRule -> bool {
    rule => Breaks(cycle, rule)
  }

  function BrokenOf(cycle: Fields, rules: seq<OldPageRule>): seq<OldPageRule> {
    Filter(BrokenBy(cycle), rules)
  }

  /** `check_old_page_accounting`: the rules a cycle breaks, in order. */
  method CheckOldPageAccounting(cycle: Fields) returns (broken: seq<OldPageRule>)
    ensures broken == BrokenOf(cycle, RULES)
  {
    broken := [];
    var rules, breaks := RULES, BrokenBy(cycle);
    for n := 0 to |rules|
      invariant broken == Filter(breaks, rules[..n])
    {
      if breaks(rules[n]) {
        broken := broken + [rules[n]];
      }
      assert rules[..n + 1][..n] == rules[..n];
    }
    assert rules[..|rules|] == rules;
  }

  lemma {:induction false} FilterNone(broken: OldPageRule -> bool, rules: seq<OldPageRule>)
    ensures Filter(broken, rules) == [] <==> forall i | 0 <= i < |rules| :: !broken(rules[i])
  {
    if rules != [] {
      var n := |rules| - 1;
      FilterNone(broken, rules[..n]);
      assert forall i | 0 <= i < n :: rules[..n][i] == rules[i];
    }
  }

  lemma NoRuleBroken(cycle: Fields)
    ensures BrokenOf(cycle, RULES) == [] <==> forall r: OldPageRule :: !Breaks(cycle, r)
  {
    FilterNone(BrokenBy(cycle), RULES);
    forall r: OldPageRule
      ensures r in RULES
    {
      match r {
        case LiveAndDeadAreAllocated => assert RULES[0] == r;
        case PinnedWithinLive => assert RULES[1] == r;
        case SelectedWithinCandidates => assert RULES[2] == r;
        case BytesNeedPages => assert RULES[3] == r;
        case MovedWithinSelected => assert RULES[4] == r;
        case MovedWithinReleased => assert RULES[5] == r;
      }
    }
    if BrokenOf(cycle, RULES) == [] {
      forall r: OldPageRule
        ensures !Breaks(cycle, r)
      {
        assert r in RULES;
      }
    }
  }

  // ---------------------------------------------------------------- one workload

  /** The places of the cycles for which `p` fails. */
  function Except(p: Fields -> bool, cycles: seq<Fields>): seq<nat> {
    if cycles == [] then []
    else
      var n := |cycles| - 1;
      Except(p, cycles[..n]) + if p(cycles[n]) then [] else [n]
  }

  function KnownReason(): Fields -> bool {
    cycle => HasKnownReason(cycle)
  }

  /** The cycles without a known reason, by their place in the trace. */
  function UnknownIn(cycles: seq<Fields>): seq<nat> {
    Except(KnownReason(), cycles)
  }

  /** There are as many as the trace has malformed records. */
  lemma {:induction false} UnknownAreMalformed(cycles: seq<Fields>)
    ensures |UnknownIn(cycles)| == Malformed(cycles)
  {
    if cycles != [] {
      UnknownAreMalformed(cycles[..|cycles| - 1]);
    }
  }

  lemma {:induction false} ExceptNone(p: Fields -> bool, cycles: seq<Fields>)
    ensures Except(p, cycles) == [] <==> forall i | 0 <= i < |cycles| :: p(cycles[i])
  {
    if cycles != [] {
      var n := |cycles| - 1;
      ExceptNone(p, cycles[..n]);
      assert forall i | 0 <= i < n :: cycles[..n][i] == cycles[i];
    }
  }

  /** The non-empty results of `f`, cycle by cycle. */
  function NonEmpty(f: Fields -> seq<OldPageRule>, cycles: seq<Fields>): seq<seq<OldPageRule>> {
    if cycles == [] then []
    else
      var n := |cycles| - 1;
      NonEmpty(f, cycles[..n]) + if f(cycles[n]) == [] then [] else [f(cycles[n])]
  }

  function BrokenRules(): Fields -> seq<OldPageRule> {
    cycle => BrokenOf(cycle, RULES)
  }

  /** The broken rules of a trace, cycle by cycle. */
  function BrokenIn(cycles: seq<Fields>): seq<seq<OldPageRule>> {
    NonEmpty(BrokenRules(), cycles)
  }

  method RecordOldPages(ghost before: seq<Fields>, cycle: Fields, errors: seq<seq<OldPageRule>>) returns (r: seq<seq<OldPageRule>>)
    requires errors == BrokenIn(before)
    ensures r == BrokenIn(before + [cycle])
  {
    assert (before + [cycle])[..|before|] == before;
    var broken := CheckOldPageAccounting(cycle);
    r := if broken == [] then errors else errors + [broken];
  }

  lemma AggregateSnoc(shape: Shape, name: string, cycles: seq<Fields>, cycle: Fields)
    ensures Aggregate(shape, name, cycles + [cycle]) == Add(Aggregate(shape, name, cycles), CycleTotals(shape, name, cycle))
  {
    Halves(cycles, [cycle]);
  }

  lemma UnknownSnoc(cycles: seq<Fields>, cycle: Fields)
    ensures UnknownIn(cycles + [cycle]) == UnknownIn(cycles) + if HasKnownReason(cycle) then [] else [|cycles|]
  {
    Halves(cycles, [cycle]);
  }

  /** `aggregate_workload`: the totals, the cycles with an unknown reason, and the broken old-page rules. */
  method AggregateWorkload(shape: Shape, name: string, cycles: seq<Fields>)
    returns (totals: GcTotals, unknown: seq<nat>, oldPageErrors: seq<seq<OldPageRule>>)
    ensures totals == Aggregate(shape, name, cycles)
    ensures unknown == UnknownIn(cycles)
    ensures oldPageErrors == if IsOldPage(name) then BrokenIn(cycles) else []
  {
    totals, unknown, oldPageErrors := Empty(shape.counters), [], [];
    for n := 0 to |cycles|
      invariant totals == Aggregate(shape, name, cycles[..n])
      invariant unknown == UnknownIn(cycles[..n])
      invariant oldPageErrors == if IsOldPage(name) then BrokenIn(cycles[..n]) else []
    {
      assert cycles[..n + 1] == cycles[..n] + [cycles[n]];
      AggregateSnoc(shape, name, cycles[..n], cycles[n]);
      UnknownSnoc(cycles[..n], cycles[n]);
      if !HasKnownReason(cycles[n]) {
        unknown := unknown + [n];
      }
      totals := AddTotals(totals, CycleTotals(shape, name, cycles[n]));
      if IsOldPage(name) {
        oldPageErrors := RecordOldPages(cycles[..n], cycles[n], oldPageErrors);
      }
    }
    assert cycles[..|cycles|] == cycles;
  }

  /** No error of `aggregate_workload` itself. */
  predicate Readable(tr: Trace) {
    tr.cycles != [] && UnknownIn(tr.cycles) == [] && (IsOldPage(tr.name) ==> BrokenIn(tr.cycles) == [])
  }

  lemma NoneUnknown(cycles: seq<Fields>)
    ensures UnknownIn(cycles) == [] <==> forall i | 0 <= i < |cycles| :: HasKnownReason(cycles[i])
  {
    ExceptNone(KnownReason(), cycles);
    assert forall i | 0 <= i < |cycles| :: KnownReason()(cycles[i]) == HasKnownReason(cycles[i]);
  }

  lemma {:induction false} NonEmptyNone(f: Fields -> seq<OldPageRule>, cycles: seq<Fields>)
    ensures NonEmpty(f, cycles) == [] <==> forall i | 0 <= i < |cycles| :: f(cycles[i]) == []
  {
    if cycles != [] {
      var n := |cycles| - 1;
      NonEmptyNone(f, cycles[..n]);
      assert forall i | 0 <= i < n :: cycles[..n][i] == cycles[i];
    }
  }

  /** A named trace: the collection cycles found in it. */
  datatype Trace = Trace(name: string, cycles: seq<Fields>)

  // ---------------------------------------------------------------- gates on totals

  datatype Gate =
    | OtherReasons | Ineligible | RegistryRebuilds | MissingRootSources
    | StackWithoutSource | PinnedWithoutSource | CopyOnlyWithoutSource | LegacyWithoutSource
    | YoungRootWithoutSource | DirtySlotWithoutSource | TransitiveWithoutSource | PinnedBytes | CompiledPinned
    | StackTruncation | UnboundedStack | YoungRoots | MallocRoots | UnattributedRoots | LegacyBytes | Unproductive | NoEvidence
    | ForbiddenMalloc(kind: string) | MissingLayoutScans | NoPointerFreeSkips | TooManyPointerReads
    | NoRawArraySkips | NoRawFieldSkips | NoLargeExclusion | NoPagesSelected | NothingMoved | NothingReclaimed

  datatype GateError = NoStrictWorkload | GateError(workload: string, gate: Gate)

  /** `target_gates_require_copied_minor`. */
  predicate IsStrict(name: string) {
    !IsOldPage(name) && name != "async_promise_closures"
  }

  function At(t: GcTotals, k: Counter): nat {
    Get(t.sums, k)
  }

  function Evidence(t: GcTotals, sources: seq<string>): nat {
    if sources == [] then 0
    else At(t, RootSource(sources[0], "pointer_roots")) + At(t, RootSource(sources[0], "rewritten_slots")) + Evidence(t, sources[1..])
  }

  function NativeEvidence(t: GcTotals): nat {
    At(t, NativeScanned) + At(t, Native("roots_found")) + At(t, Native("pinned_roots")) + At(t, Native("pinned_bytes"))
  }

  function Productive(t: GcTotals): nat {
    At(t, Nursery("copied_objects")) + At(t, Nursery("promoted_objects"))
  }

  predicate HasOtherReason(t: GcTotals) {
    exists i | 0 <= i < |KNOWN_REASONS| :: KNOWN_REASONS[i] != "none" && At(t, Reason(KNOWN_REASONS[i])) > 0
  }

  /** The gates every copied-minor workload must hold. */
  predicate TripsStrict(t: GcTotals, gate: Gate) {
    match gate
    case OtherReasons => HasOtherReason(t)
    case Ineligible => At(t, IneligibleCycles) > 0
    case RegistryRebuilds => At(t, Nursery("malloc_registry_rebuilds")) != 0
    case MissingRootSources => At(t, MissingRoots) != 0
    case StackWithoutSource => At(t, Reason("conservative_stack")) > 0 && NativeEvidence(t) == 0
    case PinnedWithoutSource => At(t, Top("conservative_pinned_bytes")) > 0 && NativeEvidence(t) == 0
    case CopyOnlyWithoutSource => At(t, Reason("copy_only_roots")) > 0 && At(t, Legacy("emitted_roots")) == 0
    case LegacyWithoutSource => At(t, Legacy("bytes")) > 0 && At(t, Legacy("emitted_roots")) == 0
    case YoungRootWithoutSource => At(t, Reason("pinned_young_root")) > 0 && Evidence(t, ROOT_SOURCES) == 0
    case DirtySlotWithoutSource => At(t, Reason("pinned_young_dirty_slot")) > 0 && Evidence(t, ROOT_SOURCES) == 0
    case TransitiveWithoutSource => At(t, Reason("pinned_young_transitive")) > 0 && Evidence(t, ROOT_SOURCES) == 0
    case PinnedBytes => At(t, Top("conservative_pinned_bytes")) != 0
    case CompiledPinned => At(t, Top("compiled_frame_conservative_pinned_bytes")) != 0
    case StackTruncation => At(t, StackTruncated) != 0
    case UnboundedStack => At(t, StackUnbounded) != 0
    case YoungRoots => At(t, Legacy("emitted_young_roots")) != 0
    case MallocRoots => At(t, Legacy("emitted_malloc_roots")) != 0
    case UnattributedRoots => SourceField(t.legacySources, "unattributed", "emitted_roots") != 0
    case LegacyBytes => At(t, Legacy("bytes")) != 0
    case Unproductive => Productive(t) == 0
    case NoEvidence => Evidence(t, ROOT_SOURCES) == 0
    case _ => false
  }

  const STRICT_GATES := [
    OtherReasons, Ineligible, RegistryRebuilds, MissingRootSources, StackWithoutSource, PinnedWithoutSource,
    CopyOnlyWithoutSource, LegacyWithoutSource, YoungRootWithoutSource, DirtySlotWithoutSource, TransitiveWithoutSource,
    PinnedBytes, CompiledPinned, StackTruncation, UnboundedStack, YoungRoots, MallocRoots, UnattributedRoots, LegacyBytes,
    Unproductive, NoEvidence]

  type Allowances = map<string, map<string, nat>>

  function Allowed(allowances: Allowances, name: string, kind: string): nat {
    if name in allowances then Get(allowances[name], kind) else 0
  }

  /** The gates every workload must hold, most of them by the words in its name. */
  predicate TripsCommon(allowances: Allowances, name: string, t: GcTotals, gate: Gate) {
    var skipped := At(t, Layout("pointer_free_slots_skipped"));
    match gate
    case ForbiddenMalloc(kind) => At(t, MallocKind(kind)) > Allowed(allowances, name, kind)
    case MissingLayoutScans => At(t, MissingLayout) != 0
    case NoPointerFreeSkips => Contains(name, "pointer_free") && skipped == 0
    case TooManyPointerReads => Contains(name, "pointer_free") && At(t, Layout("pointer_slots_read")) > Max(8, skipped / 8)
    case NoRawArraySkips => Contains(name, "raw_numeric") && At(t, Layout("raw_numeric_array_slots_skipped")) == 0
    case NoRawFieldSkips => Contains(name, "raw_numeric") && At(t, Layout("raw_numeric_object_field_slots_skipped")) == 0
    case NoLargeExclusion =>
      Contains(name, "large") && IsStrict(name)
      && (At(t, Nursery("large_excluded_objects")) == 0 || At(t, Nursery("large_excluded_bytes")) == 0)
    case NoPagesSelected => IsOldPage(name) && At(t, OldPage("evacuation_policy", "old_page_selected_pages")) == 0
    case NothingMoved => IsOldPage(name) && At(t, OldPage("evacuation", "old_page_moved_bytes")) == 0
    case NothingReclaimed =>
      IsOldPage(name) && At(t, OldPage("old_pages", "reusable_bytes")) + At(t, OldPage("old_pages", "pooled_bytes"))
                         + At(t, OldPage("old_pages", "returned_bytes")) == 0
    case _ => false
  }

  const COMMON_GATES := [
    ForbiddenMalloc("string"), ForbiddenMalloc("closure"), ForbiddenMalloc("promise"), MissingLayoutScans,
    NoPointerFreeSkips, TooManyPointerReads, NoRawArraySkips, NoRawFieldSkips, NoLargeExclusion, NoPagesSelected,
    NothingMoved, NothingReclaimed]

  type Workload = (string, GcTotals)

  /** One error for every listed gate that trips, in the order of the list. */
  function Tripped(name: string, gates: seq<Gate>, trips: Gate -> bool): seq<GateError> {
    if gates == [] then []
    else
      var n := |gates| - 1;
      Tripped(name, gates[..n], trips) + if trips(gates[n]) then [GateError(name, gates[n])] else []
  }

  function StrictTrips(w: Workload): Gate -> bool {
    gate => IsStrict(w.0) && TripsStrict(w.1, gate)
  }

  function CommonTrips(allowances: Allowances, w: Workload): Gate -> bool {
    gate => TripsCommon(allowances, w.0, w.1, gate)
  }

  function StrictErrors(): Workload -> seq<GateError> {
    (w: Workload) => Tripped(w.0, STRICT_GATES, StrictTrips(w))
  }

  function CommonErrors(allowances: Allowances): Workload -> seq<GateError> {
    (w: Workload) => Tripped(w.0, COMMON_GATES, CommonTrips(allowances, w))
  }

  /** The errors of all workloads, one workload after another. */
  function OfAll(errorsOf: Workload -> seq<GateError>, workloads: seq<Workload>): seq<GateError> {
    if workloads == [] then []
    else
      var n := |workloads| - 1;
      OfAll(errorsOf, workloads[..n]) + errorsOf(workloads[n])
  }

  predicate NoneStrict(workloads: seq<Workload>) {
    forall i | 0 <= i < |workloads| :: !IsStrict(workloads[i].0)
  }

  /** The whole error list of the gates: the missing strict workload, then the strict gates of every
      strict workload, then the gates that all workloads share. */
  function GateErrors(workloads: seq<Workload>, allowances: Allowances): seq<GateError> {
    (if NoneStrict(workloads) then [NoStrictWorkload] else [])
    + OfAll(StrictErrors(), workloads) + OfAll(CommonErrors(allowances), workloads)
  }

  /** An error for every listed gate that trips. */
  method Collect(name: string, gates: seq<Gate>, trips: Gate -> bool) returns (errors: seq<GateError>)
    ensures errors == Tripped(name, gates, trips)
  {
    errors := [];
    for n := 0 to |gates|
      invariant errors == Tripped(name, gates[..n], trips)
    {
      assert gates[..n + 1][..n] == gates[..n];
      if trips(gates[n]) {
        errors := errors + [GateError(name, gates[n])];
      }
    }
    assert gates[..|gates|] == gates;
  }

  method CollectStrict(w: Workload) returns (errors: seq<GateError>)
    ensures errors == StrictErrors()(w)
  {
    if IsStrict(w.0) {
      errors := Collect(w.0, STRICT_GATES, StrictTrips(w));
    } else {
      errors := [];
      NoneTripped(w.0, STRICT_GATES, StrictTrips(w));
    }
  }

  method CollectCommon(w: Workload, allowances: Allowances) returns (errors: seq<GateError>)
    ensures errors == CommonErrors(allowances)(w)
  {
    errors := Collect(w.0, COMMON_GATES, CommonTrips(allowances, w));
  }

  method StrictPass(workloads: seq<Workload>, before: seq<GateError>) returns (errors: seq<GateError>)
    ensures errors == before + OfAll(StrictErrors(), workloads)
  {
    errors := before;
    for n := 0 to |workloads|
      invariant errors == before + OfAll(StrictErrors(), workloads[..n])
    {
      OfAllStep(StrictErrors(), workloads, n);
      var more := CollectStrict(workloads[n]);
      errors := errors + more;
    }
    assert workloads[..|workloads|] == workloads;
  }

  method CommonPass(workloads: seq<Workload>, allowances: Allowances, before: seq<GateError>) returns (errors: seq<GateError>)
    ensures errors == before + OfAll(CommonErrors(allowances), workloads)
  {
    errors := before;
    for n := 0 to |workloads|
      invariant errors == before + OfAll(CommonErrors(allowances), workloads[..n])
    {
      OfAllStep(CommonErrors(allowances), workloads, n);
      var more := CollectCommon(workloads[n], allowances);
      errors := errors + more;
    }
    assert workloads[..|workloads|] == workloads;
  }

  lemma OfAllStep(errorsOf: Workload -> seq<GateError>, workloads: seq<Workload>, n: nat)
    requires n < |workloads|
    ensures OfAll(errorsOf, workloads[..n + 1]) == OfAll(errorsOf, workloads[..n]) + errorsOf(workloads[n])
  {
    assert workloads[..n + 1][..n] == workloads[..n];
  }

  /** `run_target_collector_gates`. */
  method RunTargetCollectorGates(workloads: seq<Workload>, allowances: Allowances) returns (errors: seq<GateError>)
    ensures errors == GateErrors(workloads, allowances)
  {
    errors := if NoneStrict(workloads) then [NoStrictWorkload] else [];
    errors := StrictPass(workloads, errors);
    errors := CommonPass(workloads, allowances, errors);
  }

  lemma {:induction false} NoneTripped(name: string, gates: seq<Gate>, trips: Gate -> bool)
    ensures Tripped(name, gates, trips) == [] <==> forall i | 0 <= i < |gates| :: !trips(gates[i])
  {
    if gates != [] {
      var n := |gates| - 1;
      NoneTripped(name, gates[..n], trips);
      assert forall i | 0 <= i < n :: gates[..n][i] == gates[i];
    }
  }

  lemma {:induction false} NoneOfAll(errorsOf: Workload -> seq<GateError>, workloads: seq<Workload>)
    ensures OfAll(errorsOf, workloads) == [] <==> forall i | 0 <= i < |workloads| :: errorsOf(workloads[i]) == []
  {
    if workloads != [] {
      var n := |workloads| - 1;
      NoneOfAll(errorsOf, workloads[..n]);
      assert forall i | 0 <= i < n :: workloads[..n][i] == workloads[i];
    }
  }

  /** No gate trips for this workload. */
  ghost predicate TripsNothing(allowances: Allowances, w: Workload) {
    && (IsStrict(w.0) ==> forall i | 0 <= i < |STRICT_GATES| :: !TripsStrict(w.1, STRICT_GATES[i]))
    && (forall i | 0 <= i < |COMMON_GATES| :: !TripsCommon(allowances, w.0, w.1, COMMON_GATES[i]))
  }

  lemma TripsNothingIff(allowances: Allowances, w: Workload)
    ensures TripsNothing(allowances, w) <==> StrictErrors()(w) == [] && CommonErrors(allowances)(w) == []
  {
    NoneTripped(w.0, STRICT_GATES, StrictTrips(w));
    NoneTripped(w.0, COMMON_GATES, CommonTrips(allowances, w));
  }

  /** There is no error exactly when there is a strict workload and no gate trips for any workload. */
  lemma NoGateErrors(workloads: seq<Workload>, allowances: Allowances)
    ensures GateErrors(workloads, allowances) == [] <==>
            !NoneStrict(workloads) && forall i | 0 <= i < |workloads| :: TripsNothing(allowances, workloads[i])
  {
    NoneOfAll(StrictErrors(), workloads);
    NoneOfAll(CommonErrors(allowances), workloads);
    forall i | 0 <= i < |workloads|
      ensures TripsNothing(allowances, workloads[i]) <==>
              StrictErrors()(workloads[i]) == [] && CommonErrors(allowances)(workloads[i]) == []
    {
      TripsNothingIff(allowances, workloads[i]);
    }
  }

  // ---------------------------------------------------------------- the aggregation loop

  function WorkloadOf(shape: Shape, tr: Trace): Workload {
    (tr.name, Aggregate(shape, tr.name, tr.cycles))
  }

  function Workloads(shape: Shape, traces: seq<Trace>): seq<Workload> {
    seq(|traces|, i requires 0 <= i < |traces| => WorkloadOf(shape, traces[i]))
  }

  function Parts(workloads: seq<Workload>): seq<GcTotals> {
    seq(|workloads|, i requires 0 <= i < |workloads| => workloads[i].1)
  }

  predicate AllReadable(traces: seq<Trace>) {
    forall i | 0 <= i < |traces| :: Readable(traces[i])
  }

  function SummaryOf(shape: Shape, workloads: seq<Workload>): GcTotals {
    Sum(shape.counters, Parts(workloads))
  }

  /** One workload of `main`: its totals, and whether it left any error behind. */
  method AggregateTrace(shape: Shape, tr: Trace) returns (w: Workload, readable: bool)
    ensures w == WorkloadOf(shape, tr) && readable == Readable(tr)
  {
    var totals, unknown, oldPageErrors := AggregateWorkload(shape, tr.name, tr.cycles);
    w := (tr.name, totals);
    readable := tr.cycles != [] && unknown == [] && oldPageErrors == [];
  }

  /** The aggregation loop of `main`. */
  method AggregateAll(shape: Shape, traces: seq<Trace>) returns (workloads: seq<Workload>, summary: GcTotals, failed: bool)
    ensures workloads == Workloads(shape, traces) && summary == SummaryOf(shape, workloads)
    ensures failed <==> !AllReadable(traces)
  {
    workloads, failed := [], false;
    summary := StartSummary(shape);
    for n := 0 to |traces|
      invariant workloads == Workloads(shape, traces[..n])
      invariant summary == SummaryOf(shape, workloads)
      invariant failed <==> !AllReadable(traces[..n])
    {
      var w, readable := AggregateTrace(shape, traces[n]);
      workloads, summary := AddWorkload(shape, workloads, summary, w);
      failed := failed || !readable;
      ReadableStep(traces, n);
      WorkloadsStep(shape, traces, n);
    }
    assert traces[..|traces|] == traces;
  }

  lemma WorkloadsStep(shape: Shape, traces: seq<Trace>, n: nat)
    requires n < |traces|
    ensures Workloads(shape, traces[..n + 1]) == Workloads(shape, traces[..n]) + [WorkloadOf(shape, traces[n])]
  {
  }

  lemma ReadableStep(traces: seq<Trace>, n: nat)
    requires n < |traces|
    ensures AllReadable(traces[..n + 1]) <==> AllReadable(traces[..n]) && Readable(traces[n])
  {
    var longer := traces[..n + 1];
    assert forall i | 0 <= i < n :: longer[i] == traces[..n][i];
  }

  method StartSummary(shape: Shape) returns (sum: GcTotals)
    ensures sum == SummaryOf(shape, [])
  {
    sum := Empty(shape.counters);
  }

  method AddWorkload(shape: Shape, workloads: seq<Workload>, summary: GcTotals, w: Workload)
    returns (longer: seq<Workload>, sum: GcTotals)
    requires summary == SummaryOf(shape, workloads)
    ensures longer == workloads + [w] && sum == SummaryOf(shape, longer)
  {
    PartsSnoc(shape.counters, workloads, w);
    longer := workloads + [w];
    sum := AddTotals(summary, w.1);
  }

  lemma PartsSnoc(counters: set<Counter>, workloads: seq<Workload>, w: Workload)
    ensures Sum(counters, Parts(workloads + [w])) == Add(Sum(counters, Parts(workloads)), w.1)
  {
    assert Parts(workloads + [w]) == Parts(workloads) + [w.1];
    SumSnoc(counters, Parts(workloads), w.1);
  }

  // ---------------------------------------------------------------- the command line

  /** `WORKLOAD:KIND=COUNT`. */
  datatype Allowance = Allowance(workload: string, kind: string, count: nat)

  predicate AllRead<T>(specs: seq<Option<T>>) {
    forall i | 0 <= i < |specs| :: specs[i].Some?
  }

  function Values<T>(specs: seq<Option<T>>): seq<T>
    requires AllRead(specs)
  {
    seq(|specs|, i requires 0 <= i < |specs| => specs[i].value)
  }

  function NamesOf(traces: seq<Trace>): set<string> {
    set t | t in traces :: t.name
  }

  predicate DistinctNames(traces: seq<Trace>) {
    forall i, j | 0 <= i < j < |traces| :: traces[i].name != traces[j].name
  }

  /** At least one workload, every one readable, no name twice. */
  predicate GoodWorkloads(specs: seq<Option<Trace>>) {
    specs != [] && AllRead(specs) && DistinctNames(Values(specs))
  }

  predicate SameKey(a: Allowance, b: Allowance) {
    a.workload == b.workload && a.kind == b.kind
  }

  predicate DistinctKeys(allowances: seq<Allowance>) {
    forall i, j | 0 <= i < j < |allowances| :: !SameKey(allowances[i], allowances[j])
  }

  /** For known workloads, and none given twice. */
  predicate GoodList(names: set<string>, allowances: seq<Allowance>) {
    DistinctKeys(allowances) && forall i | 0 <= i < |allowances| :: allowances[i].workload in names
  }

  predicate GoodAllowances(names: set<string>, specs: seq<Option<Allowance>>) {
    AllRead(specs) && GoodList(names, Values(specs))
  }

  /** One more allowance, as the nested dictionary records it. */
  function Allow(table: Allowances, a: Allowance): Allowances {
    var existing := if a.workload in table then table[a.workload] else map[];
    table[a.workload := existing[a.kind := a.count]]
  }

  function Table(allowances: seq<Allowance>): Allowances {
    if allowances == [] then map[]
    else Allow(Table(allowances[..|allowances| - 1]), allowances[|allowances| - 1])
  }

  predicate Listed(table: Allowances, name: string, kind: string) {
    name in table && kind in table[name]
  }

  /** The table lists exactly what was given. */
  lemma {:induction false} TableLists(allowances: seq<Allowance>, name: string, kind: string)
    ensures Listed(Table(allowances), name, kind) <==>
            exists i :: 0 <= i < |allowances| && allowances[i].workload == name && allowances[i].kind == kind
    ensures !Listed(Table(allowances), name, kind) ==> Allowed(Table(allowances), name, kind) == 0
  {
    if allowances != [] {
      var n := |allowances| - 1;
      var front := allowances[..n];
      TableLists(front, name, kind);
      assert forall i | 0 <= i < n :: front[i] == allowances[i];
    }
  }

  /** Each allowance is allowed as it was given. */
  lemma {:induction false} TableHolds(allowances: seq<Allowance>, i: nat)
    requires DistinctKeys(allowances) && i < |allowances|
    ensures Allowed(Table(allowances), allowances[i].workload, allowances[i].kind) == allowances[i].count
  {
    var n := |allowances| - 1;
    var front := allowances[..n];
    if i < n {
      assert DistinctKeys(front) by {
        assert forall j | 0 <= j < n :: front[j] == allowances[j];
      }
      TableHolds(front, i);
      assert !SameKey(allowances[i], allowances[n]);
    }
  }

  lemma ValuesStep<T>(specs: seq<Option<T>>, n: nat)
    requires n < |specs| && AllRead(specs[..n]) && specs[n].Some?
    ensures AllRead(specs[..n + 1]) && Values(specs[..n + 1]) == Values(specs[..n]) + [specs[n].value]
  {
  }

  lemma ValuesPrefix<T>(specs: seq<Option<T>>, n: nat)
    requires n <= |specs| && AllRead(specs)
    ensures AllRead(specs[..n]) && Values(specs[..n]) == Values(specs)[..n]
  {
  }

  lemma NamesSnoc(traces: seq<Trace>, tr: Trace)
    ensures NamesOf(traces + [tr]) == NamesOf(traces) + {tr.name}
    ensures DistinctNames(traces + [tr]) <==> DistinctNames(traces) && tr.name !in NamesOf(traces)
  {
    var longer := traces + [tr];
    assert forall t :: t in longer <==> t in traces || t == tr;
    if tr.name in NamesOf(traces) {
      var i :| 0 <= i < |traces| && traces[i].name == tr.name;
      assert longer[i].name == longer[|traces|].name;
    }
    if DistinctNames(longer) {
      assert forall i | 0 <= i < |traces| :: longer[i] == traces[i];
    }
    if tr.name !in NamesOf(traces) {
      assert forall i | 0 <= i < |traces| :: traces[i].name in NamesOf(traces);
    }
  }

  lemma DistinctPrefix(traces: seq<Trace>, n: nat)
    requires n <= |traces| && DistinctNames(traces)
    ensures DistinctNames(traces[..n])
  {
  }

  method ReadWorkloads(specs: seq<Option<Trace>>) returns (traces: Option<seq<Trace>>)
    ensures traces.Some? <==> GoodWorkloads(specs)
    ensures traces.Some? ==> traces.value == Values(specs)
  {
    if specs == [] {
      return None;
    }
    var read: seq<Trace>, names: set<string> := [], {};
    for n := 0 to |specs|
      invariant AllRead(specs[..n]) && read == Values(specs[..n])
      invariant names == NamesOf(read) && DistinctNames(read)
    {
      if specs[n].None? {
        return None;
      }
      ValuesStep(specs, n);
      NamesSnoc(read, specs[n].value);
      if specs[n].value.name in names {
        if AllRead(specs) && DistinctNames(Values(specs)) {
          ValuesPrefix(specs, n + 1);
          DistinctPrefix(Values(specs), n + 1);
        }
        return None;
      }
      names := names + {specs[n].value.name};
      read := read + [specs[n].value];
    }
    assert specs[..|specs|] == specs;
    return Some(read);
  }

  lemma GoodListSnoc(names: set<string>, allowances: seq<Allowance>, a: Allowance)
    ensures GoodList(names, allowances + [a]) <==>
            GoodList(names, allowances) && a.workload in names && !Listed(Table(allowances), a.workload, a.kind)
  {
    var longer, n := allowances + [a], |allowances|;
    TableLists(allowances, a.workload, a.kind);
    assert longer[n] == a && forall i | 0 <= i < n :: longer[i] == allowances[i];
    if GoodList(names, longer) {
      assert forall i | 0 <= i < n :: !SameKey(longer[i], longer[n]);
    }
  }

  lemma GoodListPrefix(names: set<string>, allowances: seq<Allowance>, n: nat)
    requires n <= |allowances| && GoodList(names, allowances)
    ensures GoodList(names, allowances[..n])
  {
  }

  lemma TableSnoc(allowances: seq<Allowance>, a: Allowance)
    ensures Table(allowances + [a]) == Allow(Table(allowances), a)
  {
    Halves(allowances, [a]);
  }

  method ReadAllowances(names: set<string>, specs: seq<Option<Allowance>>) returns (table: Option<Allowances>)
    ensures table.Some? <==> GoodAllowances(names, specs)
    ensures table.Some? ==> table.value == Table(Values(specs))
  {
    var allowances: Allowances := map[];
    for n := 0 to |specs|
      invariant AllRead(specs[..n]) && GoodList(names, Values(specs[..n])) && allowances == Table(Values(specs[..n]))
    {
      if specs[n].None? {
        return None;
      }
      var a := specs[n].value;
      ValuesStep(specs, n);
      GoodListSnoc(names, Values(specs[..n]), a);
      TableSnoc(Values(specs[..n]), a);
      if a.workload !in names || Listed(allowances, a.workload, a.kind) {
        if AllRead(specs) && GoodList(names, Values(specs)) {
          ValuesPrefix(specs, n + 1);
          GoodListPrefix(names, Values(specs), n + 1);
        }
        return None;
      }
      allowances := Allow(allowances, a);
    }
    assert specs[..|specs|] == specs;
    return Some(allowances);
  }

  /** `main` with target-collector gates: 2 for a bad command line, 1 for any error, 0 otherwise. */
  method TargetCollectorRun(shape: Shape, workloadSpecs: seq<Option<Trace>>, allowanceSpecs: seq<Option<Allowance>>)
    returns (exit: int, summary: GcTotals)
    ensures exit == 2 <==> !(GoodWorkloads(workloadSpecs) && GoodAllowances(NamesOf(Values(workloadSpecs)), allowanceSpecs))
    ensures exit == 0 <==> exit != 2 && Passes(shape, Values(workloadSpecs), Table(Values(allowanceSpecs)))
    ensures exit in {0, 1, 2}
    ensures exit != 2 ==> summary == SummaryOf(shape, Workloads(shape, Values(workloadSpecs)))
  {
    var traces := ReadWorkloads(workloadSpecs);
    if traces.None? {
      return 2, Empty(shape.counters);
    }
    var allowances := ReadAllowances(NamesOf(traces.value), allowanceSpecs);
    if allowances.None? {
      return 2, Empty(shape.counters);
    }
    var workloads, total, failed := AggregateAll(shape, traces.value);
    var errors := RunTargetCollectorGates(workloads, allowances.value);
    return if failed || errors != [] then 1 else 0, total;
  }

  /** Exit code zero, in terms of totals. */
  predicate Passes(shape: Shape, traces: seq<Trace>, allowances: Allowances) {
    AllReadable(traces) && GateErrors(Workloads(shape, traces), allowances) == []
  }
}

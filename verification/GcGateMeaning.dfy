/** What exit code zero of the target-collector run says about the traces: the gates look at totals
    only, but what they enforce holds of every single cycle. */
module GcGateMeaning {
  import opened Options
  import opened Text
  import opened Tally
  import opened GcTotals
  import opened GcGates

  /** A cycle as the copied-minor contract wants it, read straight off the trace record. */
  predicate CleanCycle(cycle: Fields) {
    CleanNursery(cycle) && CleanStack(cycle) && CleanLegacy(cycle)
  }

  predicate CleanNursery(cycle: Fields) {
    var nursery := Nested(cycle, "copying_nursery");
    && IsTrue(nursery, "eligible")
    && NonNegativeInt(nursery, "malloc_registry_rebuilds") == 0
    && Nested(cycle, "root_sources") != map[]
  }

  predicate CleanStack(cycle: Fields) {
    && NonNegativeInt(cycle, "conservative_pinned_bytes") == 0
    && NonNegativeInt(cycle, "compiled_frame_conservative_pinned_bytes") == 0
    && !IsTrue(cycle, "conservative_stack_truncated")
    && !IsTrue(cycle, "conservative_stack_unbounded")
  }

  predicate CleanLegacy(cycle: Fields) {
    var legacy := Nested(cycle, "legacy_copy_only_scanner_pinned");
    && NonNegativeInt(legacy, "emitted_young_roots") == 0
    && NonNegativeInt(legacy, "emitted_malloc_roots") == 0
    && NonNegativeInt(legacy, "bytes") == 0
  }

  predicate NoUnattributedRoots(cycle: Fields) {
    NonNegativeInt(Nested(Nested(Nested(cycle, "legacy_copy_only_scanner_pinned"), "sources"), "unattributed"), "emitted_roots") == 0
  }

  /** The counters that must be zero. */
  const CLEAN_COUNTERS := [
    IneligibleCycles, Nursery("malloc_registry_rebuilds"), MissingRoots, Top("conservative_pinned_bytes"),
    Top("compiled_frame_conservative_pinned_bytes"), StackTruncated, StackUnbounded, Legacy("emitted_young_roots"),
    Legacy("emitted_malloc_roots"), Legacy("bytes")]

  /** The report keeps every counter the gates read. */
  ghost predicate KeepsGated(shape: Shape) {
    KeepsStrict(shape) && KeepsEvidence(shape.counters) && KeepsCommon(shape.counters)
  }

  ghost predicate KeepsStrict(shape: Shape) {
    && (forall i | 0 <= i < |CLEAN_COUNTERS| :: CLEAN_COUNTERS[i] in shape.counters)
    && (forall i | 0 <= i < |KNOWN_REASONS| :: Reason(KNOWN_REASONS[i]) in shape.counters)
    && "emitted_roots" in shape.legacyFields
  }

  ghost predicate KeepsEvidence(counters: set<Counter>) {
    && Nursery("copied_objects") in counters && Nursery("promoted_objects") in counters
    && forall i | 0 <= i < |ROOT_SOURCES| ::
         RootSource(ROOT_SOURCES[i], "pointer_roots") in counters && RootSource(ROOT_SOURCES[i], "rewritten_slots") in counters
  }

  ghost predicate KeepsCommon(counters: set<Counter>) {
    && MallocKind("string") in counters && MallocKind("closure") in counters && MallocKind("promise") in counters
    && MissingLayout in counters
    && Layout("pointer_free_slots_skipped") in counters && Layout("pointer_slots_read") in counters
    && Layout("raw_numeric_array_slots_skipped") in counters && Layout("raw_numeric_object_field_slots_skipped") in counters
    && Nursery("large_excluded_objects") in counters && Nursery("large_excluded_bytes") in counters
    && OldPage("evacuation_policy", "old_page_selected_pages") in counters
    && OldPage("evacuation", "old_page_moved_bytes") in counters
    && OldPage("old_pages", "reusable_bytes") in counters && OldPage("old_pages", "pooled_bytes") in counters
    && OldPage("old_pages", "returned_bytes") in counters
  }

  /** Some cycle reports a positive value for the counter. */
  ghost predicate Reports(name: string, cycles: seq<Fields>, k: Counter) {
    exists i :: 0 <= i < |cycles| && Delta(name, cycles[i], k) > 0
  }

  lemma ZeroCounter(shape: Shape, name: string, cycles: seq<Fields>, k: Counter)
    requires k in shape.counters
    ensures At(Aggregate(shape, name, cycles), k) == 0 <==> forall i | 0 <= i < |cycles| :: Delta(name, cycles[i], k) == 0
  {
    CounterIsSum(shape, name, cycles, k);
    ZeroTotalIsZeroEverywhere(name, cycles, k);
  }

  /** A counter is the sum over the cycles, and positive exactly when some cycle reports it. */
  lemma Counted(shape: Shape, name: string, cycles: seq<Fields>, k: Counter)
    requires k in shape.counters
    ensures At(Aggregate(shape, name, cycles), k) == SumDelta(name, cycles, k)
    ensures SumDelta(name, cycles, k) != 0 <==> Reports(name, cycles, k)
  {
    CounterIsSum(shape, name, cycles, k);
    ZeroTotalIsZeroEverywhere(name, cycles, k);
  }

  lemma ZeroCounters(shape: Shape, name: string, cycles: seq<Fields>, ks: seq<Counter>)
    requires forall j | 0 <= j < |ks| :: ks[j] in shape.counters
    ensures (forall j | 0 <= j < |ks| :: At(Aggregate(shape, name, cycles), ks[j]) == 0) <==>
            forall i, j | 0 <= i < |cycles| && 0 <= j < |ks| :: Delta(name, cycles[i], ks[j]) == 0
  {
    forall j | 0 <= j < |ks|
      ensures At(Aggregate(shape, name, cycles), ks[j]) == 0 <==>
              forall i | 0 <= i < |cycles| :: Delta(name, cycles[i], ks[j]) == 0
    {
      ZeroCounter(shape, name, cycles, ks[j]);
    }
  }

  lemma CleanListOf(f: Counter -> nat)
    ensures (forall j | 0 <= j < |CLEAN_COUNTERS| :: f(CLEAN_COUNTERS[j]) == 0) <==>
            && f(IneligibleCycles) == 0 && f(Nursery("malloc_registry_rebuilds")) == 0 && f(MissingRoots) == 0
            && f(Top("conservative_pinned_bytes")) == 0 && f(Top("compiled_frame_conservative_pinned_bytes")) == 0
            && f(StackTruncated) == 0 && f(StackUnbounded) == 0 && f(Legacy("emitted_young_roots")) == 0
            && f(Legacy("emitted_malloc_roots")) == 0 && f(Legacy("bytes")) == 0
  {
    var ks := CLEAN_COUNTERS;
    assert ks[0] == IneligibleCycles && ks[1] == Nursery("malloc_registry_rebuilds") && ks[2] == MissingRoots;
    assert ks[3] == Top("conservative_pinned_bytes") && ks[4] == Top("compiled_frame_conservative_pinned_bytes");
    assert ks[5] == StackTruncated && ks[6] == StackUnbounded && ks[7] == Legacy("emitted_young_roots");
    assert ks[8] == Legacy("emitted_malloc_roots") && ks[9] == Legacy("bytes");
  }

  lemma CleanCycleDeltas(name: string, cycle: Fields)
    ensures CleanCycle(cycle) <==> forall j | 0 <= j < |CLEAN_COUNTERS| :: Delta(name, cycle, CLEAN_COUNTERS[j]) == 0
  {
    var f: Counter -> nat := k => Delta(name, cycle, k);
    CleanListOf(f);
    assert forall j | 0 <= j < |CLEAN_COUNTERS| :: f(CLEAN_COUNTERS[j]) == Delta(name, cycle, CLEAN_COUNTERS[j]);
    CleanNurseryOf(name, cycle);
    CleanStackOf(name, cycle);
    CleanLegacyOf(name, cycle);
  }

  lemma CleanNurseryOf(name: string, cycle: Fields)
    ensures CleanNursery(cycle) <==>
            && Delta(name, cycle, IneligibleCycles) == 0 && Delta(name, cycle, Nursery("malloc_registry_rebuilds")) == 0
            && Delta(name, cycle, MissingRoots) == 0
  {
  }

  lemma CleanStackOf(name: string, cycle: Fields)
    ensures CleanStack(cycle) <==>
            && Delta(name, cycle, Top("conservative_pinned_bytes")) == 0
            && Delta(name, cycle, Top("compiled_frame_conservative_pinned_bytes")) == 0
            && Delta(name, cycle, StackTruncated) == 0 && Delta(name, cycle, StackUnbounded) == 0
  {
  }

  lemma CleanLegacyOf(name: string, cycle: Fields)
    ensures CleanLegacy(cycle) <==>
            && Delta(name, cycle, Legacy("emitted_young_roots")) == 0
            && Delta(name, cycle, Legacy("emitted_malloc_roots")) == 0 && Delta(name, cycle, Legacy("bytes")) == 0
  {
  }

  /** The zero gates hold of the totals exactly when every cycle is clean. */
  lemma CleanTotalsMeanCleanCycles(shape: Shape, name: string, cycles: seq<Fields>)
    requires KeepsStrict(shape)
    ensures (forall j | 0 <= j < |CLEAN_COUNTERS| :: At(Aggregate(shape, name, cycles), CLEAN_COUNTERS[j]) == 0) <==>
            forall i | 0 <= i < |cycles| :: CleanCycle(cycles[i])
  {
    ZeroCounters(shape, name, cycles, CLEAN_COUNTERS);
    forall i | 0 <= i < |cycles|
      ensures CleanCycle(cycles[i]) <==> forall j | 0 <= j < |CLEAN_COUNTERS| :: Delta(name, cycles[i], CLEAN_COUNTERS[j]) == 0
    {
      CleanCycleDeltas(name, cycles[i]);
    }
  }

  lemma NoneIsKnown()
    ensures KNOWN_REASONS[0] == "none"
  {
  }

  /** No unknown and no other reason: every cycle said `none`. */
  lemma OnlyReasonNone(shape: Shape, name: string, cycles: seq<Fields>)
    requires KeepsStrict(shape)
    ensures (UnknownIn(cycles) == [] && !HasOtherReason(Aggregate(shape, name, cycles))) <==>
            forall i | 0 <= i < |cycles| :: ReasonOf(cycles[i]) == Some("none")
  {
    var t := Aggregate(shape, name, cycles);
    NoneUnknown(cycles);
    NoneIsKnown();
    forall j | 0 <= j < |KNOWN_REASONS|
      ensures At(t, Reason(KNOWN_REASONS[j])) == 0 <==> forall i | 0 <= i < |cycles| :: ReasonOf(cycles[i]) != Some(KNOWN_REASONS[j])
    {
      ZeroReason(shape, name, cycles, KNOWN_REASONS[j]);
    }
    if UnknownIn(cycles) == [] && !HasOtherReason(t) {
      forall i | 0 <= i < |cycles|
        ensures ReasonOf(cycles[i]) == Some("none")
      {
        assert HasKnownReason(cycles[i]);
        var j :| 0 <= j < |KNOWN_REASONS| && KNOWN_REASONS[j] == ReasonOf(cycles[i]).value;
        assert At(t, Reason(KNOWN_REASONS[j])) != 0;
      }
    }
  }

  lemma ZeroReason(shape: Shape, name: string, cycles: seq<Fields>, r: string)
    requires Reason(r) in shape.counters
    ensures At(Aggregate(shape, name, cycles), Reason(r)) == 0 <==> forall i | 0 <= i < |cycles| :: ReasonOf(cycles[i]) != Some(r)
  {
    ZeroCounter(shape, name, cycles, Reason(r));
    assert forall i | 0 <= i < |cycles| :: Delta(name, cycles[i], Reason(r)) == 0 <==> ReasonOf(cycles[i]) != Some(r);
  }

  lemma UnattributedField(fields: set<string>, cycle: Fields)
    requires "emitted_roots" in fields
    ensures SourceField(LegacySources(fields, cycle), "unattributed", "emitted_roots") == 0 <==> NoUnattributedRoots(cycle)
  {
  }

  lemma UnattributedMeans(shape: Shape, name: string, cycles: seq<Fields>)
    requires KeepsStrict(shape)
    ensures SourceField(Aggregate(shape, name, cycles).legacySources, "unattributed", "emitted_roots") == 0 <==>
            forall i | 0 <= i < |cycles| :: NoUnattributedRoots(cycles[i])
  {
    ZeroSourceIsZeroEverywhere(shape, name, cycles, "unattributed", "emitted_roots");
    forall i | 0 <= i < |cycles|
      ensures SourceField(LegacySources(shape.legacyFields, cycles[i]), "unattributed", "emitted_roots") == 0 <==>
              NoUnattributedRoots(cycles[i])
    {
      UnattributedField(shape.legacyFields, cycles[i]);
    }
  }

  // ---------------------------------------------------------------- the strict gates together

  /** Everything the strict gates ask of the totals. */
  ghost predicate StrictTotals(t: GcTotals) {
    && !HasOtherReason(t)
    && (forall j | 0 <= j < |CLEAN_COUNTERS| :: At(t, CLEAN_COUNTERS[j]) == 0)
    && SourceField(t.legacySources, "unattributed", "emitted_roots") == 0
    && Productive(t) != 0 && Evidence(t, ROOT_SOURCES) != 0
  }

  lemma StrictGatesImply(t: GcTotals)
    requires forall i | 0 <= i < |STRICT_GATES| :: !TripsStrict(t, STRICT_GATES[i])
    ensures StrictTotals(t)
  {
    var p: Gate -> bool := gate => TripsStrict(t, gate);
    StrictListOf(p);
    StrictNursery(t);
    StrictStack(t);
    StrictLegacy(t);
    CleanList(t);
  }

  lemma StrictNursery(t: GcTotals)
    requires !TripsStrict(t, OtherReasons) && !TripsStrict(t, Ineligible) && !TripsStrict(t, RegistryRebuilds)
    requires !TripsStrict(t, MissingRootSources) && !TripsStrict(t, Unproductive) && !TripsStrict(t, NoEvidence)
    ensures !HasOtherReason(t) && At(t, IneligibleCycles) == 0 && At(t, Nursery("malloc_registry_rebuilds")) == 0
    ensures At(t, MissingRoots) == 0 && Productive(t) != 0 && Evidence(t, ROOT_SOURCES) != 0
  {
  }

  lemma StrictStack(t: GcTotals)
    requires !TripsStrict(t, PinnedBytes) && !TripsStrict(t, CompiledPinned) && !TripsStrict(t, StackTruncation)
    requires !TripsStrict(t, UnboundedStack)
    ensures At(t, Top("conservative_pinned_bytes")) == 0 && At(t, Top("compiled_frame_conservative_pinned_bytes")) == 0
    ensures At(t, StackTruncated) == 0 && At(t, StackUnbounded) == 0
  {
  }

  lemma StrictLegacy(t: GcTotals)
    requires !TripsStrict(t, YoungRoots) && !TripsStrict(t, MallocRoots) && !TripsStrict(t, UnattributedRoots)
    requires !TripsStrict(t, LegacyBytes)
    ensures At(t, Legacy("emitted_young_roots")) == 0 && At(t, Legacy("emitted_malloc_roots")) == 0 && At(t, Legacy("bytes")) == 0
    ensures SourceField(t.legacySources, "unattributed", "emitted_roots") == 0
  {
  }

  lemma StrictTotalsImply(t: GcTotals, gate: Gate)
    requires StrictTotals(t)
    ensures !TripsStrict(t, gate)
  {
    CleanList(t);
    NothingToAttribute(t);
  }

  lemma StrictListOf(p: Gate -> bool)
    requires forall i | 0 <= i < |STRICT_GATES| :: !p(STRICT_GATES[i])
    ensures !p(OtherReasons) && !p(Ineligible) && !p(RegistryRebuilds) && !p(MissingRootSources) && !p(PinnedBytes)
    ensures !p(CompiledPinned) && !p(StackTruncation) && !p(UnboundedStack) && !p(YoungRoots) && !p(MallocRoots)
    ensures !p(UnattributedRoots) && !p(LegacyBytes) && !p(Unproductive) && !p(NoEvidence)
  {
    var gs := STRICT_GATES;
    assert gs[0] == OtherReasons && gs[1] == Ineligible && gs[2] == RegistryRebuilds && gs[3] == MissingRootSources;
    assert gs[11] == PinnedBytes && gs[12] == CompiledPinned && gs[13] == StackTruncation && gs[14] == UnboundedStack;
    assert gs[15] == YoungRoots && gs[16] == MallocRoots && gs[17] == UnattributedRoots && gs[18] == LegacyBytes;
    assert gs[19] == Unproductive && gs[20] == NoEvidence;
  }

  lemma CleanList(t: GcTotals)
    ensures (forall j | 0 <= j < |CLEAN_COUNTERS| :: At(t, CLEAN_COUNTERS[j]) == 0) <==>
            && At(t, IneligibleCycles) == 0 && At(t, Nursery("malloc_registry_rebuilds")) == 0 && At(t, MissingRoots) == 0
            && At(t, Top("conservative_pinned_bytes")) == 0 && At(t, Top("compiled_frame_conservative_pinned_bytes")) == 0
            && At(t, StackTruncated) == 0 && At(t, StackUnbounded) == 0 && At(t, Legacy("emitted_young_roots")) == 0
            && At(t, Legacy("emitted_malloc_roots")) == 0 && At(t, Legacy("bytes")) == 0
  {
    var f: Counter -> nat := k => At(t, k);
    CleanListOf(f);
    assert forall j | 0 <= j < |CLEAN_COUNTERS| :: f(CLEAN_COUNTERS[j]) == At(t, CLEAN_COUNTERS[j]);
  }

  /** With nothing to attribute no attribution gate can trip. */
  lemma NothingToAttribute(t: GcTotals)
    requires !HasOtherReason(t)
    ensures At(t, Reason("conservative_stack")) == 0 && At(t, Reason("copy_only_roots")) == 0
    ensures At(t, Reason("pinned_young_root")) == 0 && At(t, Reason("pinned_young_dirty_slot")) == 0
    ensures At(t, Reason("pinned_young_transitive")) == 0
  {
    var rs := KNOWN_REASONS;
    assert rs[1] == "copy_only_roots" && rs[3] == "conservative_stack" && rs[8] == "pinned_young_root";
    assert rs[9] == "pinned_young_dirty_slot" && rs[10] == "pinned_young_transitive";
  }

  // ---------------------------------------------------------------- work and evidence

  /** Some cycle copied or promoted an object. */
  ghost predicate SomeWork(name: string, cycles: seq<Fields>) {
    Reports(name, cycles, Nursery("copied_objects")) || Reports(name, cycles, Nursery("promoted_objects"))
  }

  /** Some cycle found pointers in a mutable or shadow root source, or rewrote its slots. */
  ghost predicate SomeEvidence(name: string, cycles: seq<Fields>, sources: seq<string>) {
    exists j :: 0 <= j < |sources| && SourceReports(name, cycles, sources[j])
  }

  ghost predicate SourceReports(name: string, cycles: seq<Fields>, source: string) {
    Reports(name, cycles, RootSource(source, "pointer_roots")) || Reports(name, cycles, RootSource(source, "rewritten_slots"))
  }

  lemma WorkMeans(shape: Shape, name: string, cycles: seq<Fields>)
    requires KeepsEvidence(shape.counters)
    ensures Productive(Aggregate(shape, name, cycles)) != 0 <==> SomeWork(name, cycles)
  {
    Counted(shape, name, cycles, Nursery("copied_objects"));
    Counted(shape, name, cycles, Nursery("promoted_objects"));
  }

  lemma SourceMeans(shape: Shape, name: string, cycles: seq<Fields>, source: string)
    requires RootSource(source, "pointer_roots") in shape.counters && RootSource(source, "rewritten_slots") in shape.counters
    ensures var t := Aggregate(shape, name, cycles);
            At(t, RootSource(source, "pointer_roots")) + At(t, RootSource(source, "rewritten_slots")) != 0 <==>
            SourceReports(name, cycles, source)
  {
    Counted(shape, name, cycles, RootSource(source, "pointer_roots"));
    Counted(shape, name, cycles, RootSource(source, "rewritten_slots"));
  }

  lemma {:induction false} EvidenceMeans(shape: Shape, name: string, cycles: seq<Fields>, sources: seq<string>)
    requires forall j | 0 <= j < |sources| ::
               RootSource(sources[j], "pointer_roots") in shape.counters && RootSource(sources[j], "rewritten_slots") in shape.counters
    ensures Evidence(Aggregate(shape, name, cycles), sources) != 0 <==> SomeEvidence(name, cycles, sources)
  {
    if sources != [] {
      var rest := sources[1..];
      assert forall j | 0 <= j < |rest| :: rest[j] == sources[j + 1];
      EvidenceMeans(shape, name, cycles, rest);
      SourceMeans(shape, name, cycles, sources[0]);
      if j :| 0 <= j < |sources| && SourceReports(name, cycles, sources[j]) {
        assert j == 0 || sources[j] == rest[j - 1];
      }
    }
  }

  /** Every cycle is as the contract wants it, and some cycle did some work and left evidence of it. */
  ghost predicate StrictHolds(name: string, cycles: seq<Fields>) {
    && (forall i | 0 <= i < |cycles| ::
          ReasonOf(cycles[i]) == Some("none") && CleanCycle(cycles[i]) && NoUnattributedRoots(cycles[i]))
    && SomeWork(name, cycles) && SomeEvidence(name, cycles, ROOT_SOURCES)
  }

  lemma StrictGatesAreTotals(t: GcTotals)
    ensures (forall i | 0 <= i < |STRICT_GATES| :: !TripsStrict(t, STRICT_GATES[i])) <==> StrictTotals(t)
  {
    if forall i | 0 <= i < |STRICT_GATES| :: !TripsStrict(t, STRICT_GATES[i]) {
      StrictGatesImply(t);
    }
    if StrictTotals(t) {
      forall i | 0 <= i < |STRICT_GATES|
        ensures !TripsStrict(t, STRICT_GATES[i])
      {
        StrictTotalsImply(t, STRICT_GATES[i]);
      }
    }
  }

  /** The strict gates and the reason check pass exactly when every cycle is as wanted and some cycle
      did some work. */
  lemma StrictGatesMeanEveryCycle(shape: Shape, name: string, cycles: seq<Fields>)
    requires KeepsGated(shape)
    ensures var t := Aggregate(shape, name, cycles);
            (UnknownIn(cycles) == [] && forall i | 0 <= i < |STRICT_GATES| :: !TripsStrict(t, STRICT_GATES[i])) <==>
            StrictHolds(name, cycles)
  {
    StrictGatesAreTotals(Aggregate(shape, name, cycles));
    CleanTotalsMeanCleanCycles(shape, name, cycles);
    OnlyReasonNone(shape, name, cycles);
    UnattributedMeans(shape, name, cycles);
    WorkMeans(shape, name, cycles);
    EvidenceMeans(shape, name, cycles, ROOT_SOURCES);
  }

  // ---------------------------------------------------------------- the gates of all workloads

  /** A kind without an allowance is allocated in no cycle; otherwise its total is within the allowance. */
  ghost predicate MallocHolds(allowances: Allowances, name: string, cycles: seq<Fields>, kind: string) {
    var allowed := Allowed(allowances, name, kind);
    if allowed == 0 then forall i | 0 <= i < |cycles| :: Delta(name, cycles[i], MallocKind(kind)) == 0
    else SumDelta(name, cycles, MallocKind(kind)) <= allowed
  }

  /** Some slots were skipped, and few enough were read. */
  ghost predicate PointerFreeHolds(name: string, cycles: seq<Fields>) {
    Contains(name, "pointer_free") ==>
      && Reports(name, cycles, Layout("pointer_free_slots_skipped"))
      && SumDelta(name, cycles, Layout("pointer_slots_read")) <= Max(8, SumDelta(name, cycles, Layout("pointer_free_slots_skipped")) / 8)
  }

  ghost predicate RawNumericHolds(name: string, cycles: seq<Fields>) {
    Contains(name, "raw_numeric") ==>
      && Reports(name, cycles, Layout("raw_numeric_array_slots_skipped"))
      && Reports(name, cycles, Layout("raw_numeric_object_field_slots_skipped"))
  }

  ghost predicate LargeHolds(name: string, cycles: seq<Fields>) {
    Contains(name, "large") && IsStrict(name) ==>
      && Reports(name, cycles, Nursery("large_excluded_objects"))
      && Reports(name, cycles, Nursery("large_excluded_bytes"))
  }

  /** Some cycle selected pages, some cycle moved bytes, and some cycle got bytes back. */
  ghost predicate OldPageHolds(name: string, cycles: seq<Fields>) {
    IsOldPage(name) ==>
      && Reports(name, cycles, OldPage("evacuation_policy", "old_page_selected_pages"))
      && Reports(name, cycles, OldPage("evacuation", "old_page_moved_bytes"))
      && (Reports(name, cycles, OldPage("old_pages", "reusable_bytes")) || Reports(name, cycles, OldPage("old_pages", "pooled_bytes"))
          || Reports(name, cycles, OldPage("old_pages", "returned_bytes")))
  }

  ghost predicate LayoutHolds(cycles: seq<Fields>) {
    forall i | 0 <= i < |cycles| :: Nested(cycles[i], "layout_scans") != map[]
  }

  ghost predicate CommonHolds(allowances: Allowances, name: string, cycles: seq<Fields>) {
    && MallocHolds(allowances, name, cycles, "string") && MallocHolds(allowances, name, cycles, "closure")
    && MallocHolds(allowances, name, cycles, "promise")
    && LayoutHolds(cycles) && PointerFreeHolds(name, cycles) && RawNumericHolds(name, cycles)
    && LargeHolds(name, cycles) && OldPageHolds(name, cycles)
  }

  lemma MallocMeans(shape: Shape, allowances: Allowances, name: string, cycles: seq<Fields>, kind: string)
    requires MallocKind(kind) in shape.counters
    ensures !TripsCommon(allowances, name, Aggregate(shape, name, cycles), ForbiddenMalloc(kind)) <==>
            MallocHolds(allowances, name, cycles, kind)
  {
    Counted(shape, name, cycles, MallocKind(kind));
    ZeroTotalIsZeroEverywhere(name, cycles, MallocKind(kind));
  }

  lemma LayoutMeans(shape: Shape, allowances: Allowances, name: string, cycles: seq<Fields>)
    requires MissingLayout in shape.counters
    ensures !TripsCommon(allowances, name, Aggregate(shape, name, cycles), MissingLayoutScans) <==> LayoutHolds(cycles)
  {
    ZeroCounter(shape, name, cycles, MissingLayout);
    forall i | 0 <= i < |cycles|
      ensures Delta(name, cycles[i], MissingLayout) == 0 <==> Nested(cycles[i], "layout_scans") != map[]
    {
      LayoutDelta(name, cycles[i]);
    }
  }

  lemma LayoutDelta(name: string, cycle: Fields)
    ensures Delta(name, cycle, MissingLayout) == 0 <==> Nested(cycle, "layout_scans") != map[]
  {
  }

  lemma PointerFreeGates(allowances: Allowances, name: string, t: GcTotals)
    ensures (!TripsCommon(allowances, name, t, NoPointerFreeSkips) && !TripsCommon(allowances, name, t, TooManyPointerReads)) <==>
            (Contains(name, "pointer_free") ==>
               && At(t, Layout("pointer_free_slots_skipped")) != 0
               && At(t, Layout("pointer_slots_read")) <= Max(8, At(t, Layout("pointer_free_slots_skipped")) / 8))
  {
  }

  lemma PointerFreeMeans(shape: Shape, allowances: Allowances, name: string, cycles: seq<Fields>)
    requires KeepsCommon(shape.counters)
    ensures var t := Aggregate(shape, name, cycles);
            (!TripsCommon(allowances, name, t, NoPointerFreeSkips) && !TripsCommon(allowances, name, t, TooManyPointerReads)) <==>
            PointerFreeHolds(name, cycles)
  {
    PointerFreeGates(allowances, name, Aggregate(shape, name, cycles));
    CountedLayout(shape, name, cycles, "pointer_free_slots_skipped");
    CountedLayout(shape, name, cycles, "pointer_slots_read");
  }

  lemma CountedLayout(shape: Shape, name: string, cycles: seq<Fields>, field: string)
    requires Layout(field) in shape.counters
    ensures At(Aggregate(shape, name, cycles), Layout(field)) == SumDelta(name, cycles, Layout(field))
    ensures SumDelta(name, cycles, Layout(field)) != 0 <==> Reports(name, cycles, Layout(field))
  {
    Counted(shape, name, cycles, Layout(field));
  }

  lemma RawNumericGates(allowances: Allowances, name: string, t: GcTotals)
    ensures (!TripsCommon(allowances, name, t, NoRawArraySkips) && !TripsCommon(allowances, name, t, NoRawFieldSkips)) <==>
            (Contains(name, "raw_numeric") ==>
               At(t, Layout("raw_numeric_array_slots_skipped")) != 0 && At(t, Layout("raw_numeric_object_field_slots_skipped")) != 0)
  {
  }

  lemma RawNumericMeans(shape: Shape, allowances: Allowances, name: string, cycles: seq<Fields>)
    requires KeepsCommon(shape.counters)
    ensures var t := Aggregate(shape, name, cycles);
            (!TripsCommon(allowances, name, t, NoRawArraySkips) && !TripsCommon(allowances, name, t, NoRawFieldSkips)) <==>
            RawNumericHolds(name, cycles)
  {
    RawNumericGates(allowances, name, Aggregate(shape, name, cycles));
    CountedLayout(shape, name, cycles, "raw_numeric_array_slots_skipped");
    CountedLayout(shape, name, cycles, "raw_numeric_object_field_slots_skipped");
  }

  lemma LargeGate(allowances: Allowances, name: string, t: GcTotals)
    ensures !TripsCommon(allowances, name, t, NoLargeExclusion) <==>
            (Contains(name, "large") && IsStrict(name) ==>
               At(t, Nursery("large_excluded_objects")) != 0 && At(t, Nursery("large_excluded_bytes")) != 0)
  {
  }

  lemma LargeMeans(shape: Shape, allowances: Allowances, name: string, cycles: seq<Fields>)
    requires KeepsCommon(shape.counters)
    ensures !TripsCommon(allowances, name, Aggregate(shape, name, cycles), NoLargeExclusion) <==> LargeHolds(name, cycles)
  {
    LargeGate(allowances, name, Aggregate(shape, name, cycles));
    CountedNursery(shape, name, cycles, "large_excluded_objects");
    CountedNursery(shape, name, cycles, "large_excluded_bytes");
  }

  lemma CountedNursery(shape: Shape, name: string, cycles: seq<Fields>, field: string)
    requires Nursery(field) in shape.counters
    ensures At(Aggregate(shape, name, cycles), Nursery(field)) != 0 <==> Reports(name, cycles, Nursery(field))
  {
    Counted(shape, name, cycles, Nursery(field));
  }

  lemma OldPageGates(allowances: Allowances, name: string, t: GcTotals)
    ensures (!TripsCommon(allowances, name, t, NoPagesSelected) && !TripsCommon(allowances, name, t, NothingMoved)
             && !TripsCommon(allowances, name, t, NothingReclaimed)) <==>
            (IsOldPage(name) ==>
               && At(t, OldPage("evacuation_policy", "old_page_selected_pages")) != 0
               && At(t, OldPage("evacuation", "old_page_moved_bytes")) != 0
               && (At(t, OldPage("old_pages", "reusable_bytes")) != 0 || At(t, OldPage("old_pages", "pooled_bytes")) != 0
                   || At(t, OldPage("old_pages", "returned_bytes")) != 0))
  {
  }

  lemma OldPageMeans(shape: Shape, allowances: Allowances, name: string, cycles: seq<Fields>)
    requires KeepsCommon(shape.counters)
    ensures var t := Aggregate(shape, name, cycles);
            (!TripsCommon(allowances, name, t, NoPagesSelected) && !TripsCommon(allowances, name, t, NothingMoved)
             && !TripsCommon(allowances, name, t, NothingReclaimed)) <==> OldPageHolds(name, cycles)
  {
    OldPageGates(allowances, name, Aggregate(shape, name, cycles));
    CountedOldPage(shape, name, cycles, "evacuation_policy", "old_page_selected_pages");
    CountedOldPage(shape, name, cycles, "evacuation", "old_page_moved_bytes");
    CountedOldPage(shape, name, cycles, "old_pages", "reusable_bytes");
    CountedOldPage(shape, name, cycles, "old_pages", "pooled_bytes");
    CountedOldPage(shape, name, cycles, "old_pages", "returned_bytes");
  }

  lemma CountedOldPage(shape: Shape, name: string, cycles: seq<Fields>, section: string, field: string)
    requires OldPage(section, field) in shape.counters
    ensures At(Aggregate(shape, name, cycles), OldPage(section, field)) != 0 <==> Reports(name, cycles, OldPage(section, field))
  {
    Counted(shape, name, cycles, OldPage(section, field));
  }

  lemma CommonList(i: nat)
    requires i < |COMMON_GATES|
    ensures COMMON_GATES[i] ==
            if i == 0 then ForbiddenMalloc("string") else if i == 1 then ForbiddenMalloc("closure")
            else if i == 2 then ForbiddenMalloc("promise") else if i == 3 then MissingLayoutScans
            else if i == 4 then NoPointerFreeSkips else if i == 5 then TooManyPointerReads
            else if i == 6 then NoRawArraySkips else if i == 7 then NoRawFieldSkips
            else if i == 8 then NoLargeExclusion else if i == 9 then NoPagesSelected
            else if i == 10 then NothingMoved else NothingReclaimed
  {
  }

  ghost predicate HoldsOfAll(p: Gate -> bool) {
    && !p(ForbiddenMalloc("string")) && !p(ForbiddenMalloc("closure")) && !p(ForbiddenMalloc("promise"))
    && !p(MissingLayoutScans) && !p(NoPointerFreeSkips) && !p(TooManyPointerReads) && !p(NoRawArraySkips)
    && !p(NoRawFieldSkips) && !p(NoLargeExclusion) && !p(NoPagesSelected) && !p(NothingMoved) && !p(NothingReclaimed)
  }

  lemma CommonListImplies(p: Gate -> bool)
    requires forall i | 0 <= i < |COMMON_GATES| :: !p(COMMON_GATES[i])
    ensures HoldsOfAll(p)
  {
    var gs := COMMON_GATES;
    assert gs[0] == ForbiddenMalloc("string") && gs[1] == ForbiddenMalloc("closure") && gs[2] == ForbiddenMalloc("promise");
    assert gs[3] == MissingLayoutScans && gs[4] == NoPointerFreeSkips && gs[5] == TooManyPointerReads;
    assert gs[6] == NoRawArraySkips && gs[7] == NoRawFieldSkips && gs[8] == NoLargeExclusion && gs[9] == NoPagesSelected;
    assert gs[10] == NothingMoved && gs[11] == NothingReclaimed;
  }

  lemma CommonListOf(p: Gate -> bool)
    ensures (forall i | 0 <= i < |COMMON_GATES| :: !p(COMMON_GATES[i])) <==> HoldsOfAll(p)
  {
    if forall i | 0 <= i < |COMMON_GATES| :: !p(COMMON_GATES[i]) {
      CommonListImplies(p);
    }
    if HoldsOfAll(p) {
      forall i | 0 <= i < |COMMON_GATES|
        ensures !p(COMMON_GATES[i])
      {
        CommonList(i);
      }
    }
  }

  lemma AllGatesMean(shape: Shape, allowances: Allowances, name: string, cycles: seq<Fields>)
    requires KeepsCommon(shape.counters)
    ensures HoldsOfAll(CommonTrips(allowances, (name, Aggregate(shape, name, cycles)))) <==> CommonHolds(allowances, name, cycles)
  {
    MallocMeans(shape, allowances, name, cycles, "string");
    MallocMeans(shape, allowances, name, cycles, "closure");
    MallocMeans(shape, allowances, name, cycles, "promise");
    LayoutMeans(shape, allowances, name, cycles);
    PointerFreeMeans(shape, allowances, name, cycles);
    RawNumericMeans(shape, allowances, name, cycles);
    LargeMeans(shape, allowances, name, cycles);
    OldPageMeans(shape, allowances, name, cycles);
  }

  /** The gates of all workloads pass exactly when the cycles hold what they stand for. */
  lemma CommonGatesMean(shape: Shape, allowances: Allowances, name: string, cycles: seq<Fields>)
    requires KeepsCommon(shape.counters)
    ensures (forall i | 0 <= i < |COMMON_GATES| :: !TripsCommon(allowances, name, Aggregate(shape, name, cycles), COMMON_GATES[i])) <==>
            CommonHolds(allowances, name, cycles)
  {
    var p := CommonTrips(allowances, (name, Aggregate(shape, name, cycles)));
    CommonListOf(p);
    AllGatesMean(shape, allowances, name, cycles);
    assert forall i | 0 <= i < |COMMON_GATES| ::
        p(COMMON_GATES[i]) == TripsCommon(allowances, name, Aggregate(shape, name, cycles), COMMON_GATES[i]);
  }

  // ---------------------------------------------------------------- the whole run

  /** What exit code zero promises of one trace, read off its cycles. */
  ghost predicate TraceHolds(allowances: Allowances, tr: Trace) {
    && tr.cycles != []
    && (forall i | 0 <= i < |tr.cycles| :: HasKnownReason(tr.cycles[i]))
    && (IsStrict(tr.name) ==> StrictHolds(tr.name, tr.cycles))
    && (IsOldPage(tr.name) ==> forall i, r | 0 <= i < |tr.cycles| :: !Breaks(tr.cycles[i], r))
    && CommonHolds(allowances, tr.name, tr.cycles)
  }

  lemma ReadableMeans(tr: Trace)
    ensures Readable(tr) <==>
            && tr.cycles != []
            && (forall i | 0 <= i < |tr.cycles| :: HasKnownReason(tr.cycles[i]))
            && (IsOldPage(tr.name) ==> forall i, r | 0 <= i < |tr.cycles| :: !Breaks(tr.cycles[i], r))
  {
    NoneUnknown(tr.cycles);
    NonEmptyNone(BrokenRules(), tr.cycles);
    forall i | 0 <= i < |tr.cycles|
      ensures BrokenRules()(tr.cycles[i]) == [] <==> forall r: OldPageRule :: !Breaks(tr.cycles[i], r)
    {
      NoRuleBroken(tr.cycles[i]);
    }
  }

  lemma TraceHoldsIff(shape: Shape, allowances: Allowances, tr: Trace)
    requires KeepsGated(shape)
    ensures TraceHolds(allowances, tr) <==> Readable(tr) && TripsNothing(allowances, WorkloadOf(shape, tr))
  {
    ReadableMeans(tr);
    if Readable(tr) {
      QuietMeans(shape, allowances, tr.name, tr.cycles);
    }
  }

  lemma QuietMeans(shape: Shape, allowances: Allowances, name: string, cycles: seq<Fields>)
    requires KeepsGated(shape) && UnknownIn(cycles) == []
    ensures TripsNothing(allowances, (name, Aggregate(shape, name, cycles))) <==>
            (IsStrict(name) ==> StrictHolds(name, cycles)) && CommonHolds(allowances, name, cycles)
  {
    CommonGatesMean(shape, allowances, name, cycles);
    if IsStrict(name) {
      StrictGatesMeanEveryCycle(shape, name, cycles);
    }
  }

  lemma StrictNames(shape: Shape, traces: seq<Trace>)
    ensures NoneStrict(Workloads(shape, traces)) <==> forall i | 0 <= i < |traces| :: !IsStrict(traces[i].name)
  {
    var ws := Workloads(shape, traces);
    assert forall i | 0 <= i < |traces| :: ws[i].0 == traces[i].name;
  }

  lemma TracesHold(shape: Shape, traces: seq<Trace>, allowances: Allowances)
    requires KeepsGated(shape)
    ensures (forall i | 0 <= i < |traces| :: TraceHolds(allowances, traces[i])) <==>
            AllReadable(traces)
            && forall i | 0 <= i < |traces| :: TripsNothing(allowances, Workloads(shape, traces)[i])
  {
    var ws := Workloads(shape, traces);
    forall i | 0 <= i < |traces|
      ensures TraceHolds(allowances, traces[i]) <==> Readable(traces[i]) && TripsNothing(allowances, ws[i])
    {
      TraceHoldsIff(shape, allowances, traces[i]);
    }
  }

  /** The run passes exactly when there is a strict workload and every trace, cycle by cycle, holds. */
  lemma PassesMeansEveryCycle(shape: Shape, traces: seq<Trace>, allowances: Allowances)
    requires KeepsGated(shape)
    ensures Passes(shape, traces, allowances) <==>
            && (exists i :: 0 <= i < |traces| && IsStrict(traces[i].name))
            && forall i | 0 <= i < |traces| :: TraceHolds(allowances, traces[i])
  {
    NoGateErrors(Workloads(shape, traces), allowances);
    StrictNames(shape, traces);
    TracesHold(shape, traces, allowances);
  }

  // ---------------------------------------------------------------- the script's report

  lemma CleanListIn(s: set<Counter>)
    requires IneligibleCycles in s && Nursery("malloc_registry_rebuilds") in s && MissingRoots in s
    requires Top("conservative_pinned_bytes") in s && Top("compiled_frame_conservative_pinned_bytes") in s
    requires StackTruncated in s && StackUnbounded in s && Legacy("emitted_young_roots") in s
    requires Legacy("emitted_malloc_roots") in s && Legacy("bytes") in s
    ensures forall j | 0 <= j < |CLEAN_COUNTERS| :: CLEAN_COUNTERS[j] in s
  {
  }

  lemma KeptNursery(f: string)
    requires f in NURSERY_FIELDS
    ensures Nursery(f) in COUNTERS
  {
  }

  lemma KeptTop(f: string)
    requires f in TOP_FIELDS
    ensures Top(f) in COUNTERS
  {
  }

  lemma KeptLegacy(f: string)
    requires f in LEGACY_FIELDS
    ensures Legacy(f) in COUNTERS
  {
  }

  lemma KeptReason(r: string)
    requires r in KNOWN_REASONS
    ensures Reason(r) in COUNTERS
  {
  }

  lemma KeptPlain()
    ensures IneligibleCycles in COUNTERS && MissingRoots in COUNTERS && StackTruncated in COUNTERS && StackUnbounded in COUNTERS
  {
  }

  lemma ReadFields()
    ensures "malloc_registry_rebuilds" in NURSERY_FIELDS
    ensures "conservative_pinned_bytes" in TOP_FIELDS && "compiled_frame_conservative_pinned_bytes" in TOP_FIELDS
    ensures "emitted_young_roots" in LEGACY_FIELDS && "emitted_malloc_roots" in LEGACY_FIELDS && "bytes" in LEGACY_FIELDS
    ensures "emitted_roots" in LEGACY_SOURCE_FIELDS
  {
    assert NURSERY_FIELDS[6] == "malloc_registry_rebuilds";
    assert TOP_FIELDS[0] == "conservative_pinned_bytes" && TOP_FIELDS[1] == "compiled_frame_conservative_pinned_bytes";
    assert LEGACY_FIELDS[3] == "emitted_young_roots" && LEGACY_FIELDS[5] == "emitted_malloc_roots" && LEGACY_FIELDS[8] == "bytes";
    assert LEGACY_SOURCE_FIELDS[0] == "emitted_roots";
  }

  lemma KeptClean()
    ensures forall j | 0 <= j < |CLEAN_COUNTERS| :: CLEAN_COUNTERS[j] in COUNTERS
  {
    ReadFields();
    KeptNursery("malloc_registry_rebuilds");
    KeptTop("conservative_pinned_bytes");
    KeptTop("compiled_frame_conservative_pinned_bytes");
    KeptLegacy("emitted_young_roots");
    KeptLegacy("emitted_malloc_roots");
    KeptLegacy("bytes");
    KeptPlain();
    CleanListIn(COUNTERS);
  }

  lemma KeptReasons()
    ensures forall i | 0 <= i < |KNOWN_REASONS| :: Reason(KNOWN_REASONS[i]) in COUNTERS
  {
    forall i | 0 <= i < |KNOWN_REASONS|
      ensures Reason(KNOWN_REASONS[i]) in COUNTERS
    {
      KeptReason(KNOWN_REASONS[i]);
    }
  }

  lemma KeepsStrictOf(shape: Shape)
    requires forall j | 0 <= j < |CLEAN_COUNTERS| :: CLEAN_COUNTERS[j] in shape.counters
    requires forall i | 0 <= i < |KNOWN_REASONS| :: Reason(KNOWN_REASONS[i]) in shape.counters
    requires "emitted_roots" in shape.legacyFields
    ensures KeepsStrict(shape)
  {
  }

  /** The set has a counter for every listed field. */
  ghost predicate HasFields(s: set<Counter>) {
    && (forall f | f in NURSERY_FIELDS :: Nursery(f) in s)
    && (forall f | f in LAYOUT_FIELDS :: Layout(f) in s)
    && (forall kind | kind in MALLOC_KINDS :: MallocKind(kind) in s)
    && (forall source, f | source in ROOT_SOURCES && f in ROOT_FIELDS :: RootSource(source, f) in s)
    && (forall p | p in OLD_PAGE_FIELDS :: OldPage(p.0, p.1) in s)
    && MissingLayout in s
  }

  lemma ScriptHasFields()
    ensures HasFields(COUNTERS)
  {
  }

  lemma ListedNursery()
    ensures "copied_objects" in NURSERY_FIELDS && "promoted_objects" in NURSERY_FIELDS
    ensures "large_excluded_objects" in NURSERY_FIELDS && "large_excluded_bytes" in NURSERY_FIELDS
  {
    var fs := NURSERY_FIELDS;
    assert fs[0] == "copied_objects" && fs[2] == "promoted_objects";
    assert fs[4] == "large_excluded_objects" && fs[5] == "large_excluded_bytes";
  }

  lemma ListedLayouts()
    ensures "pointer_slots_read" in LAYOUT_FIELDS && "pointer_free_slots_skipped" in LAYOUT_FIELDS
    ensures "raw_numeric_array_slots_skipped" in LAYOUT_FIELDS && "raw_numeric_object_field_slots_skipped" in LAYOUT_FIELDS
  {
    var fs := LAYOUT_FIELDS;
    assert fs[0] == "pointer_slots_read" && fs[4] == "pointer_free_slots_skipped";
    assert fs[6] == "raw_numeric_array_slots_skipped" && fs[8] == "raw_numeric_object_field_slots_skipped";
  }

  lemma ListedKinds()
    ensures "string" in MALLOC_KINDS && "closure" in MALLOC_KINDS && "promise" in MALLOC_KINDS
    ensures "pointer_roots" in ROOT_FIELDS && "rewritten_slots" in ROOT_FIELDS
  {
    var kinds, fs := MALLOC_KINDS, ROOT_FIELDS;
    assert kinds[0] == "string" && kinds[1] == "closure" && kinds[2] == "promise";
    assert fs[3] == "pointer_roots" && fs[4] == "rewritten_slots";
  }

  lemma ListedOldPages()
    ensures ("evacuation_policy", "old_page_selected_pages") in OLD_PAGE_FIELDS
    ensures ("evacuation", "old_page_moved_bytes") in OLD_PAGE_FIELDS
    ensures ("old_pages", "reusable_bytes") in OLD_PAGE_FIELDS && ("old_pages", "pooled_bytes") in OLD_PAGE_FIELDS
    ensures ("old_pages", "returned_bytes") in OLD_PAGE_FIELDS
  {
    var fs := OLD_PAGE_FIELDS;
    assert fs[5] == ("evacuation_policy", "old_page_selected_pages") && fs[8] == ("evacuation", "old_page_moved_bytes");
    assert fs[1] == ("old_pages", "reusable_bytes") && fs[2] == ("old_pages", "pooled_bytes") && fs[3] == ("old_pages", "returned_bytes");
  }

  lemma FieldsKeepEvidence(s: set<Counter>)
    requires HasFields(s)
    ensures KeepsEvidence(s)
  {
    ListedNursery();
    ListedKinds();
  }

  lemma FieldsKeepCommon(s: set<Counter>)
    requires HasFields(s)
    ensures KeepsCommon(s)
  {
    ListedNursery();
    ListedLayouts();
    ListedKinds();
    ListedOldPages();
  }

  /** The script's own report keeps every counter the gates read. */
  lemma ScriptKeepsGated()
    ensures KeepsGated(SHAPE)
  {
    KeptClean();
    KeptReasons();
    ReadFields();
    KeepsStrictOf(SHAPE);
    ScriptHasFields();
    FieldsKeepEvidence(COUNTERS);
    FieldsKeepCommon(COUNTERS);
  }
}

/** The totals of `scripts/copied_minor_fallback_report.py`: what one trace cycle adds, how totals
    are merged, and that aggregation is a homomorphism. */
module GcTotals {
  import opened Options
  import opened Tally

  // ---------------------------------------------------------------- trace records

  datatype Json = Null | Bool(b: bool) | Int(i: int) | Float | Str(s: string) | Arr(items: seq<Json>) | Obj(fields: Fields)
  type Fields = map<string, Json>

  /** `nested_dict` for one key. */
  function Nested(obj: Fields, key: string): Fields {
    if key in obj && obj[key].Obj? then obj[key].fields else map[]
  }

  /** `non_negative_int`: anything but a non-negative integer reads as zero. */
  function NonNegativeInt(obj: Fields, field: string): nat {
    if field in obj && obj[field].Int? && obj[field].i >= 0 then obj[field].i else 0
  }

  predicate IsTrue(obj: Fields, field: string) {
    field in obj && obj[field] == Bool(true)
  }

  function One(b: bool): nat {
    if b then 1 else 0
  }

  const KNOWN_REASONS := [
    "none", "copy_only_roots", "barriers_inactive", "conservative_stack", "conservative_stack_truncated",
    "conservative_stack_unbounded", "unattributed_root_source", "malloc_registry_unavailable",
    "pinned_young_root", "pinned_young_dirty_slot", "pinned_young_transitive", "not_attempted"]

  /** The fallback reason of a cycle, if it is a string. */
  function ReasonOf(cycle: Fields): Option<string> {
    var nursery := Nested(cycle, "copying_nursery");
    if "fallback_reason" in nursery && nursery["fallback_reason"].Str? then Some(nursery["fallback_reason"].s) else None
  }

  predicate HasKnownReason(cycle: Fields) {
    ReasonOf(cycle).Some? && ReasonOf(cycle).value in KNOWN_REASONS
  }

  // ---------------------------------------------------------------- summed counters

  /** The places of the nested totals dictionary that hold sums. */
  datatype Counter =
    | Cycles
    | Reason(reason: string)
    | Top(field: string)
    | StackScanBytes | StackTruncated | StackUnbounded
    | Legacy(field: string)
    | Nursery(field: string)
    | IneligibleCycles
    | Layout(field: string)
    | MissingLayout
    | RootSource(source: string, field: string)
    | NativeDecision(decision: string) | NativeScanned | Native(field: string)
    | MissingRoots
    | MallocKind(kind: string)
    | OldPageChecked
    | OldPage(section: string, field: string)

  const TOP_FIELDS := [
    "conservative_pinned_bytes", "compiled_frame_conservative_pinned_bytes", "runtime_conservative_pinned_bytes"]
  const LEGACY_SOURCE_FIELDS := [
    "emitted_roots", "emitted_young_roots", "emitted_old_roots", "emitted_malloc_roots", "malformed_roots", "roots", "bytes"]
  const LEGACY_FIELDS := ["registered_rust_scanners", "registered_ffi_scanners"] + LEGACY_SOURCE_FIELDS
  const NURSERY_FIELDS := [
    "copied_objects", "copied_bytes", "promoted_objects", "promoted_bytes", "large_excluded_objects",
    "large_excluded_bytes", "malloc_registry_rebuilds"]
  const LAYOUT_FIELDS := [
    "pointer_slots_read", "masked_pointer_slots_read", "unknown_layout_slots_read", "pointer_free_ranges_skipped",
    "pointer_free_slots_skipped", "raw_numeric_array_ranges_skipped", "raw_numeric_array_slots_skipped",
    "raw_numeric_object_field_ranges_skipped", "raw_numeric_object_field_slots_skipped"]
  const ROOT_SOURCES := [
    "compiled_shadow", "module_globals", "runtime_handles", "runtime_mutable_scanners", "ffi_mutable_scanners"]
  const ROOT_FIELDS := ["registered_scanners", "slots_scanned", "nonzero_slots", "pointer_roots", "rewritten_slots"]
  const NATIVE_DECISIONS := ["scan", "skip_disabled", "skip_shadow_stack_active"]
  const NATIVE_FIELDS := [
    "roots_found", "pinned_roots", "pinned_bytes", "compiled_frame_pinned_roots", "compiled_frame_pinned_bytes"]
  const MALLOC_KINDS := ["string", "closure", "promise"]
  const OLD_PAGE_FIELDS := [
    ("old_pages", "dead_bytes"), ("old_pages", "reusable_bytes"), ("old_pages", "pooled_bytes"),
    ("old_pages", "returned_bytes"), ("evacuation_policy", "old_page_candidate_pages"),
    ("evacuation_policy", "old_page_selected_pages"), ("evacuation_policy", "old_page_selected_live_bytes"),
    ("evacuation_policy", "old_page_reclaimable_bytes"), ("evacuation", "old_page_moved_bytes"),
    ("evacuation", "released_original_bytes"), ("evacuation", "released_original_reusable_bytes"),
    ("evacuation", "released_original_returned_bytes")]
  const SOURCE_FIELDS := [
    "root_count", "pinned_roots", "pinned_bytes", "scan_bytes", "truncated_cycles", "unbounded_cycles"]

  const COUNTERS: set<Counter> :=
    {Cycles, StackScanBytes, StackTruncated, StackUnbounded, IneligibleCycles, MissingLayout, NativeScanned,
     MissingRoots, OldPageChecked}
    + (set r | r in KNOWN_REASONS :: Reason(r))
    + (set f | f in TOP_FIELDS :: Top(f))
    + (set f | f in LEGACY_FIELDS :: Legacy(f))
    + (set f | f in NURSERY_FIELDS :: Nursery(f))
    + (set f | f in LAYOUT_FIELDS :: Layout(f))
    + (set s, f | s in ROOT_SOURCES && f in ROOT_FIELDS :: RootSource(s, f))
    + (set d | d in NATIVE_DECISIONS :: NativeDecision(d))
    + (set f | f in NATIVE_FIELDS :: Native(f))
    + (set k | k in MALLOC_KINDS :: MallocKind(k))
    + (set p | p in OLD_PAGE_FIELDS :: OldPage(p.0, p.1))

  predicate IsOldPage(name: string) {
    "old_page_" <= name
  }

  /** Allocations of one kind listed in the rows of `malloc_kinds`. */
  function MallocCount(rows: seq<Json>, kind: string): nat {
    if rows == [] then 0
    else
      var row := rows[|rows| - 1];
      MallocCount(rows[..|rows| - 1], kind) +
      if row.Obj? && "kind" in row.fields && row.fields["kind"] == Str(kind)
      then NonNegativeInt(row.fields, "allocated_count") else 0
  }

  /** What one cycle of a workload adds to a counter. */
  function Delta(name: string, cycle: Fields, k: Counter): nat {
    var nursery, layout, roots := Nested(cycle, "copying_nursery"), Nested(cycle, "layout_scans"), Nested(cycle, "root_sources");
    var native := Nested(roots, "native_stack_fallback");
    match k
    case Cycles => 1
    case Reason(r) => One(ReasonOf(cycle) == Some(r))
    case Top(f) => NonNegativeInt(cycle, f)
    case StackScanBytes => NonNegativeInt(cycle, "conservative_stack_scan_bytes")
    case StackTruncated => One(IsTrue(cycle, "conservative_stack_truncated"))
    case StackUnbounded => One(IsTrue(cycle, "conservative_stack_unbounded"))
    case Legacy(f) => NonNegativeInt(Nested(cycle, "legacy_copy_only_scanner_pinned"), f)
    case Nursery(f) => NonNegativeInt(nursery, f)
    case IneligibleCycles => One(!IsTrue(nursery, "eligible"))
    case Layout(f) => NonNegativeInt(layout, f)
    case MissingLayout => One(layout == map[])
    case RootSource(s, f) => NonNegativeInt(Nested(roots, s), f)
    case NativeDecision(d) => One("decision" in native && native["decision"] == Str(d))
    case NativeScanned => One(IsTrue(native, "scanned"))
    case Native(f) => NonNegativeInt(native, f)
    case MissingRoots => One(roots == map[])
    case MallocKind(kind) =>
      if "malloc_kinds" in cycle && cycle["malloc_kinds"].Arr? then MallocCount(cycle["malloc_kinds"].items, kind) else 0
    case OldPageChecked => One(IsOldPage(name) && NonNegativeInt(Nested(cycle, "old_pages"), "allocated_bytes") > 0)
    case OldPage(section, f) => if IsOldPage(name) then NonNegativeInt(Nested(cycle, section), f) else 0
  }

  // ---------------------------------------------------------------- the totals of a trace

  /** The counters and per-source fields a report keeps. */
  datatype Shape = Shape(counters: set<Counter>, sourceFields: set<string>, legacyFields: set<string>)

  const SHAPE := Shape(COUNTERS, set f | f in SOURCE_FIELDS, set f | f in LEGACY_SOURCE_FIELDS)

  function ConservativeSources(fields: set<string>, cycle: Fields): Sources {
    var sources := Nested(cycle, "conservative_sources");
    map s | s in sources && sources[s].Obj? :: SourceStats(fields, sources[s].fields)
  }

  function SourceStats(fields: set<string>, stats: Fields): Stats {
    Stats(map f | f in fields ::
            if f == "truncated_cycles" then One(IsTrue(stats, "truncated"))
            else if f == "unbounded_cycles" then One(IsTrue(stats, "unbounded"))
            else NonNegativeInt(stats, f),
          NonNegativeInt(stats, "scan_limit_bytes"))
  }

  function LegacySources(fields: set<string>, cycle: Fields): Sources {
    var sources := Nested(Nested(cycle, "legacy_copy_only_scanner_pinned"), "sources");
    map s | s in sources && sources[s].Obj? :: Stats(map f | f in fields :: NonNegativeInt(sources[s].fields, f), 0)
  }

  type GcTotals = Totals<Counter>

  /** The totals of a single cycle. */
  function CycleTotals(shape: Shape, name: string, cycle: Fields): (t: GcTotals)
    ensures t.sums.Keys == shape.counters
  {
    Totals(map k | k in shape.counters :: Delta(name, cycle, k), NonNegativeInt(cycle, "conservative_stack_scan_limit_bytes"),
           ConservativeSources(shape.sourceFields, cycle), LegacySources(shape.legacyFields, cycle))
  }

  /** The totals of a workload: its cycles folded in from nothing. */
  function Aggregate(shape: Shape, name: string, cycles: seq<Fields>): (t: GcTotals)
    ensures t.sums.Keys == shape.counters
  {
    if cycles == [] then Empty(shape.counters)
    else Add(Aggregate(shape, name, cycles[..|cycles| - 1]), CycleTotals(shape, name, cycles[|cycles| - 1]))
  }

  /** Aggregation is a homomorphism: a concatenated trace has the totals of its parts, added. */
  lemma {:induction false} AggregateConcat(shape: Shape, name: string, a: seq<Fields>, b: seq<Fields>)
    ensures Aggregate(shape, name, a + b) == Add(Aggregate(shape, name, a), Aggregate(shape, name, b))
  {
    if b == [] {
      assert a + b == a;
      AddZero(Aggregate(shape, name, a), shape.counters);
    } else {
      var front, last := b[..|b| - 1], b[|b| - 1];
      assert (a + b)[..|a + b| - 1] == a + front;
      AggregateConcat(shape, name, a, front);
      AddAssociates(Aggregate(shape, name, a), Aggregate(shape, name, front), CycleTotals(shape, name, last));
    }
  }

  // ---------------------------------------------------------------- what a total says

  function SumDelta(name: string, cycles: seq<Fields>, k: Counter): nat {
    if cycles == [] then 0 else SumDelta(name, cycles[..|cycles| - 1], k) + Delta(name, cycles[|cycles| - 1], k)
  }

  /** A counter holds the sum of what the cycles say. */
  lemma {:induction false} CounterIsSum(shape: Shape, name: string, cycles: seq<Fields>, k: Counter)
    requires k in shape.counters
    ensures Aggregate(shape, name, cycles).sums[k] == SumDelta(name, cycles, k)
  {
    if cycles != [] {
      CounterIsSum(shape, name, cycles[..|cycles| - 1], k);
    }
  }

  /** A zero total is a zero in every cycle. */
  lemma {:induction false} ZeroTotalIsZeroEverywhere(name: string, cycles: seq<Fields>, k: Counter)
    ensures SumDelta(name, cycles, k) == 0 <==> forall i | 0 <= i < |cycles| :: Delta(name, cycles[i], k) == 0
  {
    if cycles != [] {
      var n := |cycles| - 1;
      ZeroTotalIsZeroEverywhere(name, cycles[..n], k);
      assert forall i | 0 <= i < n :: cycles[..n][i] == cycles[i];
    }
  }

  function LegacyParts(shape: Shape, cycles: seq<Fields>): (parts: seq<Sources>)
    ensures |parts| == |cycles|
  {
    if cycles == [] then []
    else LegacyParts(shape, cycles[..|cycles| - 1]) + [LegacySources(shape.legacyFields, cycles[|cycles| - 1])]
  }

  lemma {:induction false} LegacyPart(shape: Shape, cycles: seq<Fields>, i: nat)
    requires i < |cycles|
    ensures LegacyParts(shape, cycles)[i] == LegacySources(shape.legacyFields, cycles[i])
  {
    if i < |cycles| - 1 {
      LegacyPart(shape, cycles[..|cycles| - 1], i);
    }
  }

  lemma LegacyStep(shape: Shape, name: string, cycles: seq<Fields>)
    requires cycles != []
    ensures var n := |cycles| - 1;
            Aggregate(shape, name, cycles).legacySources ==
            AddSources(Aggregate(shape, name, cycles[..n]).legacySources, LegacySources(shape.legacyFields, cycles[n]))
  {
  }

  lemma {:induction false} LegacyTotals(shape: Shape, name: string, cycles: seq<Fields>)
    ensures Aggregate(shape, name, cycles).legacySources == SumSources(LegacyParts(shape, cycles))
  {
    if cycles != [] {
      var n := |cycles| - 1;
      LegacyTotals(shape, name, cycles[..n]);
      LegacyStep(shape, name, cycles);
      SumSourcesSnoc(LegacyParts(shape, cycles[..n]), LegacySources(shape.legacyFields, cycles[n]));
    }
  }

  /** A zero total of a source is a zero of that source in every cycle. */
  lemma ZeroSourceIsZeroEverywhere(shape: Shape, name: string, cycles: seq<Fields>, source: string, field: string)
    ensures SourceField(Aggregate(shape, name, cycles).legacySources, source, field) == 0 <==>
            forall i | 0 <= i < |cycles| :: SourceField(LegacySources(shape.legacyFields, cycles[i]), source, field) == 0
  {
    var parts := LegacyParts(shape, cycles);
    LegacyTotals(shape, name, cycles);
    ZeroSourceField(parts, source, field);
    forall i | 0 <= i < |cycles|
      ensures parts[i] == LegacySources(shape.legacyFields, cycles[i])
    {
      LegacyPart(shape, cycles, i);
    }
  }

  // ---------------------------------------------------------------- conservation of cycles

  /** Cycles whose reason is missing, no string, or not a known one. */
  function Malformed(cycles: seq<Fields>): nat {
    if cycles == [] then 0 else Malformed(cycles[..|cycles| - 1]) + One(!HasKnownReason(cycles[|cycles| - 1]))
  }

  function SumReasons(reasons: seq<string>, name: string, cycles: seq<Fields>): nat {
    if reasons == [] then 0 else SumDelta(name, cycles, Reason(reasons[0])) + SumReasons(reasons[1..], name, cycles)
  }

  function HitsOf(reasons: seq<string>, cycle: Fields): nat {
    if reasons == [] then 0 else One(ReasonOf(cycle) == Some(reasons[0])) + HitsOf(reasons[1..], cycle)
  }

  lemma {:induction false} SumReasonsStep(reasons: seq<string>, name: string, cycles: seq<Fields>)
    requires cycles != []
    ensures SumReasons(reasons, name, cycles) ==
            SumReasons(reasons, name, cycles[..|cycles| - 1]) + HitsOf(reasons, cycles[|cycles| - 1])
  {
    if reasons != [] {
      SumReasonsStep(reasons[1..], name, cycles);
    }
  }

  lemma {:induction false} HitsOnce(reasons: seq<string>, cycle: Fields)
    requires forall i, j | 0 <= i < j < |reasons| :: reasons[i] != reasons[j]
    ensures HitsOf(reasons, cycle) == One(ReasonOf(cycle).Some? && ReasonOf(cycle).value in reasons)
  {
    if reasons != [] {
      HitsOnce(reasons[1..], cycle);
    }
  }

  lemma {:induction false} NoReasons(reasons: seq<string>, name: string)
    ensures SumReasons(reasons, name, []) == 0
  {
    if reasons != [] {
      NoReasons(reasons[1..], name);
    }
  }

  lemma KnownReasonsDistinct()
    ensures forall i, j | 0 <= i < j < |KNOWN_REASONS| :: KNOWN_REASONS[i] != KNOWN_REASONS[j]
  {
  }

  /** Every cycle is counted under exactly one known reason or recorded as malformed. */
  lemma {:induction false} CyclesAreConserved(name: string, cycles: seq<Fields>)
    ensures SumDelta(name, cycles, Cycles) == |cycles|
    ensures |cycles| == SumReasons(KNOWN_REASONS, name, cycles) + Malformed(cycles)
  {
    if cycles == [] {
      NoReasons(KNOWN_REASONS, name);
    } else {
      var last := cycles[|cycles| - 1];
      CyclesAreConserved(name, cycles[..|cycles| - 1]);
      SumReasonsStep(KNOWN_REASONS, name, cycles);
      KnownReasonsDistinct();
      HitsOnce(KNOWN_REASONS, last);
    }
  }
}

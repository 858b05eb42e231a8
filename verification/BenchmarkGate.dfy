/** `evaluate_regressions` of `benchmarks/benchmark_gate.py` on schema-2 artifacts, over exact reals. */
module BenchmarkGate {
  import opened Options
  import opened Sorting
  import opened RobustStatistics

  datatype RuntimeMeta = RuntimeMeta(available: bool, version: string, command: seq<string>)

  /** Raw samples and the summary stored with them. */
  datatype Metric = Metric(samples: seq<real>, stats: Distribution)

  /** Timings in milliseconds and resident-set sizes in kilobytes of one runtime. */
  datatype RuntimeResult = RuntimeResult(wall: Metric, rss: Metric)

  datatype Correctness = Pass | Fail | Unchecked

  /** Perry's medians over a peer's. */
  datatype RuntimeRatio = RuntimeRatio(wall: Option<real>, rss: Option<real>)

  /** Fields kept for older readers; one that is missing or null has no value. */
  datatype Compatibility = Compatibility(perryMs: Option<real>, perryRss: Option<real>, nodeMs: Option<real>,
                                         nodeRss: Option<real>, bunMs: Option<real>, bunRss: Option<real>,
                                         speedRatio: Option<real>, memoryRatio: Option<real>)

  /** One benchmark; ratios and compatibility fields repeat what the distributions say. */
  datatype Entry = Entry(perry: RuntimeResult, node: Option<RuntimeResult>, bun: Option<RuntimeResult>,
                         correctness: Correctness, reference: string,
                         nodeRatio: Option<RuntimeRatio>, bunRatio: Option<RuntimeRatio>, compatibility: Compatibility)

  /** `names` is the insertion order of `benchmarks`. */
  datatype Artifact = Artifact(commit: string, generatedAt: string, requested: int, expected: seq<string>,
                               perry: RuntimeMeta, node: RuntimeMeta, bun: RuntimeMeta,
                               names: seq<string>, benchmarks: map<string, Entry>)

  datatype Status = Invalid | New | Regression | Improved | Ok

  datatype Row = Row(name: string, correctness: Correctness, speedPct: Option<real>, memoryPct: Option<real>,
                     noise: real, nodeDelta: Option<real>, bunDelta: Option<real>, status: Status)

  datatype Outcome =
    | Report(rows: seq<Row>, regressions: seq<Row>, improvements: seq<Row>, failures: seq<string>)
    | Rejected

  // ---------------------------------------------------------------- validation

  /** The stored summary is the one the samples give. */
  predicate ValidMetric(requested: int, m: Metric) {
    |m.samples| == requested && DistributionOf(m.samples) == Some(m.stats)
  }

  predicate ValidResult(requested: int, r: RuntimeResult) {
    && ValidMetric(requested, r.wall)
    && ValidMetric(requested, r.rss)
    && ValidSamples(r.wall.samples, r.rss.samples)
  }

  predicate ValidSamples(wall: seq<real>, rss: seq<real>) {
    && (forall i | 0 <= i < |wall| :: wall[i] >= 0.0 && IsWhole(wall[i]))
    && (forall i | 0 <= i < |rss| :: rss[i] > 0.0)
  }

  predicate IsWhole(x: real) {
    x.Floor as real == x
  }

  predicate ValidPeer(requested: int, meta: RuntimeMeta, r: Option<RuntimeResult>) {
    meta.available == r.Some? && (r.Some? ==> ValidResult(requested, r.value))
  }

  predicate ValidReference(correctness: Correctness, reference: string) {
    reference == "node" || reference == "bun" || (correctness == Unchecked && reference == "none")
  }

  function Ratio(numerator: real, denominator: real): Option<real> {
    if denominator == 0.0 then None else Some(numerator / denominator)
  }

  function RatioTo(perry: RuntimeResult, peer: Option<RuntimeResult>): Option<RuntimeRatio> {
    match peer
    case None => None
    case Some(p) =>
      Some(RuntimeRatio(Ratio(perry.wall.stats.median, p.wall.stats.median), Ratio(perry.rss.stats.median, p.rss.stats.median)))
  }

  predicate ValidCompatibility(e: Entry) {
    var f := e.compatibility;
    && f.perryMs == Some(e.perry.wall.stats.median) && f.perryRss == Some(e.perry.rss.stats.median)
    && (e.node.Some? ==> f.nodeMs == Some(e.node.value.wall.stats.median) && f.nodeRss == Some(e.node.value.rss.stats.median))
    && (e.bun.Some? ==> f.bunMs == Some(e.bun.value.wall.stats.median) && f.bunRss == Some(e.bun.value.rss.stats.median))
    && (e.nodeRatio.Some? ==> f.speedRatio == e.nodeRatio.value.wall && f.memoryRatio == e.nodeRatio.value.rss)
  }

  predicate ValidEntry(a: Artifact, e: Entry) {
    && ValidResult(a.requested, e.perry)
    && e.perry.wall.stats.median != 0.0
    && ValidPeer(a.requested, a.node, e.node)
    && ValidPeer(a.requested, a.bun, e.bun)
    && (e.correctness == Unchecked ==> !a.node.available && !a.bun.available)
    && ValidReference(e.correctness, e.reference)
    && e.nodeRatio == RatioTo(e.perry, e.node) && e.bunRatio == RatioTo(e.perry, e.bun)
    && ValidCompatibility(e)
  }

  /** Some character that is not white space, so that stripping leaves something. */
  predicate NotBlank(s: string) {
    exists i | 0 <= i < |s| :: !IsSpace(s[i])
  }

  predicate IsSpace(c: char) {
    var n := c as int;
    9 <= n <= 13 || 28 <= n <= 32 || n == 0x85 || n == 0xa0 || n == 0x1680 || 0x2000 <= n <= 0x200a
    || n == 0x2028 || n == 0x2029 || n == 0x202f || n == 0x205f || n == 0x3000
  }

  predicate ValidMeta(m: RuntimeMeta) {
    m.command != [] && (forall i | 0 <= i < |m.command| :: m.command[i] != "") && (m.available ==> NotBlank(m.version))
  }

  predicate DistinctNames(names: seq<string>) {
    forall i, j | 0 <= i < j < |names| :: names[i] != names[j]
  }

  predicate ValidArtifact(a: Artifact) {
    && NotBlank(a.commit) && NotBlank(a.generatedAt)
    && ValidMeta(a.perry) && a.perry.available && ValidMeta(a.node) && ValidMeta(a.bun)
    && a.requested >= 2
    && a.expected != [] && "" !in a.expected && DistinctNames(a.expected)
    && (set n | n in a.expected) == a.benchmarks.Keys
    && DistinctNames(a.names) && (set n | n in a.names) == a.benchmarks.Keys
    && (forall n | n in a.benchmarks :: ValidEntry(a, a.benchmarks[n]))
  }

  // ---------------------------------------------------------------- the comparison

  function PctDelta(current: real, baseline: real): Option<real> {
    if baseline == 0.0 then None else Some((current - baseline) / baseline * 100.0)
  }

  /** A zero baseline counts as the bottom of the first tick. */
  function SpeedPctDelta(current: real, baseline: real): real {
    if baseline == 0.0 then (if current == 0.0 then 0.0 else current * 100.0)
    else (current - baseline) / baseline * 100.0
  }

  function Max(a: real, b: real): real {
    if a < b then b else a
  }

  /** One timer tick, or three robust sigmas of the noisier side. */
  function NoiseAllowance(baseMad: real, currentMad: real): real {
    Max(1.0, 3.0 * Max(baseMad * 1.4826, currentMad * 1.4826))
  }

  predicate MetadataMatches(a: RuntimeMeta, b: RuntimeMeta) {
    a.available && b.available && a.version == b.version && a.command == b.command
  }

  /** What a comparison reads of one side: Perry's medians and MAD, and the stored peer ratios. */
  datatype Measure = Measure(wall: real, mad: real, rss: real, node: Option<real>, bun: Option<real>)

  function WallRatio(r: Option<RuntimeRatio>): Option<real> {
    if r.Some? then r.value.wall else None
  }

  function MeasureOf(e: Entry): Measure {
    Measure(e.perry.wall.stats.median, e.perry.wall.stats.mad, e.perry.rss.stats.median,
            WallRatio(e.nodeRatio), WallRatio(e.bunRatio))
  }

  function RatioDelta(base: Option<real>, current: Option<real>): Option<real> {
    if base.None? || current.None? then None else PctDelta(current.value, base.value)
  }

  function Present(deltas: seq<Option<real>>): seq<real> {
    if deltas == [] then []
    else (match deltas[0] case Some(d) => [d] case None => []) + Present(deltas[1..])
  }

  /** Nothing without peers; otherwise whether their median trend exceeds half the threshold. */
  function PeerCorroborates(deltas: seq<Option<real>>, threshold: real): Option<bool> {
    var present := Present(deltas);
    if present == [] then None else Some(Median(present) > threshold / 2.0)
  }

  /** Everything the verdict is made of. */
  datatype Signals = Signals(speedPct: real, memoryPct: Option<real>, noise: real, speedDelta: real,
                             memoryDelta: real, nodeDelta: Option<real>, bunDelta: Option<real>)

  function SignalsOf(nodeMatches: bool, bunMatches: bool, base: Measure, cur: Measure): Signals {
    Signals(
      SpeedPctDelta(cur.wall, base.wall),
      PctDelta(cur.rss, base.rss),
      NoiseAllowance(base.mad, cur.mad),
      cur.wall - base.wall,
      cur.rss - base.rss,
      if nodeMatches then RatioDelta(base.node, cur.node) else None,
      if bunMatches then RatioDelta(base.bun, cur.bun) else None)
  }

  predicate SpeedRegression(s: Signals, threshold: real) {
    && s.speedPct > threshold
    && s.speedDelta >= s.noise
    && PeerCorroborates([s.nodeDelta, s.bunDelta], threshold) != Some(false)
  }

  predicate SpeedImprovement(s: Signals, threshold: real) {
    s.speedPct < -threshold && -s.speedDelta >= s.noise
  }

  predicate MemoryRegression(s: Signals, threshold: real) {
    s.memoryPct.Some? && s.memoryPct.value > threshold && s.memoryDelta >= 4096.0
  }

  predicate MemoryImprovement(s: Signals, threshold: real) {
    s.memoryPct.Some? && s.memoryPct.value < -threshold && -s.memoryDelta >= 4096.0
  }

  function StatusOf(s: Signals, speedThreshold: real, memoryThreshold: real): Status {
    if SpeedRegression(s, speedThreshold) || MemoryRegression(s, memoryThreshold) then Regression
    else if SpeedImprovement(s, speedThreshold) || MemoryImprovement(s, memoryThreshold) then Improved
    else Ok
  }

  function SignalsBetween(b: Artifact, c: Artifact, name: string): Signals
    requires name in b.benchmarks && name in c.benchmarks
  {
    SignalsOf(MetadataMatches(b.node, c.node), MetadataMatches(b.bun, c.bun),
              MeasureOf(b.benchmarks[name]), MeasureOf(c.benchmarks[name]))
  }

  function RowOf(b: Artifact, c: Artifact, name: string, st: real, mt: real): Row
    requires name in c.benchmarks
  {
    var cur := c.benchmarks[name];
    if cur.correctness == Fail then Row(name, Fail, None, None, 0.0, None, None, Invalid)
    else if name !in b.benchmarks then Row(name, cur.correctness, None, None, 0.0, None, None, New)
    else
      var s := SignalsBetween(b, c, name);
      Row(name, cur.correctness, Some(s.speedPct), s.memoryPct, s.noise, s.nodeDelta, s.bunDelta, StatusOf(s, st, mt))
  }

  function RowsWith(rows: seq<Row>, status: Status): seq<Row> {
    if rows == [] then []
    else RowsWith(rows[..|rows| - 1], status) + if rows[|rows| - 1].status == status then [rows[|rows| - 1]] else []
  }

  function FailedNames(rows: seq<Row>): seq<string> {
    if rows == [] then []
    else FailedNames(rows[..|rows| - 1]) + if rows[|rows| - 1].status == Invalid then [rows[|rows| - 1].name] else []
  }

  lemma NamesAreKeys(a: Artifact)
    requires ValidArtifact(a)
    ensures forall n :: n in a.names <==> n in a.benchmarks
  {
    assert forall n :: n in a.names <==> n in (set m | m in a.names);
  }

  /** The loop over the current benchmarks, given how one row is made. */
  method CollectRows(names: seq<string>, rowOf: string --> Row) returns (r: Outcome)
    requires forall n | n in names :: rowOf.requires(n)
    ensures r.Report? && |r.rows| == |names| && forall i | 0 <= i < |names| :: r.rows[i] == rowOf(names[i])
    ensures r.regressions == RowsWith(r.rows, Regression) && r.improvements == RowsWith(r.rows, Improved)
    ensures r.failures == FailedNames(r.rows)
  {
    var rows, regressions, improvements, failures := [], [], [], [];
    for k := 0 to |names|
      invariant |rows| == k && forall i | 0 <= i < k :: rows[i] == rowOf(names[i])
      invariant regressions == RowsWith(rows, Regression) && improvements == RowsWith(rows, Improved)
      invariant failures == FailedNames(rows)
    {
      var row := rowOf(names[k]);
      assert (rows + [row])[..k] == rows;
      rows := rows + [row];
      if row.status == Invalid {
        failures := failures + [row.name];
        continue;
      }
      if row.status == Regression {
        regressions := regressions + [row];
      } else if row.status == Improved {
        improvements := improvements + [row];
      }
    }
    r := Report(rows, regressions, improvements, failures);
  }

  /** `evaluate_regressions`: rejected thresholds or artifacts, or one row per current benchmark in
      order, with the regressions and improvements among them. */
  method EvaluateRegressions(b: Artifact, c: Artifact, st: real, mt: real) returns (r: Outcome)
    ensures r.Rejected? <==> st <= 0.0 || mt <= 0.0 || !ValidArtifact(b) || !ValidArtifact(c)
    ensures r.Report? ==> (forall n :: n in c.names <==> n in c.benchmarks) && |r.rows| == |c.names|
    ensures r.Report? ==> forall i | 0 <= i < |c.names| :: r.rows[i] == RowOf(b, c, c.names[i], st, mt)
    ensures r.Report? ==> r.regressions == RowsWith(r.rows, Regression)
    ensures r.Report? ==> r.improvements == RowsWith(r.rows, Improved) && r.failures == FailedNames(r.rows)
  {
    if st <= 0.0 || mt <= 0.0 || !ValidArtifact(b) || !ValidArtifact(c) {
      return Rejected;
    }
    NamesAreKeys(c);
    r := CollectRows(c.names, n requires n in c.benchmarks => RowOf(b, c, n, st, mt));
  }

  // ---------------------------------------------------------------- outliers

  /** A strict majority of equal timings fixes the median and makes the MAD zero. */
  lemma MajorityTiming(requested: int, m: Metric, x: real)
    requires ValidMetric(requested, m) && 2 * Count(InRange(x, x), m.samples) > |m.samples|
    ensures m.stats.median == x && m.stats.mad == 0.0
  {
    MajorityConfines(m.samples, x, x);
  }

  /** When most baseline timings are `x` and most current ones `y`, the allowance is exactly one
      millisecond and the speed verdict depends on `x`, `y`, the threshold and the peers alone. */
  lemma OutliersCannotMatter(b: Artifact, c: Artifact, name: string, x: real, y: real, st: real)
    requires ValidArtifact(b) && ValidArtifact(c) && name in b.benchmarks && name in c.benchmarks
    requires var w := b.benchmarks[name].perry.wall.samples; 2 * Count(InRange(x, x), w) > |w|
    requires var w := c.benchmarks[name].perry.wall.samples; 2 * Count(InRange(y, y), w) > |w|
    ensures var s := SignalsBetween(b, c, name);
            && s.noise == 1.0
            && s.speedPct == SpeedPctDelta(y, x)
            && (SpeedRegression(s, st) <==>
                SpeedPctDelta(y, x) > st && y - x >= 1.0
                && PeerCorroborates([s.nodeDelta, s.bunDelta], st) != Some(false))
            && (SpeedImprovement(s, st) <==> SpeedPctDelta(y, x) < -st && x - y >= 1.0)
  {
    MajorityTiming(b.requested, b.benchmarks[name].perry.wall, x);
    MajorityTiming(c.requested, c.benchmarks[name].perry.wall, y);
  }

  // ---------------------------------------------------------------- exchanging the artifacts

  lemma DropIsRise(lower: real, upper: real, t: real)
    requires 0.0 < lower && 0.0 < upper && t > 0.0
    requires (lower - upper) / upper * 100.0 < -t
    ensures lower < upper && (upper - lower) / lower * 100.0 > t
  {
    var drop, rise := (lower - upper) / upper, (upper - lower) / lower;
    assert drop * upper == lower - upper && rise * lower == upper - lower;
    assert drop < 0.0;
    assert lower < upper by {
      if lower >= upper { NonNegativeQuotient(lower - upper, upper); }
    }
    assert rise > -drop by {
      StrictProduct(-drop, lower, upper);
      assert rise * lower > -drop * lower;
    }
  }

  lemma NonNegativeQuotient(n: real, d: real)
    requires n >= 0.0 && d > 0.0
    ensures n / d >= 0.0
  {
  }

  lemma StrictProduct(x: real, a: real, b: real)
    requires x > 0.0 && a < b
    ensures x * a < x * b
  {
  }

  lemma {:induction false} PositiveMedian(samples: seq<real>)
    requires samples != [] && forall i | 0 <= i < |samples| :: samples[i] > 0.0
    ensures Median(samples) > 0.0
  {
    var o := Sort(RealLeq, samples);
    forall i | 0 <= i < |o|
      ensures o[i] > 0.0
    {
      assert o[i] in multiset(o);
      assert o[i] in samples;
    }
  }

  lemma NonNegativeMedian(samples: seq<real>)
    requires samples != [] && forall i | 0 <= i < |samples| :: samples[i] >= 0.0
    ensures Median(samples) >= 0.0
  {
    var o := Sort(RealLeq, samples);
    forall i | 0 <= i < |o|
      ensures o[i] >= 0.0
    {
      assert o[i] in multiset(o);
      assert o[i] in samples;
    }
  }

  lemma ValidMeasure(a: Artifact, name: string)
    requires ValidArtifact(a) && name in a.benchmarks
    ensures Positive(MeasureOf(a.benchmarks[name]))
  {
    NonNegativeMedian(a.benchmarks[name].perry.wall.samples);
    PositiveMedian(a.benchmarks[name].perry.rss.samples);
  }

  predicate Positive(m: Measure) {
    m.wall > 0.0 && m.rss > 0.0
  }

  /** The signals of one comparison, seen from the other side. */
  lemma SignalsSwap(nodeMatches: bool, bunMatches: bool, base: Measure, cur: Measure, st: real, mt: real)
    requires Positive(base) && Positive(cur) && st > 0.0 && mt > 0.0
    ensures var s, s' := SignalsOf(nodeMatches, bunMatches, base, cur), SignalsOf(nodeMatches, bunMatches, cur, base);
            && s'.noise == s.noise && s'.speedDelta == -s.speedDelta && s'.memoryDelta == -s.memoryDelta
            && (s.speedPct < -st ==> s'.speedPct > st)
            && (MemoryImprovement(s, mt) ==> MemoryRegression(s', mt))
  {
    if SpeedPctDelta(cur.wall, base.wall) < -st {
      DropIsRise(cur.wall, base.wall, st);
    }
    if (cur.rss - base.rss) / base.rss * 100.0 < -mt {
      DropIsRise(cur.rss, base.rss, mt);
    }
  }

  /** The verdicts of one comparison and its exchange, in terms of the peers of the exchange. */
  lemma StatusSwap(nodeMatches: bool, bunMatches: bool, base: Measure, cur: Measure, st: real, mt: real)
    requires Positive(base) && Positive(cur) && st > 0.0 && mt > 0.0
    requires StatusOf(SignalsOf(nodeMatches, bunMatches, base, cur), st, mt) == Improved
    ensures var s' := SignalsOf(nodeMatches, bunMatches, cur, base);
            var contradicted := PeerCorroborates([s'.nodeDelta, s'.bunDelta], st) == Some(false);
            StatusOf(s', st, mt) == Regression <==> !contradicted || MemoryRegression(s', mt)
  {
    SignalsSwap(nodeMatches, bunMatches, base, cur, st, mt);
  }

  lemma NoPeers(b: Artifact, c: Artifact, name: string, st: real)
    requires name in b.benchmarks && name in c.benchmarks
    requires !MetadataMatches(b.node, c.node) && !MetadataMatches(b.bun, c.bun)
    ensures !Contradicted(b, c, name, st)
  {
    var s := SignalsBetween(b, c, name);
    assert s.nodeDelta == None && s.bunDelta == None;
    assert Present([None, None]) == [];
  }

  /** The peers say, against the exchange, that nothing got slower. */
  predicate Contradicted(b: Artifact, c: Artifact, name: string, st: real)
    requires name in b.benchmarks && name in c.benchmarks
  {
    var s := SignalsBetween(b, c, name);
    PeerCorroborates([s.nodeDelta, s.bunDelta], st) == Some(false)
  }

  lemma SignalsBetweenSwap(b: Artifact, c: Artifact, name: string)
    requires name in b.benchmarks && name in c.benchmarks
    ensures var nm, bm := MetadataMatches(b.node, c.node), MetadataMatches(b.bun, c.bun);
            && SignalsBetween(b, c, name) == SignalsOf(nm, bm, MeasureOf(b.benchmarks[name]), MeasureOf(c.benchmarks[name]))
            && SignalsBetween(c, b, name) == SignalsOf(nm, bm, MeasureOf(c.benchmarks[name]), MeasureOf(b.benchmarks[name]))
  {
    assert MetadataMatches(c.node, b.node) == MetadataMatches(b.node, c.node);
    assert MetadataMatches(c.bun, b.bun) == MetadataMatches(b.bun, c.bun);
  }

  lemma RowStatus(b: Artifact, c: Artifact, name: string, st: real, mt: real)
    requires name in b.benchmarks && name in c.benchmarks
    ensures RowOf(b, c, name, st, mt).status ==
            if c.benchmarks[name].correctness == Fail then Invalid else StatusOf(SignalsBetween(b, c, name), st, mt)
  {
  }

  /** An improvement, exchanged, is a regression exactly when no peer contradicts the exchange or
      memory grew enough: regressions in speed are reported only if the peers agree, improvements
      without asking them. */
  lemma SwapWithPeers(b: Artifact, c: Artifact, name: string, st: real, mt: real)
    requires ValidArtifact(b) && ValidArtifact(c) && st > 0.0 && mt > 0.0
    requires name in b.benchmarks && name in c.benchmarks && b.benchmarks[name].correctness != Fail
    requires RowOf(b, c, name, st, mt).status == Improved
    ensures RowOf(c, b, name, st, mt).status == Regression <==>
            !Contradicted(c, b, name, st) || MemoryRegression(SignalsBetween(c, b, name), mt)
  {
    ValidMeasure(b, name);
    ValidMeasure(c, name);
    RowStatus(b, c, name, st, mt);
    RowStatus(c, b, name, st, mt);
    StatusBetweenSwap(b, c, name, st, mt);
  }

  lemma StatusBetweenSwap(b: Artifact, c: Artifact, name: string, st: real, mt: real)
    requires name in b.benchmarks && name in c.benchmarks && st > 0.0 && mt > 0.0
    requires Positive(MeasureOf(b.benchmarks[name])) && Positive(MeasureOf(c.benchmarks[name]))
    requires StatusOf(SignalsBetween(b, c, name), st, mt) == Improved
    ensures StatusOf(SignalsBetween(c, b, name), st, mt) == Regression <==>
            !Contradicted(c, b, name, st) || MemoryRegression(SignalsBetween(c, b, name), mt)
  {
    SignalsBetweenSwap(b, c, name);
    StatusSwap(MetadataMatches(b.node, c.node), MetadataMatches(b.bun, c.bun),
               MeasureOf(b.benchmarks[name]), MeasureOf(c.benchmarks[name]), st, mt);
  }

  /** Swap theorem: without matching peers, what is improved one way is a regression the other way. */
  lemma SwapTheorem(b: Artifact, c: Artifact, name: string, st: real, mt: real)
    requires ValidArtifact(b) && ValidArtifact(c) && st > 0.0 && mt > 0.0
    requires !MetadataMatches(b.node, c.node) && !MetadataMatches(b.bun, c.bun)
    requires name in b.benchmarks && name in c.benchmarks && b.benchmarks[name].correctness != Fail
    requires RowOf(b, c, name, st, mt).status == Improved
    ensures RowOf(c, b, name, st, mt).status == Regression
  {
    NoPeers(c, b, name, st);
    SwapWithPeers(b, c, name, st, mt);
  }

  // ---------------------------------------------------------------- an exchange that is not flagged

  /** Two timings of `wall` milliseconds, in one kilobyte each. */
  predicate Steady(r: RuntimeResult, wall: real) {
    ValidResult(2, r) && r.wall.samples == [wall, wall] && r.rss.samples == [1.0, 1.0]
  }

  lemma SteadyExists(wall: real) returns (r: RuntimeResult)
    requires wall >= 0.0 && IsWhole(wall)
    ensures Steady(r, wall)
  {
    var w := Summarized([wall, wall]);
    var m := Summarized([1.0, 1.0]);
    r := RuntimeResult(w, m);
    SteadySamples(wall);
  }

  lemma SteadySamples(wall: real)
    requires wall >= 0.0 && IsWhole(wall)
    ensures ValidSamples([wall, wall], [1.0, 1.0])
  {
  }

  lemma Summarized(samples: seq<real>) returns (m: Metric)
    requires samples != []
    ensures ValidMetric(|samples|, m) && m.samples == samples
  {
    m := Metric(samples, DistributionOf(samples).value);
  }

  lemma TwiceIsSteady(m: Metric, x: real)
    requires ValidMetric(2, m) && m.samples == [x, x]
    ensures m.stats.median == x && m.stats.mad == 0.0
  {
    var p := InRange(x, x);
    assert Count(p, [x]) == 1 + Count(p, [x][1..]);
    assert [x, x][1..] == [x];
    MajorityTiming(2, m, x);
  }

  /** A benchmark on which Perry and Node measure the same. */
  function TwinEntry(r: RuntimeResult): Entry {
    var wall, rss := r.wall.stats.median, r.rss.stats.median;
    Entry(r, Some(r), None, Pass, "node", Some(RuntimeRatio(Some(1.0), Some(1.0))), None,
          Compatibility(Some(wall), Some(rss), Some(wall), Some(rss), None, None, Some(1.0), Some(1.0)))
  }

  /** An artifact with that benchmark alone, taken twice, without Bun. */
  function TwinArtifact(r: RuntimeResult): Artifact {
    Artifact("c", "t", 2, ["loop"], RuntimeMeta(true, "1", ["perry"]), RuntimeMeta(true, "22", ["node"]),
             RuntimeMeta(false, "", ["bun"]), ["loop"], map["loop" := TwinEntry(r)])
  }

  lemma TwinEntryIsValid(r: RuntimeResult, a: Artifact)
    requires ValidResult(2, r) && r.wall.stats.median > 0.0 && r.rss.stats.median > 0.0
    requires a.requested == 2 && a.node.available && !a.bun.available
    ensures ValidEntry(a, TwinEntry(r))
  {
    SelfRatio(r.wall.stats.median);
    SelfRatio(r.rss.stats.median);
  }

  lemma SelfRatio(x: real)
    requires x > 0.0
    ensures Ratio(x, x) == Some(1.0)
  {
    assert x / x == 1.0;
  }

  lemma TwinIsValid(r: RuntimeResult)
    requires ValidResult(2, r) && r.wall.stats.median > 0.0 && r.rss.stats.median > 0.0
    ensures ValidArtifact(TwinArtifact(r))
  {
    var a := TwinArtifact(r);
    TwinEntryIsValid(r, a);
    TwinHeader(a);
    assert (set n | n in a.names) == {"loop"} == a.benchmarks.Keys;
  }

  lemma TwinHeader(a: Artifact)
    requires a.commit == "c" && a.generatedAt == "t" && a.perry == RuntimeMeta(true, "1", ["perry"])
    requires a.node == RuntimeMeta(true, "22", ["node"]) && a.bun == RuntimeMeta(false, "", ["bun"])
    ensures NotBlank(a.commit) && NotBlank(a.generatedAt) && ValidMeta(a.perry) && ValidMeta(a.node) && ValidMeta(a.bun)
  {
    NotBlankAt(a.commit);
    NotBlankAt(a.generatedAt);
    NotBlankAt(a.perry.version);
    NotBlankAt(a.node.version);
  }

  lemma NotBlankAt(s: string)
    requires s != "" && !IsSpace(s[0])
    ensures NotBlank(s)
  {
  }

  lemma TwinRow(x: RuntimeResult, y: RuntimeResult, st: real, mt: real)
    ensures RowOf(TwinArtifact(x), TwinArtifact(y), "loop", st, mt).status ==
            StatusOf(SignalsOf(true, false, MeasureOf(TwinEntry(x)), MeasureOf(TwinEntry(y))), st, mt)
  {
    RowStatus(TwinArtifact(x), TwinArtifact(y), "loop", st, mt);
  }

  /** The exchange is not flagged when a peer slowed down as much as Perry did: both artifacts are
      valid, one direction is improved, and the other is fine. */
  lemma PeersCanHideTheExchange(x: RuntimeResult, y: RuntimeResult, slow: real, fast: real, st: real, mt: real)
    requires Steady(x, slow) && Steady(y, fast) && 0.0 < fast && fast + 1.0 <= slow
    requires st > 0.0 && mt > 0.0 && (fast - slow) / slow * 100.0 < -st
    ensures var b, c := TwinArtifact(x), TwinArtifact(y);
            && ValidArtifact(b) && ValidArtifact(c)
            && RowOf(b, c, "loop", st, mt).status == Improved
            && RowOf(c, b, "loop", st, mt).status == Ok
  {
    TwiceIsSteady(x.wall, slow);
    TwiceIsSteady(y.wall, fast);
    TwiceIsSteady(x.rss, 1.0);
    TwiceIsSteady(y.rss, 1.0);
    TwinIsValid(x);
    TwinIsValid(y);
    TwinRow(x, y, st, mt);
    TwinRow(y, x, st, mt);
    HiddenExchange(slow, fast, st, mt);
  }

  lemma HiddenExchange(slow: real, fast: real, st: real, mt: real)
    requires 0.0 < fast && fast + 1.0 <= slow && st > 0.0 && mt > 0.0 && (fast - slow) / slow * 100.0 < -st
    ensures var base, cur := Measure(slow, 0.0, 1.0, Some(1.0), None), Measure(fast, 0.0, 1.0, Some(1.0), None);
            && StatusOf(SignalsOf(true, false, base, cur), st, mt) == Improved
            && StatusOf(SignalsOf(true, false, cur, base), st, mt) == Ok
  {
    DropIsRise(fast, slow, st);
    FlatPeerContradicts(st);
  }

  lemma FlatPeerContradicts(st: real)
    requires st > 0.0
    ensures PeerCorroborates([Some(0.0), None], st) == Some(false)
  {
    var deltas: seq<Option<real>> := [Some(0.0), None];
    assert deltas[1..] == [None] && Present([None]) == [];
    assert Present(deltas) == [0.0];
    assert Sort(RealLeq, [0.0]) == [0.0] by { assert Sort(RealLeq, [0.0][1..]) == []; }
  }

  lemma SelfStatus(nodeMatches: bool, bunMatches: bool, m: Measure, st: real, mt: real)
    requires Positive(m) && st > 0.0 && mt > 0.0
    ensures StatusOf(SignalsOf(nodeMatches, bunMatches, m, m), st, mt) == Ok
  {
    assert (m.wall - m.wall) / m.wall == 0.0 && (m.rss - m.rss) / m.rss == 0.0;
  }

  /** Comparing an artifact with itself flags nothing. */
  lemma SelfComparison(a: Artifact, name: string, st: real, mt: real)
    requires ValidArtifact(a) && name in a.benchmarks && st > 0.0 && mt > 0.0
    ensures RowOf(a, a, name, st, mt).status == if a.benchmarks[name].correctness == Fail then Invalid else Ok
  {
    ValidMeasure(a, name);
    SelfStatus(MetadataMatches(a.node, a.node), MetadataMatches(a.bun, a.bun), MeasureOf(a.benchmarks[name]), st, mt);
  }
}

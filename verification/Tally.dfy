/** Counter tables: pointwise sums and maxima of finite maps, a commutative monoid. */
module Tally {
  import opened Sequences

  function Get<K>(m: map<K, nat>, k: K): nat {
    if k in m then m[k] else 0
  }

  function Max(a: nat, b: nat): nat {
    if a < b then b else a
  }

  function AddMaps<K>(a: map<K, nat>, b: map<K, nat>): map<K, nat> {
    map k | k in a.Keys + b.Keys :: Get(a, k) + Get(b, k)
  }

  /** Per-source statistics: summed fields and one maximum. */
  datatype Stats = Stats(sums: map<string, nat>, limit: nat)
  type Sources = map<string, Stats>

  function AddStats(a: Stats, b: Stats): Stats {
    Stats(AddMaps(a.sums, b.sums), Max(a.limit, b.limit))
  }

  /** Sources of either side; those of both added up. */
  function AddSources(a: Sources, b: Sources): Sources {
    map s | s in a.Keys + b.Keys ::
      if s in a && s in b then AddStats(a[s], b[s]) else if s in a then a[s] else b[s]
  }

  datatype Totals<K> = Totals(sums: map<K, nat>, scanLimit: nat, sources: Sources, legacySources: Sources)

  function Add<K>(a: Totals<K>, b: Totals<K>): Totals<K> {
    Totals(AddMaps(a.sums, b.sums), Max(a.scanLimit, b.scanLimit),
           AddSources(a.sources, b.sources), AddSources(a.legacySources, b.legacySources))
  }

  /** All counters at zero and no source seen. */
  function Empty<K>(counters: set<K>): Totals<K> {
    Totals(map k | k in counters :: 0, 0, map[], map[])
  }

  // ---------------------------------------------------------------- in-place updates

  method AddSums<K(==)>(dst: map<K, nat>, src: map<K, nat>) returns (r: map<K, nat>)
    ensures r == AddMaps(dst, src)
  {
    r := dst;
    var rest := src.Keys;
    while rest != {}
      invariant rest <= src.Keys && r.Keys == dst.Keys + (src.Keys - rest)
      invariant forall k | k in r :: r[k] == if k in rest then dst[k] else Get(dst, k) + Get(src, k)
      decreases rest
    {
      var k :| k in rest;
      rest := rest - {k};
      r := r[k := Get(r, k) + src[k]];
    }
  }

  /** `merge_source_totals`: a source seen for the first time starts from zero. */
  method MergeSourceTotals(dst: Sources, src: Sources) returns (r: Sources)
    ensures r == AddSources(dst, src)
  {
    r := dst;
    ghost var goal := AddSources(dst, src);
    var rest := src.Keys;
    while rest != {}
      invariant rest <= src.Keys && r.Keys == dst.Keys + (src.Keys - rest)
      invariant forall s | s in r :: r[s] == if s in rest then dst[s] else goal[s]
      decreases rest
    {
      var s :| s in rest;
      rest := rest - {s};
      var target := if s in r then r[s] else Stats(map[], 0);
      var sums := AddSums(target.sums, src[s].sums);
      assert s !in dst ==> sums == src[s].sums;
      r := r[s := Stats(sums, Max(target.limit, src[s].limit))];
    }
  }

  /** `add_totals`. */
  method AddTotals<K(==)>(dst: Totals<K>, src: Totals<K>) returns (r: Totals<K>)
    ensures r == Add(dst, src)
  {
    var sums := AddSums(dst.sums, src.sums);
    var sources := MergeSourceTotals(dst.sources, src.sources);
    var legacy := MergeSourceTotals(dst.legacySources, src.legacySources);
    r := Totals(sums, Max(dst.scanLimit, src.scanLimit), sources, legacy);
  }

  // ---------------------------------------------------------------- the monoid laws

  lemma AddZero<K>(a: Totals<K>, counters: set<K>)
    requires counters <= a.sums.Keys
    ensures Add(Empty(counters), a) == a == Add(a, Empty(counters))
  {
    var e := Empty(counters);
    assert AddMaps(e.sums, a.sums) == a.sums == AddMaps(a.sums, e.sums);
    assert AddSources(map[], a.sources) == a.sources == AddSources(a.sources, map[]);
    assert AddSources(map[], a.legacySources) == a.legacySources == AddSources(a.legacySources, map[]);
  }

  lemma MapsCommute<K>(a: map<K, nat>, b: map<K, nat>)
    ensures AddMaps(a, b) == AddMaps(b, a)
  {
  }

  lemma MapsAssociate<K>(a: map<K, nat>, b: map<K, nat>, c: map<K, nat>)
    ensures AddMaps(AddMaps(a, b), c) == AddMaps(a, AddMaps(b, c))
  {
    var left, right := AddMaps(AddMaps(a, b), c), AddMaps(a, AddMaps(b, c));
    assert left.Keys == a.Keys + b.Keys + c.Keys == right.Keys;
    forall k | k in left
      ensures left[k] == right[k]
    {
      GetAdd(a, b, k);
      GetAdd(b, c, k);
    }
  }

  lemma GetAdd<K>(a: map<K, nat>, b: map<K, nat>, k: K)
    ensures Get(AddMaps(a, b), k) == Get(a, k) + Get(b, k)
  {
  }

  lemma SourcesCommute(a: Sources, b: Sources)
    ensures AddSources(a, b) == AddSources(b, a)
  {
    forall s | s in a && s in b
      ensures AddStats(a[s], b[s]) == AddStats(b[s], a[s])
    {
      MapsCommute(a[s].sums, b[s].sums);
    }
  }

  lemma SourcesAssociate(a: Sources, b: Sources, c: Sources)
    ensures AddSources(AddSources(a, b), c) == AddSources(a, AddSources(b, c))
  {
    var left, right := AddSources(AddSources(a, b), c), AddSources(a, AddSources(b, c));
    forall s | s in left
      ensures s in right && left[s] == right[s]
    {
      if s in a && s in b && s in c {
        MapsAssociate(a[s].sums, b[s].sums, c[s].sums);
      }
    }
  }

  lemma AddCommutes<K>(a: Totals<K>, b: Totals<K>)
    ensures Add(a, b) == Add(b, a)
  {
    MapsCommute(a.sums, b.sums);
    SourcesCommute(a.sources, b.sources);
    SourcesCommute(a.legacySources, b.legacySources);
  }

  lemma AddAssociates<K>(a: Totals<K>, b: Totals<K>, c: Totals<K>)
    ensures Add(Add(a, b), c) == Add(a, Add(b, c))
  {
    MapsAssociate(a.sums, b.sums, c.sums);
    SourcesAssociate(a.sources, b.sources, c.sources);
    SourcesAssociate(a.legacySources, b.legacySources, c.legacySources);
  }

  // ---------------------------------------------------------------- sums of many

  /** The summary of a report: its workloads added up one after another. */
  function Sum<K>(counters: set<K>, parts: seq<Totals<K>>): Totals<K> {
    if parts == [] then Empty(counters) else Add(Sum(counters, parts[..|parts| - 1]), parts[|parts| - 1])
  }

  lemma AddSwap<K>(base: Totals<K>, x: Totals<K>, y: Totals<K>)
    ensures Add(Add(base, x), y) == Add(Add(base, y), x)
  {
    AddAssociates(base, x, y);
    AddCommutes(x, y);
    AddAssociates(base, y, x);
  }

  lemma SumSnoc<K>(counters: set<K>, parts: seq<Totals<K>>, x: Totals<K>)
    ensures Sum(counters, parts + [x]) == Add(Sum(counters, parts), x)
  {
    Halves(parts, [x]);
  }

  lemma WithoutSnoc<T>(s: seq<T>, i: nat)
    requires i < |s| - 1
    ensures s[..i] + s[i + 1..] == s[..|s| - 1][..i] + s[..|s| - 1][i + 1..] + [s[|s| - 1]]
  {
  }

  lemma {:induction false} SumWithout<K>(counters: set<K>, parts: seq<Totals<K>>, i: nat)
    requires i < |parts|
    ensures Sum(counters, parts) == Add(Sum(counters, parts[..i] + parts[i + 1..]), parts[i])
  {
    var n := |parts| - 1;
    if i < n {
      var front := parts[..n];
      SumWithout(counters, front, i);
      WithoutSnoc(parts, i);
      SumSnoc(counters, front[..i] + front[i + 1..], parts[n]);
      AddSwap(Sum(counters, front[..i] + front[i + 1..]), parts[i], parts[n]);
    } else {
      assert parts[..i] + parts[i + 1..] == parts[..n];
    }
  }

  /** The summary does not depend on the order of the workloads. */
  lemma {:induction false} SumIgnoresOrder<K>(counters: set<K>, a: seq<Totals<K>>, b: seq<Totals<K>>)
    requires multiset(a) == multiset(b)
    ensures Sum(counters, a) == Sum(counters, b)
    decreases |a|
  {
    assert |a| == |multiset(a)| == |multiset(b)| == |b|;
    if a != [] {
      var n := |a| - 1;
      assert a[n] in multiset(a);
      var i :| 0 <= i < |b| && b[i] == a[n];
      SumWithout(counters, b, i);
      LastOff(a);
      OneOut(b, i);
      SumIgnoresOrder(counters, a[..n], b[..i] + b[i + 1..]);
    }
  }

  /** A field of a source, zero if the source was never seen. */
  function SourceField(sources: Sources, source: string, field: string): nat {
    if source in sources then Get(sources[source].sums, field) else 0
  }

  lemma SourceFieldAdds(a: Sources, b: Sources, source: string, field: string)
    ensures SourceField(AddSources(a, b), source, field) == SourceField(a, source, field) + SourceField(b, source, field)
  {
  }

  function SumSources(parts: seq<Sources>): Sources {
    if parts == [] then map[] else AddSources(SumSources(parts[..|parts| - 1]), parts[|parts| - 1])
  }

  lemma SumSourcesSnoc(parts: seq<Sources>, last: Sources)
    ensures SumSources(parts + [last]) == AddSources(SumSources(parts), last)
  {
    Halves(parts, [last]);
  }

  /** A zero field of merged sources was zero in every part. */
  lemma {:induction false} ZeroSourceField(parts: seq<Sources>, source: string, field: string)
    ensures SourceField(SumSources(parts), source, field) == 0 <==>
            forall i | 0 <= i < |parts| :: SourceField(parts[i], source, field) == 0
  {
    if parts != [] {
      var n := |parts| - 1;
      ZeroSourceField(parts[..n], source, field);
      SourceFieldAdds(SumSources(parts[..n]), parts[n], source, field);
      assert forall i | 0 <= i < n :: parts[..n][i] == parts[i];
    }
  }
}

/** `scripts/ci_cargo_test_shard.py`: round-robin sharding of the sorted integration tests. */
module Shards {
  import opened Sorting

  /** `s[start::step]`. */
  function Stride<T>(s: seq<T>, start: nat, step: nat): seq<T>
    requires step >= 1
    decreases |s| - start
  {
    if start >= |s| then [] else [s[start]] + Stride(s, start + step, step)
  }

  datatype Shard = Assigned(targets: seq<string>) | BadTotal | BadShard

  /** `shard_targets`. */
  function ShardTargets(targets: seq<string>, shard: int, total: int): Shard {
    if total < 1 then BadTotal
    else if !(1 <= shard <= total) then BadShard
    else Assigned(Stride(Sort(StringLeq, targets), shard - 1, total))
  }

  // ---------------------------------------------------------------- validation

  /** The first `n` shards. */
  function Assignments<T>(s: seq<T>, total: nat, n: nat): (r: seq<seq<T>>)
    requires total >= 1
    ensures |r| == n
  {
    if n == 0 then [] else Assignments(s, total, n - 1) + [Stride(s, n - 1, total)]
  }

  lemma {:induction false} AssignmentAt<T>(s: seq<T>, total: nat, n: nat, k: nat)
    requires total >= 1 && k < n
    ensures Assignments(s, total, n)[k] == Stride(s, k, total)
  {
    if k < n - 1 {
      AssignmentAt(s, total, n - 1, k);
    }
  }

  function Flatten<T>(parts: seq<seq<T>>): seq<T> {
    if parts == [] then [] else Flatten(parts[..|parts| - 1]) + parts[|parts| - 1]
  }

  function LargestSize<T>(parts: seq<seq<T>>): (m: nat)
    requires parts != []
    ensures forall k | 0 <= k < |parts| :: |parts[k]| <= m
    ensures exists k | 0 <= k < |parts| :: |parts[k]| == m
  {
    var n := |parts| - 1;
    if n == 0 then |parts[0]|
    else
      var m := LargestSize(parts[..n]);
      assert exists k | 0 <= k < n :: |parts[..n][k]| == m;
      if m < |parts[n]| then |parts[n]| else m
  }

  function SmallestSize<T>(parts: seq<seq<T>>): (m: nat)
    requires parts != []
    ensures forall k | 0 <= k < |parts| :: m <= |parts[k]|
    ensures exists k | 0 <= k < |parts| :: |parts[k]| == m
  {
    var n := |parts| - 1;
    if n == 0 then |parts[0]|
    else
      var m := SmallestSize(parts[..n]);
      assert exists k | 0 <= k < n :: |parts[..n][k]| == m;
      if |parts[n]| < m then |parts[n]| else m
  }

  datatype Verdict = Accepted | TotalTooSmall | EmptyShards | InvalidCoverage | Unbalanced

  /** `validate_assignments`, with its checks in order. */
  function Validate(targets: seq<string>, total: int): Verdict {
    if total < 1 then TotalTooSmall
    else
      Check(Assignments(Sort(StringLeq, targets), total, total), targets)
  }

  function Check(parts: seq<seq<string>>, targets: seq<string>): Verdict
    requires parts != []
  {
    if exists k | 0 <= k < |parts| :: |parts[k]| == 0 then EmptyShards
    else if multiset(Flatten(parts)) != multiset(targets) then InvalidCoverage
    else if LargestSize(parts) - SmallestSize(parts) > 1 then Unbalanced
    else Accepted
  }

  // ---------------------------------------------------------------- one more element

  lemma NextQuotient(n: nat, t: nat)
    requires t >= 1
    ensures n % t + 1 < t ==> (n + 1) / t == n / t && (n + 1) % t == n % t + 1
    ensures n % t + 1 == t ==> (n + 1) / t == n / t + 1 && (n + 1) % t == 0
  {
    var q, r := n / t, n % t;
    assert n == q * t + r;
    if r + 1 < t {
      Euclid(n + 1, t, q, r + 1);
    } else {
      assert (q + 1) * t == q * t + t;
      Euclid(n + 1, t, q + 1, 0);
    }
  }

  lemma Euclid(n: nat, t: nat, q: nat, r: nat)
    requires t >= 1 && n == q * t + r && r < t
    ensures n / t == q && n % t == r
  {
    var q', r' := n / t, n % t;
    assert n == q' * t + r' && 0 <= r' < t;
    var d := q - q';
    assert d * t == r' - r;
    MultipleBound(d, t);
  }

  lemma MultipleBound(d: int, t: int)
    requires t >= 1
    ensures d >= 1 ==> d * t >= t
    ensures d <= -1 ==> d * t <= -t
  {
    if d >= 1 {
      assert d * t == (d - 1) * t + t;
    } else if d <= -1 {
      assert d * t == (d + 1) * t - t;
    }
  }

  lemma {:induction false} StrideSnoc<T>(s: seq<T>, x: T, start: nat, step: nat)
    requires step >= 1
    ensures Stride(s + [x], start, step) ==
            Stride(s, start, step) + if start <= |s| && (|s| - start) % step == 0 then [x] else []
    decreases |s| + 1 - start
  {
    if start < |s| {
      StrideSnoc(s, x, start + step, step);
      if start + step <= |s| {
        NextMultiple(|s| - start - step, step);
      } else {
        Euclid(|s| - start, step, 0, |s| - start);
      }
    }
  }

  lemma NextMultiple(n: nat, step: nat)
    requires step >= 1
    ensures (n + step) % step == n % step
  {
    assert n + step == (n / step + 1) * step + n % step;
    Euclid(n + step, step, n / step + 1, n % step);
  }

  lemma StartResidue(n: nat, start: nat, step: nat)
    requires start < step
    ensures (start <= n && (n - start) % step == 0) <==> n % step == start
  {
    if start <= n && (n - start) % step == 0 {
      var q := (n - start) / step;
      assert n == q * step + start;
      Euclid(n, step, q, start);
    }
    if n % step == start {
      var q := n / step;
      assert n - start == q * step + 0;
      Euclid(n - start, step, q, 0);
    }
  }

  lemma StrideGrows<T>(s: seq<T>, x: T, k: nat, total: nat)
    requires k < total
    ensures Stride(s + [x], k, total) == Stride(s, k, total) + if |s| % total == k then [x] else []
  {
    StrideSnoc(s, x, k, total);
    StartResidue(|s|, k, total);
  }

  // ---------------------------------------------------------------- sizes

  /** Shard sizes follow from the number of targets alone and differ by at most one. */
  lemma {:induction false} ShardSize<T>(s: seq<T>, k: nat, total: nat)
    requires k < total
    ensures |Stride(s, k, total)| == |s| / total + if k < |s| % total then 1 else 0
    decreases |s|
  {
    if s != [] {
      var n := |s| - 1;
      ShardSize(s[..n], k, total);
      StrideGrows(s[..n], s[n], k, total);
      assert s == s[..n] + [s[n]];
      NextQuotient(n, total);
    }
  }

  // ---------------------------------------------------------------- coverage

  /** The new element, if its shard is among the first `n`. */
  function Hit<T>(residue: nat, n: nat, x: T): multiset<T> {
    if residue < n then multiset{x} else multiset{}
  }

  /** An element appended to one part alone is appended to all of them together. */
  lemma {:induction false} FlattenGrows<T>(a: seq<seq<T>>, b: seq<seq<T>>, x: T, residue: nat)
    requires |a| == |b| && forall k | 0 <= k < |a| :: b[k] == a[k] + if k == residue then [x] else []
    ensures multiset(Flatten(b)) == multiset(Flatten(a)) + Hit(residue, |a|, x)
  {
    if a != [] {
      var n := |a| - 1;
      FlattenGrows(a[..n], b[..n], x, residue);
      assert Flatten(a) == Flatten(a[..n]) + a[n] && Flatten(b) == Flatten(b[..n]) + b[n];
    }
  }

  /** Appending an element to the list appends it to exactly one shard. */
  lemma FlattenSnoc<T>(s: seq<T>, x: T, total: nat)
    requires 1 <= total
    ensures multiset(Flatten(Assignments(s + [x], total, total))) == multiset(Flatten(Assignments(s, total, total))) + multiset{x}
  {
    var a, b := Assignments(s, total, total), Assignments(s + [x], total, total);
    forall k | 0 <= k < total
      ensures b[k] == a[k] + if k == |s| % total then [x] else []
    {
      AssignmentAt(s, total, total, k);
      AssignmentAt(s + [x], total, total, k);
      StrideGrows(s, x, k, total);
    }
    FlattenGrows(a, b, x, |s| % total);
  }

  lemma {:induction false} NothingToFlatten<T>(total: nat, n: nat)
    requires 1 <= total
    ensures Flatten(Assignments<T>([], total, n)) == []
  {
    if n > 0 {
      NothingToFlatten<T>(total, n - 1);
      assert Assignments<T>([], total, n)[..n - 1] == Assignments<T>([], total, n - 1);
    }
  }

  /** Every element lies in exactly one shard, as often as in the list. */
  lemma {:induction false} ShardsCover<T>(s: seq<T>, total: nat)
    requires 1 <= total
    ensures multiset(Flatten(Assignments(s, total, total))) == multiset(s)
  {
    if s == [] {
      NothingToFlatten<T>(total, total);
    } else {
      var n := |s| - 1;
      ShardsCover(s[..n], total);
      assert s == s[..n] + [s[n]];
      FlattenSnoc(s[..n], s[n], total);
    }
  }

  // ---------------------------------------------------------------- the promises

  function Share(n: nat, total: nat): nat
    requires 1 <= total
  {
    n / total
  }

  /** The shards of any list cover it exactly and are balanced. */
  lemma ShardingIsFair(targets: seq<string>, total: nat)
    requires 1 <= total
    ensures var parts := Assignments(Sort(StringLeq, targets), total, total);
            && multiset(Flatten(parts)) == multiset(targets)
            && (forall k | 0 <= k < total :: ShardTargets(targets, k + 1, total) == Assigned(parts[k]))
            && (forall k | 0 <= k < total :: Share(|targets|, total) <= |parts[k]| <= Share(|targets|, total) + 1)
  {
    var s := Sort(StringLeq, targets);
    var parts := Assignments(s, total, total);
    ShardsCover(s, total);
    forall k | 0 <= k < total
      ensures ShardTargets(targets, k + 1, total) == Assigned(parts[k])
      ensures Share(|targets|, total) <= |parts[k]| <= Share(|targets|, total) + 1
    {
      AssignmentAt(s, total, total, k);
      ShardSize(s, k, total);
    }
  }

  /** Which names a shard gets depends only on which names there are. */
  lemma ShardsIgnoreOrder(a: seq<string>, b: seq<string>, shard: int, total: int)
    requires multiset(a) == multiset(b)
    ensures ShardTargets(a, shard, total) == ShardTargets(b, shard, total)
  {
    StringOrder();
    SortDependsOnElements(StringLeq, a, b);
  }

  lemma EmptyShardIff(parts: seq<seq<string>>, n: nat)
    requires forall k | 0 <= k < |parts| :: |parts[k]| == 0 <==> k >= n
    ensures (exists k | 0 <= k < |parts| :: |parts[k]| == 0) <==> |parts| > n
  {
    if |parts| > n {
      assert |parts[n]| == 0;
    }
  }

  lemma FairPartsChecked(parts: seq<seq<string>>, targets: seq<string>, low: nat)
    requires parts != [] && multiset(Flatten(parts)) == multiset(targets)
    requires forall k | 0 <= k < |parts| :: low <= |parts[k]| <= low + 1
    ensures Check(parts, targets) == if exists k | 0 <= k < |parts| :: |parts[k]| == 0 then EmptyShards else Accepted
  {
  }

  /** Validation accepts exactly when every shard can get a target; its coverage and balance checks never fail. */
  lemma ValidateAccepts(targets: seq<string>, total: int)
    ensures Validate(targets, total) ==
            if total < 1 then TotalTooSmall else if total > |targets| then EmptyShards else Accepted
  {
    if total >= 1 {
      var s := Sort(StringLeq, targets);
      ShardingIsFair(targets, total);
      FairPartsChecked(Assignments(s, total, total), targets, Share(|targets|, total));
      forall k | 0 <= k < total
        ensures |Assignments(s, total, total)[k]| == 0 <==> k >= |s|
      {
        AssignmentAt(s, total, total, k);
      }
      EmptyShardIff(Assignments(s, total, total), |s|);
    }
  }
}

/** `scripts/check_cross_thread_promise_provenance.py`: which promise a name means at a hand-off.
    A function body is the position-ordered list of what the script's regular expressions find in it. */
module PromiseProvenance {
  import opened Options

  datatype Ctor = New | WithParent | CrossThread | NativeResolution

  predicate IsArena(c: Ctor) {
    c == New || c == WithParent
  }

  /** `let name = ctor(..)`, `let name = source as usize`, or a call of a settlement sink with the
      identifiers among its arguments. */
  datatype Item = Bind(name: string, ctor: Ctor) | Alias(name: string, source: string) | Sink(args: seq<string>)

  datatype Finding = Finding(position: nat, name: string, ctor: Ctor)

  // ---------------------------------------------------------------- lookup by position

  /** The last promise binding of `name` before `pos`. */
  function LastBind(body: seq<Item>, name: string, pos: nat): (r: Option<(nat, Ctor)>)
    requires pos <= |body|
    ensures r.Some? ==> r.value.0 < pos && body[r.value.0] == Bind(name, r.value.1)
    ensures r.Some? ==> forall q | r.value.0 < q < pos :: !(body[q].Bind? && body[q].name == name)
    ensures r.None? ==> forall q | 0 <= q < pos :: !(body[q].Bind? && body[q].name == name)
  {
    if pos == 0 then None
    else if body[pos - 1].Bind? && body[pos - 1].name == name then Some((pos - 1, body[pos - 1].ctor))
    else LastBind(body, name, pos - 1)
  }

  /** The last alias binding of `name` before `pos`. */
  function LastAlias(body: seq<Item>, name: string, pos: nat): (r: Option<(nat, string)>)
    requires pos <= |body|
    ensures r.Some? ==> r.value.0 < pos && body[r.value.0] == Alias(name, r.value.1)
    ensures r.Some? ==> forall q | r.value.0 < q < pos :: !(body[q].Alias? && body[q].name == name)
    ensures r.None? ==> forall q | 0 <= q < pos :: !(body[q].Alias? && body[q].name == name)
  {
    if pos == 0 then None
    else if body[pos - 1].Alias? && body[pos - 1].name == name then Some((pos - 1, body[pos - 1].source))
    else LastAlias(body, name, pos - 1)
  }

  /** An alias, if there is one, is followed once, from where it was made. */
  function Resolve(body: seq<Item>, name: string, pos: nat): Option<Ctor>
    requires pos <= |body|
  {
    var alias := LastAlias(body, name, pos);
    var binding := if alias.Some? then LastBind(body, alias.value.1, alias.value.0) else LastBind(body, name, pos);
    if binding.Some? then Some(binding.value.1) else None
  }

  /** The first argument that resolves to an arena promise. */
  function FirstArena(body: seq<Item>, args: seq<string>, pos: nat): Option<(string, Ctor)>
    requires pos <= |body|
  {
    if args == [] then None
    else
      var r := Resolve(body, args[0], pos);
      if r.Some? && IsArena(r.value) then Some((args[0], r.value)) else FirstArena(body, args[1..], pos)
  }

  /** The finding of the item at `p`, if it is a flagged sink call. */
  function FindingsAt(body: seq<Item>, p: nat): seq<Finding>
    requires p < |body|
  {
    if body[p].Sink? then
      match FirstArena(body, body[p].args, p)
      case Some(hit) => [Finding(p, hit.0, hit.1)]
      case None => []
    else []
  }

  function Findings(body: seq<Item>, n: nat): seq<Finding>
    requires n <= |body|
  {
    if n == 0 then [] else Findings(body, n - 1) + FindingsAt(body, n - 1)
  }

  // ---------------------------------------------------------------- the script's tables

  type Entries<V> = map<string, seq<(nat, V)>>

  /** `latest_before`. */
  method LatestBefore<V>(entries: Entries<V>, name: string, pos: nat) returns (best: Option<(nat, V)>)
    ensures best.Some? ==> name in entries && best.value in entries[name] && best.value.0 < pos
    ensures best.Some? ==> forall e | e in entries[name] && e.0 < pos :: e.0 <= best.value.0
    ensures best.None? ==> name in entries ==> forall e | e in entries[name] :: e.0 >= pos
  {
    best := None;
    if name !in entries {
      return;
    }
    var list := entries[name];
    for n := 0 to |list|
      invariant best.Some? ==> best.value in list && best.value.0 < pos
      invariant best.Some? ==> forall i | 0 <= i < n && list[i].0 < pos :: list[i].0 <= best.value.0
      invariant best.None? ==> forall i | 0 <= i < n :: list[i].0 >= pos
    {
      if list[n].0 < pos && (best.None? || list[n].0 > best.value.0) {
        best := Some(list[n]);
      }
    }
  }

  function Append<V>(entries: Entries<V>, name: string, e: (nat, V)): Entries<V> {
    entries[name := (if name in entries then entries[name] else []) + [e]]
  }

  ghost predicate HoldsBindings(body: seq<Item>, n: nat, bindings: Entries<Ctor>)
    requires n <= |body|
  {
    forall name, p: nat, c :: (name in bindings && (p, c) in bindings[name]) <==> p < n && body[p] == Bind(name, c)
  }

  ghost predicate HoldsAliases(body: seq<Item>, n: nat, aliases: Entries<string>)
    requires n <= |body|
  {
    forall name, p: nat, s :: (name in aliases && (p, s) in aliases[name]) <==> p < n && body[p] == Alias(name, s)
  }

  method CollectTables(body: seq<Item>) returns (bindings: Entries<Ctor>, aliases: Entries<string>)
    ensures HoldsBindings(body, |body|, bindings) && HoldsAliases(body, |body|, aliases)
  {
    bindings, aliases := map[], map[];
    for n := 0 to |body|
      invariant HoldsBindings(body, n, bindings) && HoldsAliases(body, n, aliases)
    {
      match body[n] {
        case Bind(name, c) => bindings := Append(bindings, name, (n, c));
        case Alias(name, s) => aliases := Append(aliases, name, (n, s));
        case Sink(_) =>
      }
    }
  }

  method ResolveByTables(ghost body: seq<Item>, bindings: Entries<Ctor>, aliases: Entries<string>, name: string, pos: nat)
    returns (r: Option<Ctor>)
    requires pos <= |body| && HoldsBindings(body, |body|, bindings) && HoldsAliases(body, |body|, aliases)
    ensures r == Resolve(body, name, pos)
  {
    var alias := LatestBefore(aliases, name, pos);
    assert alias == LastAlias(body, name, pos) by { AliasTable(body, aliases, name, pos, alias); }
    var source, at := name, pos;
    if alias.Some? {
      at, source := alias.value.0, alias.value.1;
    }
    var binding := LatestBefore(bindings, source, at);
    assert binding == LastBind(body, source, at) by { BindTable(body, bindings, source, at, binding); }
    r := if binding.Some? then Some(binding.value.1) else None;
  }

  lemma AliasTable(body: seq<Item>, aliases: Entries<string>, name: string, pos: nat, best: Option<(nat, string)>)
    requires pos <= |body| && HoldsAliases(body, |body|, aliases)
    requires best.Some? ==> name in aliases && best.value in aliases[name] && best.value.0 < pos
    requires best.Some? ==> forall e | e in aliases[name] && e.0 < pos :: e.0 <= best.value.0
    requires best.None? ==> name in aliases ==> forall e | e in aliases[name] :: e.0 >= pos
    ensures best == LastAlias(body, name, pos)
  {
    var last := LastAlias(body, name, pos);
    if last.Some? {
      assert name in aliases && (last.value.0, last.value.1) in aliases[name];
    }
    if best.Some? {
      assert (best.value.0, best.value.1) in aliases[name];
    }
  }

  lemma BindTable(body: seq<Item>, bindings: Entries<Ctor>, name: string, pos: nat, best: Option<(nat, Ctor)>)
    requires pos <= |body| && HoldsBindings(body, |body|, bindings)
    requires best.Some? ==> name in bindings && best.value in bindings[name] && best.value.0 < pos
    requires best.Some? ==> forall e | e in bindings[name] && e.0 < pos :: e.0 <= best.value.0
    requires best.None? ==> name in bindings ==> forall e | e in bindings[name] :: e.0 >= pos
    ensures best == LastBind(body, name, pos)
  {
    var last := LastBind(body, name, pos);
    if last.Some? {
      assert name in bindings && (last.value.0, last.value.1) in bindings[name];
    }
    if best.Some? {
      assert (best.value.0, best.value.1) in bindings[name];
    }
  }

  method FirstArenaByTables(ghost body: seq<Item>, bindings: Entries<Ctor>, aliases: Entries<string>, args: seq<string>, pos: nat)
    returns (hit: Option<(string, Ctor)>)
    requires pos <= |body| && HoldsBindings(body, |body|, bindings) && HoldsAliases(body, |body|, aliases)
    ensures hit == FirstArena(body, args, pos)
  {
    for k := 0 to |args|
      invariant FirstArena(body, args, pos) == FirstArena(body, args[k..], pos)
    {
      var r := ResolveByTables(body, bindings, aliases, args[k], pos);
      assert args[k..][0] == args[k] && args[k..][1..] == args[k + 1..];
      if r.Some? && IsArena(r.value) {
        return Some((args[k], r.value));
      }
    }
    return None;
  }

  /** The resolution loops of `analyze_source` for one function body. */
  method AnalyzeBody(body: seq<Item>) returns (findings: seq<Finding>)
    ensures findings == Findings(body, |body|)
  {
    var bindings, aliases := CollectTables(body);
    if !exists p | 0 <= p < |body| :: body[p].Bind? && IsArena(body[p].ctor) {
      NoArenaNoFinding(body, |body|);
      return [];
    }
    findings := JudgeCalls(body, bindings, aliases);
  }

  /** The loop over the sink calls. */
  method JudgeCalls(body: seq<Item>, bindings: Entries<Ctor>, aliases: Entries<string>) returns (findings: seq<Finding>)
    requires HoldsBindings(body, |body|, bindings) && HoldsAliases(body, |body|, aliases)
    ensures findings == Findings(body, |body|)
  {
    findings := [];
    for n := 0 to |body|
      invariant findings == Findings(body, n)
    {
      var found := JudgeItem(body, bindings, aliases, n);
      findings := findings + found;
    }
  }

  /** The finding of one sink call, if there is one. */
  method JudgeItem(body: seq<Item>, bindings: Entries<Ctor>, aliases: Entries<string>, n: nat) returns (found: seq<Finding>)
    requires n < |body| && HoldsBindings(body, |body|, bindings) && HoldsAliases(body, |body|, aliases)
    ensures found == FindingsAt(body, n)
  {
    found := [];
    if body[n].Sink? {
      var hit := FirstArenaByTables(body, bindings, aliases, body[n].args, n);
      if hit.Some? {
        found := [Finding(n, hit.value.0, hit.value.1)];
      }
    }
  }

  lemma {:induction false} NoArenaNoHit(body: seq<Item>, args: seq<string>, pos: nat)
    requires pos <= |body| && forall p | 0 <= p < |body| :: !(body[p].Bind? && IsArena(body[p].ctor))
    ensures FirstArena(body, args, pos) == None
  {
    if args != [] {
      NoArenaNoHit(body, args[1..], pos);
    }
  }

  lemma {:induction false} NoArenaNoFinding(body: seq<Item>, n: nat)
    requires n <= |body| && forall p | 0 <= p < |body| :: !(body[p].Bind? && IsArena(body[p].ctor))
    ensures Findings(body, n) == []
  {
    if n > 0 {
      NoArenaNoFinding(body, n - 1);
      NoArenaNoFindingAt(body, n - 1);
    }
  }

  lemma NoArenaNoFindingAt(body: seq<Item>, p: nat)
    requires p < |body| && forall p | 0 <= p < |body| :: !(body[p].Bind? && IsArena(body[p].ctor))
    ensures FindingsAt(body, p) == []
  {
    if body[p].Sink? {
      NoArenaNoHit(body, body[p].args, p);
    }
  }

  // ---------------------------------------------------------------- the straight-line interpreter

  /** What a name holds: the address of a promise, or something else. */
  datatype Value = Promise(ctor: Ctor) | Other

  /** The environment after the first `n` items; each `let` shadows what was there. */
  function Env(body: seq<Item>, n: nat): map<string, Value>
    requires n <= |body|
  {
    if n == 0 then map[]
    else
      var env := Env(body, n - 1);
      match body[n - 1]
      case Bind(name, c) => env[name := Promise(c)]
      case Alias(name, s) => env[name := if s in env then env[s] else Other]
      case Sink(_) => env
  }

  predicate HoldsArena(env: map<string, Value>, name: string) {
    name in env && env[name].Promise? && IsArena(env[name].ctor)
  }

  // ---------------------------------------------------------------- where a promise comes from

  /** The last `let` of `name` before `pos`, of either kind. */
  function LastLet(body: seq<Item>, name: string, pos: nat): (r: Option<nat>)
    requires pos <= |body|
    ensures r.Some? ==> r.value < pos && !body[r.value].Sink? && body[r.value].name == name
    ensures r.Some? ==> forall q | r.value < q < pos :: body[q].Sink? || body[q].name != name
    ensures r.None? ==> forall q | 0 <= q < pos :: body[q].Sink? || body[q].name != name
  {
    if pos == 0 then None
    else if !body[pos - 1].Sink? && body[pos - 1].name == name then Some(pos - 1)
    else LastLet(body, name, pos - 1)
  }

  /** The binding whose promise `name` holds at `pos`: from `let` to `let`, back to the constructor. */
  function Site(body: seq<Item>, name: string, pos: nat): (r: Option<nat>)
    requires pos <= |body|
    ensures r.Some? ==> r.value < pos && body[r.value].Bind?
    decreases pos
  {
    match LastLet(body, name, pos)
    case None => None
    case Some(p) => if body[p].Bind? then Some(p) else Site(body, body[p].source, p)
  }

  /** The binding the script resolves `name` to. */
  function Found(body: seq<Item>, name: string, pos: nat): (r: Option<nat>)
    requires pos <= |body|
    ensures r.Some? ==> r.value < pos && body[r.value].Bind?
    ensures Resolve(body, name, pos) == if r.Some? then Some(body[r.value].ctor) else None
  {
    var alias := LastAlias(body, name, pos);
    LastBindSite(body, if alias.Some? then alias.value.1 else name, if alias.Some? then alias.value.0 else pos)
  }

  function LastBindSite(body: seq<Item>, name: string, pos: nat): (r: Option<nat>)
    requires pos <= |body|
    ensures r.Some? ==> r.value < pos && body[r.value].Bind? && LastBind(body, name, pos) == Some((r.value, body[r.value].ctor))
    ensures r.None? ==> LastBind(body, name, pos) == None
  {
    match LastBind(body, name, pos)
    case Some(b) => Some(b.0)
    case None => None
  }

  /** What the script gets right.  A name last bound to a promise was no alias before that.  The
      source of an alias was last bound to a promise, or not at all, or it is an alias itself and
      leads back to the last promise of its own name, as in `let p = p as usize`. */
  predicate Straight(body: seq<Item>, name: string, pos: nat)
    requires pos <= |body|
  {
    match LastLet(body, name, pos)
    case None => true
    case Some(p) =>
      if body[p].Bind? then LastAlias(body, name, p) == None
      else
        match LastLet(body, body[p].source, p)
        case None => true
        case Some(q) => body[q].Bind? || Site(body, body[q].source, q) == LastBindSite(body, body[q].name, q)
  }

  lemma LastOfKind(body: seq<Item>, name: string, pos: nat)
    requires pos <= |body|
    ensures match LastLet(body, name, pos)
            case None => LastBindSite(body, name, pos) == None && LastAlias(body, name, pos) == None
            case Some(p) =>
              if body[p].Bind?
              then LastBindSite(body, name, pos) == Some(p) && LastAlias(body, name, pos) == LastAlias(body, name, p)
              else LastAlias(body, name, pos) == Some((p, body[p].source))
                   && LastBindSite(body, name, pos) == LastBindSite(body, name, p)
  {
  }

  /** The script resolves a name to the binding it holds if and only if the name is straight. */
  lemma FoundIsSite(body: seq<Item>, name: string, pos: nat)
    requires pos <= |body|
    ensures Found(body, name, pos) == Site(body, name, pos) <==> Straight(body, name, pos)
  {
    LastOfKind(body, name, pos);
    var last := LastLet(body, name, pos);
    if last.Some? && body[last.value].Alias? {
      LastOfKind(body, body[last.value].source, last.value);
    }
  }

  /** One more item: a `let` of the name decides, anything else changes nothing. */
  lemma SiteStep(body: seq<Item>, name: string, n: nat)
    requires n < |body|
    ensures Site(body, name, n + 1) ==
            if body[n].Bind? && body[n].name == name then Some(n)
            else if body[n].Alias? && body[n].name == name then Site(body, body[n].source, n)
            else Site(body, name, n)
    ensures LastLet(body, name, n + 1).Some? <==> LastLet(body, name, n).Some? || (!body[n].Sink? && body[n].name == name)
  {
  }

  /** The interpreter's environment holds the promise of that binding, and of no other. */
  lemma {:induction false} EnvHoldsSite(body: seq<Item>, name: string, pos: nat)
    requires pos <= |body|
    ensures var env, site := Env(body, pos), Site(body, name, pos);
            && (name in env <==> LastLet(body, name, pos).Some?)
            && (name in env ==> env[name] == if site.Some? then Promise(body[site.value].ctor) else Other)
    decreases pos
  {
    if pos > 0 {
      EnvHoldsSite(body, name, pos - 1);
      SiteStep(body, name, pos - 1);
      if body[pos - 1].Alias? {
        EnvHoldsSite(body, body[pos - 1].source, pos - 1);
      }
    }
  }

  predicate ArenaSite(body: seq<Item>, site: Option<nat>) {
    site.Some? && site.value < |body| && body[site.value].Bind? && IsArena(body[site.value].ctor)
  }

  predicate ResolvesToArena(body: seq<Item>, name: string, pos: nat)
    requires pos <= |body|
  {
    var r := Resolve(body, name, pos);
    r.Some? && IsArena(r.value)
  }

  lemma VerdictsBySite(body: seq<Item>, name: string, pos: nat)
    requires pos <= |body|
    ensures ResolvesToArena(body, name, pos) <==> ArenaSite(body, Found(body, name, pos))
    ensures HoldsArena(Env(body, pos), name) <==> ArenaSite(body, Site(body, name, pos))
  {
    EnvHoldsSite(body, name, pos);
  }

  /** For a straight name the lookup by position finds what the interpreter would. */
  lemma ResolveIsInterpreter(body: seq<Item>, name: string, pos: nat)
    requires pos <= |body| && Straight(body, name, pos)
    ensures ResolvesToArena(body, name, pos) <==> HoldsArena(Env(body, pos), name)
  {
    VerdictsBySite(body, name, pos);
    FoundIsSite(body, name, pos);
  }

  /** No name is bound both ways and no alias is made of an alias. */
  ghost predicate Plain(body: seq<Item>) {
    forall i, j | 0 <= i < |body| && 0 <= j < |body| && body[i].Alias? ::
      && (body[j].Bind? ==> body[i].name != body[j].name)
      && (body[j].Alias? ==> body[i].source != body[j].name)
  }

  /** In a plain body every name is straight everywhere. */
  lemma PlainIsStraight(body: seq<Item>, name: string, pos: nat)
    requires pos <= |body| && Plain(body)
    ensures Straight(body, name, pos)
  {
  }

  /** `let p = p as usize` right after a promise is straight, although `p` is bound both ways. */
  lemma SelfAliasIsStraight(body: seq<Item>, name: string, pos: nat)
    requires pos < |body| && body[pos] == Alias(name, name)
    requires var last := LastLet(body, name, pos); last.None? || body[last.value].Bind?
    ensures Straight(body, name, pos + 1)
  {
    assert LastLet(body, name, pos + 1) == Some(pos);
  }

  // ---------------------------------------------------------------- all constructors

  /** The same `let`s and calls, with other constructors. */
  ghost predicate SameShape(body: seq<Item>, other: seq<Item>) {
    |body| == |other|
    && forall i | 0 <= i < |body| ::
         if body[i].Bind? then other[i].Bind? && other[i].name == body[i].name else other[i] == body[i]
  }

  lemma {:induction false} ShapeFixesLet(body: seq<Item>, other: seq<Item>, name: string, pos: nat)
    requires pos <= |body| && SameShape(body, other)
    ensures LastLet(other, name, pos) == LastLet(body, name, pos)
  {
    if pos > 0 {
      ShapeFixesLet(body, other, name, pos - 1);
    }
  }

  lemma {:induction false} ShapeFixesAlias(body: seq<Item>, other: seq<Item>, name: string, pos: nat)
    requires pos <= |body| && SameShape(body, other)
    ensures LastAlias(other, name, pos) == LastAlias(body, name, pos)
  {
    if pos > 0 {
      ShapeFixesAlias(body, other, name, pos - 1);
    }
  }

  lemma ShapeFixesBind(body: seq<Item>, other: seq<Item>, name: string, pos: nat)
    requires pos <= |body| && SameShape(body, other)
    ensures LastBindSite(other, name, pos) == LastBindSite(body, name, pos)
  {
    var p, q := LastBindSite(body, name, pos), LastBindSite(other, name, pos);
    if p.Some? {
      assert other[p.value].Bind? && other[p.value].name == name;
    }
    if q.Some? {
      assert body[q.value].Bind? && body[q.value].name == name;
    }
  }

  lemma {:induction false} ShapeFixesSites(body: seq<Item>, other: seq<Item>, name: string, pos: nat)
    requires pos <= |body| && SameShape(body, other)
    ensures Site(other, name, pos) == Site(body, name, pos) && Found(other, name, pos) == Found(body, name, pos)
    decreases pos
  {
    ShapeFixesLet(body, other, name, pos);
    ShapeFixesAlias(body, other, name, pos);
    ShapeFixesBind(body, other, name, pos);
    var last, alias := LastLet(body, name, pos), LastAlias(body, name, pos);
    if last.Some? && body[last.value].Alias? {
      ShapeFixesSites(body, other, body[last.value].source, last.value);
    }
    if alias.Some? {
      ShapeFixesBind(body, other, alias.value.1, alias.value.0);
    }
  }

  /** The body in which the binding at `site` is the only arena promise. */
  function OnlyArena(body: seq<Item>, site: nat): (other: seq<Item>)
    ensures SameShape(body, other)
    ensures forall p :: ArenaSite(other, p) <==> p == Some(site) && site < |body| && body[site].Bind?
  {
    seq(|body|, i requires 0 <= i < |body| =>
      if body[i].Bind? then Bind(body[i].name, if i == site then New else CrossThread) else body[i])
  }

  /** The bindings a list of arguments is resolved to, and those the arguments hold. */
  ghost function FoundSites(body: seq<Item>, args: seq<string>, pos: nat): set<nat>
    requires pos <= |body|
  {
    set p: nat | p < |body| && exists k | 0 <= k < |args| :: Found(body, args[k], pos) == Some(p)
  }

  ghost function HeldSites(body: seq<Item>, args: seq<string>, pos: nat): set<nat>
    requires pos <= |body|
  {
    set p: nat | p < |body| && exists k | 0 <= k < |args| :: Site(body, args[k], pos) == Some(p)
  }

  ghost predicate ReachesSink(body: seq<Item>, args: seq<string>, pos: nat)
    requires pos <= |body|
  {
    exists k :: 0 <= k < |args| && HoldsArena(Env(body, pos), args[k])
  }

  lemma {:induction false} FirstArenaIff(body: seq<Item>, args: seq<string>, pos: nat)
    requires pos <= |body|
    ensures FirstArena(body, args, pos).Some? <==> exists k :: 0 <= k < |args| && ResolvesToArena(body, args[k], pos)
  {
    if args != [] {
      FirstArenaIff(body, args[1..], pos);
      assert forall k | 0 < k < |args| :: args[k] == args[1..][k - 1];
      assert forall k | 0 <= k < |args| - 1 :: args[1..][k] == args[k + 1];
    }
  }

  lemma VerdictsBySites(body: seq<Item>, args: seq<string>, pos: nat)
    requires pos <= |body|
    ensures FirstArena(body, args, pos).Some? <==> exists p :: p in FoundSites(body, args, pos) && ArenaSite(body, Some(p))
    ensures ReachesSink(body, args, pos) <==> exists p :: p in HeldSites(body, args, pos) && ArenaSite(body, Some(p))
  {
    FirstArenaIff(body, args, pos);
    forall k | 0 <= k < |args|
      ensures ResolvesToArena(body, args[k], pos) <==> ArenaSite(body, Found(body, args[k], pos))
      ensures HoldsArena(Env(body, pos), args[k]) <==> ArenaSite(body, Site(body, args[k], pos))
      ensures var f := Found(body, args[k], pos); f.Some? ==> f.value in FoundSites(body, args, pos)
      ensures var h := Site(body, args[k], pos); h.Some? ==> h.value in HeldSites(body, args, pos)
    {
      VerdictsBySite(body, args[k], pos);
    }
  }

  lemma ShapeFixesSiteSets(body: seq<Item>, other: seq<Item>, args: seq<string>, pos: nat)
    requires pos <= |body| && SameShape(body, other)
    ensures FoundSites(other, args, pos) == FoundSites(body, args, pos) && HeldSites(other, args, pos) == HeldSites(body, args, pos)
  {
    forall k | 0 <= k < |args|
      ensures Found(other, args[k], pos) == Found(body, args[k], pos) && Site(other, args[k], pos) == Site(body, args[k], pos)
    {
      ShapeFixesSites(body, other, args[k], pos);
    }
  }

  /** The verdict on the call at `p` is the interpreter's. */
  ghost predicate RightAt(body: seq<Item>, p: nat)
    requires p < |body| && body[p].Sink?
  {
    FirstArena(body, body[p].args, p).Some? <==> ReachesSink(body, body[p].args, p)
  }

  /** If the sites differ, some choice of constructors gets the call wrong. */
  lemma WrongConstructors(body: seq<Item>, p: nat, site: nat)
    requires p < |body| && body[p].Sink?
    requires (site in FoundSites(body, body[p].args, p)) != (site in HeldSites(body, body[p].args, p))
    ensures SameShape(body, OnlyArena(body, site)) && !RightAt(OnlyArena(body, site), p)
  {
    var other, args := OnlyArena(body, site), body[p].args;
    ShapeFixesSiteSets(body, other, args, p);
    VerdictsBySites(other, args, p);
    assert ArenaSite(other, Some(site));
  }

  /** A call is judged as the interpreter judges it, whatever constructors the promises come from, if
      and only if its arguments are resolved to the bindings they hold. */
  lemma AlwaysRightIff(body: seq<Item>, p: nat)
    requires p < |body| && body[p].Sink?
    ensures (forall other | SameShape(body, other) :: RightAt(other, p)) <==>
            FoundSites(body, body[p].args, p) == HeldSites(body, body[p].args, p)
  {
    var args := body[p].args;
    if site :| (site in FoundSites(body, args, p)) != (site in HeldSites(body, args, p)) {
      WrongConstructors(body, p, site);
    } else {
      forall other | SameShape(body, other)
        ensures RightAt(other, p)
      {
        ShapeFixesSiteSets(body, other, args, p);
        VerdictsBySites(other, args, p);
      }
    }
  }

  /** A call with one argument is always judged rightly if and only if the argument is straight. */
  lemma OneArgumentIff(body: seq<Item>, p: nat, name: string)
    requires p < |body| && body[p] == Sink([name])
    ensures (forall other | SameShape(body, other) :: RightAt(other, p)) <==> Straight(body, name, p)
  {
    var found, held := FoundSites(body, [name], p), HeldSites(body, [name], p);
    AlwaysRightIff(body, p);
    FoundIsSite(body, name, p);
    assert forall q :: q in found <==> q < |body| && Found(body, [name][0], p) == Some(q);
    assert forall q :: q in held <==> q < |body| && Site(body, [name][0], p) == Some(q);
    var f, h := Found(body, name, p), Site(body, name, p);
    if f != h {
      assert (f.Some? && f.value in found && f.value !in held) || (h.Some? && h.value in held && h.value !in found);
    }
  }

  /** Strictly increasing positions of sink calls before `n`. */
  ghost predicate InOrder(body: seq<Item>, n: nat, fs: seq<Finding>) {
    && (forall i | 0 <= i < |fs| :: fs[i].position < n && fs[i].position < |body| && body[fs[i].position].Sink?)
    && (forall i, j | 0 <= i < j < |fs| :: fs[i].position < fs[j].position)
  }

  /** Findings come in order, at most one for each sink call. */
  lemma {:induction false} FindingsOrdered(body: seq<Item>, n: nat)
    requires n <= |body|
    ensures InOrder(body, n, Findings(body, n))
  {
    if n > 0 {
      FindingsOrdered(body, n - 1);
      OneFinding(Findings(body, n - 1), body, n - 1);
    }
  }

  lemma OneFinding(before: seq<Finding>, body: seq<Item>, p: nat)
    requires p < |body| && InOrder(body, p, before)
    ensures InOrder(body, p + 1, before + FindingsAt(body, p))
  {
    var extra := FindingsAt(body, p);
    assert extra == [] || (|extra| == 1 && extra[0].position == p && body[p].Sink?);
  }

  lemma {:induction false} FindingAt(body: seq<Item>, n: nat, f: Finding)
    requires n <= |body|
    ensures f in Findings(body, n) <==> f.position < n && f in FindingsAt(body, f.position)
  {
    if n > 0 {
      FindingAt(body, n - 1, f);
      InEither(Findings(body, n - 1), FindingsAt(body, n - 1), f);
      FoundHere(body, n - 1, f);
    }
  }

  lemma InEither(a: seq<Finding>, b: seq<Finding>, f: Finding)
    ensures f in a + b <==> f in a || f in b
  {
  }

  lemma FoundHere(body: seq<Item>, p: nat, f: Finding)
    requires p < |body|
    ensures f in FindingsAt(body, p) ==> f.position == p
  {
  }

  lemma FlaggedIff(body: seq<Item>, p: nat)
    requires p < |body| && body[p].Sink?
    ensures (exists f :: f in Findings(body, |body|) && f.position == p) <==> FirstArena(body, body[p].args, p).Some?
  {
    forall f
      ensures f in Findings(body, |body|) && f.position == p <==> f in FindingsAt(body, p)
    {
      FindingAt(body, |body|, f);
    }
    if FindingsAt(body, p) != [] {
      assert FindingsAt(body, p)[0] in FindingsAt(body, p);
    }
  }

  /** A sink call with straight arguments is flagged exactly when one of them holds an arena promise. */
  lemma FlaggedIffArenaReachesSink(body: seq<Item>, p: nat)
    requires p < |body| && body[p].Sink? && forall k | 0 <= k < |body[p].args| :: Straight(body, body[p].args[k], p)
    ensures (exists f :: f in Findings(body, |body|) && f.position == p) <==>
            exists k :: 0 <= k < |body[p].args| && HoldsArena(Env(body, p), body[p].args[k])
  {
    FlaggedIff(body, p);
    FirstArenaIff(body, body[p].args, p);
    forall k | 0 <= k < |body[p].args|
      ensures ResolvesToArena(body, body[p].args[k], p) <==> HoldsArena(Env(body, p), body[p].args[k])
    {
      ResolveIsInterpreter(body, body[p].args[k], p);
    }
  }

  // ---------------------------------------------------------------- what is not straight

  /** A later promise of the same name does not hide an alias: the call is flagged although the
      promise it hands over is safe. */
  lemma AliasShadowsLaterPromise()
    ensures var body := [Bind("p", New), Alias("q", "p"), Bind("q", CrossThread), Sink(["q"])];
            Resolve(body, "q", 3) == Some(New) && Env(body, 3)["q"] == Promise(CrossThread) && !Straight(body, "q", 3)
  {
    var body := [Bind("p", New), Alias("q", "p"), Bind("q", CrossThread), Sink(["q"])];
    assert LastAlias(body, "q", 2) == Some((1, "p"));
    assert LastBind(body, "p", 1) == Some((0, New));
    assert LastLet(body, "q", 3) == Some(2);
  }

  /** An alias of an alias is not followed: an arena promise reaches the sink unseen. */
  lemma AliasOfAliasIsMissed()
    ensures var body := [Bind("p", New), Alias("q", "p"), Alias("r", "q"), Sink(["r"])];
            Resolve(body, "r", 3) == None && Env(body, 3)["r"] == Promise(New) && !Straight(body, "r", 3)
  {
    var body := [Bind("p", New), Alias("q", "p"), Alias("r", "q"), Sink(["r"])];
    assert LastBind(body, "q", 1) == None;
    assert Env(body, 1)["p"] == Promise(New);
    assert Env(body, 2)["q"] == Promise(New);
    assert LastLet(body, "r", 3) == Some(2) && LastLet(body, "q", 2) == Some(1) && LastLet(body, "p", 1) == Some(0);
    assert Site(body, "p", 1) == Some(0);
  }
}

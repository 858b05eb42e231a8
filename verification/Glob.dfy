/** `_fnmatch_path` of `scripts/check_test_registration.py`: a glob is translated to a regular
    expression, which must mean what the glob means segment by segment. */
module Glob {
  import opened Sequences
  import opened Text

  // ---------------------------------------------------------------- regular expressions

  datatype Regex =
    | Lit(c: char)
    | NotSlash
    | Cat(first: Regex, second: Regex)
    | Star(body: Regex)

  predicate Accepts(rx: Regex, s: string)
    decreases rx, |s|
  {
    match rx
    case Lit(c) => s == [c]
    case NotSlash => |s| == 1 && s[0] != '/'
    case Cat(a, b) => exists k | 0 <= k <= |s| :: Accepts(a, s[..k]) && Accepts(b, s[k..])
    case Star(b) => s == "" || exists k | 0 < k <= |s| :: Accepts(b, s[..k]) && Accepts(rx, s[k..])
  }

  /** The concatenation of the given pieces accepts the whole of `s`. */
  predicate FullMatch(rx: seq<Regex>, s: string) {
    if rx == [] then s == ""
    else exists k | 0 <= k <= |s| :: Accepts(rx[0], s[..k]) && FullMatch(rx[1..], s[k..])
  }

  // ---------------------------------------------------------------- the translation

  predicate SlashFree(s: string) {
    forall i | 0 <= i < |s| :: s[i] != '/'
  }

  /** `s.split("/")`. */
  function Split(s: string): (parts: seq<string>)
    ensures parts != []
    ensures forall i | 0 <= i < |parts| :: SlashFree(parts[i])
    ensures Join(parts) == s
    decreases |s|
  {
    var k := Cut(s);
    if k == |s| then [s]
    else
      assert s == s[..k] + "/" + s[k + 1..];
      [s[..k]] + Split(s[k + 1..])
  }

  function Join(parts: seq<string>): string
    requires parts != []
  {
    if |parts| == 1 then parts[0] else parts[0] + "/" + Join(parts[1..])
  }

  const SEGMENT_RUN := Star(Cat(Cat(NotSlash, Star(NotSlash)), Lit('/')))

  function CharRegex(c: char): Regex {
    if c == '*' then Star(NotSlash) else if c == '?' then NotSlash else Lit(c)
  }

  function SegmentRegex(part: string): seq<Regex> {
    if part == "" then [] else [CharRegex(part[0])] + SegmentRegex(part[1..])
  }

  function PartRegex(part: string): seq<Regex> {
    if part == "**" then [SEGMENT_RUN] else SegmentRegex(part) + [Lit('/')]
  }

  function PartsRegex(parts: seq<string>): seq<Regex> {
    if parts == [] then [] else PartRegex(parts[0]) + PartsRegex(parts[1..])
  }

  function StripSlash(rx: seq<Regex>): seq<Regex> {
    if rx != [] && rx[|rx| - 1] == Lit('/') then rx[..|rx| - 1] else rx
  }

  predicate PathMatches(path: string, pattern: string) {
    FullMatch(StripSlash(PartsRegex(Split(pattern))), path)
  }

  lemma PartsRegexStep(rx: seq<Regex>, parts: seq<string>, n: nat)
    requires n < |parts|
    ensures rx + PartsRegex(parts[n..]) == rx + PartRegex(parts[n]) + PartsRegex(parts[n + 1..])
  {
    var rest := parts[n..];
    assert rest[0] == parts[n] && rest[1..] == parts[n + 1..];
    Reassociate(rx, PartRegex(parts[n]), PartsRegex(parts[n + 1..]));
  }

  /** The translation loop. */
  method Translate(parts: seq<string>) returns (rx: seq<Regex>)
    ensures rx == PartsRegex(parts)
  {
    rx := [];
    for n := 0 to |parts|
      invariant rx + PartsRegex(parts[n..]) == PartsRegex(parts)
    {
      PartsRegexStep(rx, parts, n);
      if parts[n] == "**" {
        rx := rx + [SEGMENT_RUN];
        continue;
      }
      rx := rx + (SegmentRegex(parts[n]) + [Lit('/')]);
    }
  }

  /** `_fnmatch_path`: the translation followed by one full match. */
  method FnmatchPath(path: string, pattern: string) returns (matched: bool)
    ensures matched == PathMatches(path, pattern)
  {
    var rx := Translate(Split(pattern));
    matched := FullMatch(StripSlash(rx), path);
  }

  // ---------------------------------------------------------------- the segment-list matcher

  /** One segment: `*` is any run of characters, `?` one character. */
  predicate SegmentMatches(part: string, seg: string)
    decreases |part| + |seg|
  {
    if part == "" then seg == ""
    else if part[0] == '*' then SegmentMatches(part[1..], seg) || (seg != "" && SegmentMatches(part, seg[1..]))
    else seg != "" && (part[0] == '?' || part[0] == seg[0]) && SegmentMatches(part[1..], seg[1..])
  }

  /** A list of segments: `**` absorbs any number of non-empty ones. */
  predicate SegmentsMatch(parts: seq<string>, segs: seq<string>)
    decreases |parts| + |segs|
  {
    if parts == [] then segs == []
    else if parts[0] == "**" then
      SegmentsMatch(parts[1..], segs) || (segs != [] && segs[0] != "" && SegmentsMatch(parts, segs[1..]))
    else segs != [] && SegmentMatches(parts[0], segs[0]) && SegmentsMatch(parts[1..], segs[1..])
  }

  // ---------------------------------------------------------------- regular-expression lemmas

  lemma FullMatchCons(r: Regex, rest: seq<Regex>, u: string, v: string)
    requires Accepts(r, u) && FullMatch(rest, v)
    ensures FullMatch([r] + rest, u + v)
  {
    Halves(u, v);
    Halves([r], rest);
  }

  lemma FullMatchUncons(r: Regex, rest: seq<Regex>, s: string) returns (u: string, v: string)
    requires FullMatch([r] + rest, s)
    ensures s == u + v && Accepts(r, u) && FullMatch(rest, v)
  {
    Halves([r], rest);
    var k :| 0 <= k <= |s| && Accepts(r, s[..k]) && FullMatch(rest, s[k..]);
    SplitAt(s, k);
    u, v := s[..k], s[k..];
  }

  lemma {:induction false} FullMatchAppend(a: seq<Regex>, b: seq<Regex>, u: string, v: string)
    requires FullMatch(a, u) && FullMatch(b, v)
    ensures FullMatch(a + b, u + v)
    decreases |a|
  {
    if a == [] {
      assert a + b == b && u + v == v;
    } else {
      assert a == [a[0]] + a[1..];
      var x, y := FullMatchUncons(a[0], a[1..], u);
      FullMatchAppend(a[1..], b, y, v);
      FullMatchCons(a[0], a[1..] + b, x, y + v);
      HeadTail(a, b);
      Reassociate(x, y, v);
    }
  }

  lemma {:induction false} FullMatchSplit(a: seq<Regex>, b: seq<Regex>, s: string) returns (u: string, v: string)
    requires FullMatch(a + b, s)
    ensures s == u + v && FullMatch(a, u) && FullMatch(b, v)
    decreases |a|
  {
    if a == [] {
      assert a + b == b;
      u, v := "", s;
    } else {
      HeadTail(a, b);
      var x, rest := FullMatchUncons(a[0], a[1..] + b, s);
      var y, z := FullMatchSplit(a[1..], b, rest);
      FullMatchCons(a[0], a[1..], x, y);
      assert a == [a[0]] + a[1..];
      Reassociate(x, y, z);
      u, v := x + y, z;
    }
  }

  lemma StarCons(body: Regex, x: string, y: string)
    requires x != "" && Accepts(body, x) && Accepts(Star(body), y)
    ensures Accepts(Star(body), x + y)
  {
    Halves(x, y);
  }

  lemma StarUncons(body: Regex, s: string) returns (x: string, y: string)
    requires s != "" && Accepts(Star(body), s)
    ensures s == x + y && x != "" && Accepts(body, x) && Accepts(Star(body), y)
  {
    var k :| 0 < k <= |s| && Accepts(body, s[..k]) && Accepts(Star(body), s[k..]);
    SplitAt(s, k);
    x, y := s[..k], s[k..];
  }

  /** A leading repetition takes nothing, or one round and then repeats. */
  lemma StarFront(body: Regex, rest: seq<Regex>, s: string) returns (x: string, y: string)
    requires FullMatch([Star(body)] + rest, s) && !FullMatch(rest, s)
    ensures s == x + y && x != "" && Accepts(body, x) && FullMatch([Star(body)] + rest, y)
  {
    var u, v := FullMatchUncons(Star(body), rest, s);
    assert u != "" by { assert u == "" ==> s == v; }
    var w;
    x, w := StarUncons(body, u);
    FullMatchCons(Star(body), rest, w, v);
    y := w + v;
    Reassociate(x, w, v);
  }

  lemma StarGrow(body: Regex, rest: seq<Regex>, x: string, y: string)
    requires x != "" && Accepts(body, x) && FullMatch([Star(body)] + rest, y)
    ensures FullMatch([Star(body)] + rest, x + y)
  {
    var u, v := FullMatchUncons(Star(body), rest, y);
    StarCons(body, x, u);
    FullMatchCons(Star(body), rest, x + u, v);
    Reassociate(x, u, v);
  }

  lemma StarSkip(body: Regex, rest: seq<Regex>, s: string)
    requires FullMatch(rest, s)
    ensures FullMatch([Star(body)] + rest, s)
  {
    FullMatchCons(Star(body), rest, "", s);
    assert "" + s == s;
  }

  /** Unfolding a leading `[^/]*`. */
  lemma StarUnfold(rest: seq<Regex>, s: string)
    ensures FullMatch([Star(NotSlash)] + rest, s) <==>
            FullMatch(rest, s) || (s != "" && s[0] != '/' && FullMatch([Star(NotSlash)] + rest, s[1..]))
  {
    if FullMatch(rest, s) {
      StarSkip(NotSlash, rest, s);
    }
    if FullMatch([Star(NotSlash)] + rest, s) && !FullMatch(rest, s) {
      var x, y := StarFront(NotSlash, rest, s);
      assert s[0] == x[0] && s[1..] == y;
    }
    if s != "" && s[0] != '/' && FullMatch([Star(NotSlash)] + rest, s[1..]) {
      SplitAt(s, 1);
      StarGrow(NotSlash, rest, s[..1], s[1..]);
    }
  }

  lemma OneChar(r: Regex, rest: seq<Regex>, s: string)
    requires r.Lit? || r.NotSlash?
    ensures FullMatch([r] + rest, s) <==> s != "" && Accepts(r, s[..1]) && FullMatch(rest, s[1..])
  {
    if FullMatch([r] + rest, s) {
      var u, v := FullMatchUncons(r, rest, s);
      assert s[..1] == u && s[1..] == v;
    }
    if s != "" && Accepts(r, s[..1]) && FullMatch(rest, s[1..]) {
      SplitAt(s, 1);
      FullMatchCons(r, rest, s[..1], s[1..]);
    }
  }

  /** The regular expression of a slash-free part accepts exactly the segments the part matches. */
  lemma {:induction false} SegmentCorrect(part: string, s: string)
    requires SlashFree(part)
    ensures FullMatch(SegmentRegex(part), s) <==> SlashFree(s) && SegmentMatches(part, s)
    decreases |part| + |s|
  {
    if part != "" {
      var r, rest := CharRegex(part[0]), SegmentRegex(part[1..]);
      SegmentCorrect(part[1..], s);
      if s != "" {
        assert SlashFree(s) <==> s[0] != '/' && SlashFree(s[1..]);
        SegmentCorrect(part[1..], s[1..]);
      }
      if part[0] == '*' {
        StarUnfold(rest, s);
        if s != "" {
          SegmentCorrect(part, s[1..]);
        }
      } else {
        OneChar(r, rest, s);
      }
    }
  }

  // ---------------------------------------------------------------- segments of a terminated text

  /** Empty, or ending in a slash. */
  predicate Terminated(t: string) {
    t == "" || t[|t| - 1] == '/'
  }

  /** The slash-terminated pieces of a text. */
  function Segments(t: string): seq<string>
    decreases |t|
  {
    if t == "" then [] else if Cut(t) == |t| then [t] else [t[..Cut(t)]] + Segments(t[Cut(t) + 1..])
  }

  lemma {:induction false} SplitIsSegments(path: string)
    ensures Split(path) == Segments(path + "/")
    decreases |path|
  {
    var t, k := path + "/", Cut(path);
    CutUnique(t, k);
    assert t[..k] == path[..k];
    if k < |path| {
      assert t[k + 1..] == path[k + 1..] + "/";
      SplitIsSegments(path[k + 1..]);
    }
  }

  lemma CutUnique(t: string, k: nat)
    requires k < |t| && t[k] == '/' && SlashFree(t[..k])
    ensures Cut(t) == k
  {
    assert forall i | 0 <= i < k :: t[..k][i] == t[i];
  }

  /** A non-empty segment and its slash. */
  predicate IsUnit(u: string) {
    |u| >= 2 && u[|u| - 1] == '/' && SlashFree(u[..|u| - 1])
  }

  lemma CutAfterUnit(x: string, y: string)
    requires IsUnit(x)
    ensures Cut(x + y) == |x| - 1 && (x + y)[|x|..] == y
  {
    var t := x + y;
    assert t[..|x| - 1] == x[..|x| - 1];
    CutUnique(t, |x| - 1);
  }

  lemma CutIsUnit(t: string)
    requires 0 < Cut(t) < |t|
    ensures IsUnit(t[..Cut(t) + 1]) && t == t[..Cut(t) + 1] + t[Cut(t) + 1..]
  {
    var k := Cut(t);
    assert forall i | 0 <= i < k :: t[..k + 1][..k][i] == t[i];
    SplitAt(t, k + 1);
  }

  /** Unfolding a leading repetition of units. */
  lemma RunUnfold(unit: Regex, rest: seq<Regex>, t: string)
    requires forall x :: Accepts(unit, x) <==> IsUnit(x)
    ensures FullMatch([Star(unit)] + rest, t) <==>
            FullMatch(rest, t) || (0 < Cut(t) < |t| && FullMatch([Star(unit)] + rest, t[Cut(t) + 1..]))
  {
    if FullMatch(rest, t) {
      StarSkip(unit, rest, t);
    }
    if FullMatch([Star(unit)] + rest, t) && !FullMatch(rest, t) {
      var x, y := StarFront(unit, rest, t);
      CutAfterUnit(x, y);
    }
    if 0 < Cut(t) < |t| && FullMatch([Star(unit)] + rest, t[Cut(t) + 1..]) {
      CutIsUnit(t);
      StarGrow(unit, rest, t[..Cut(t) + 1], t[Cut(t) + 1..]);
    }
  }

  lemma UnitsAreSegments()
    ensures forall x :: Accepts(SEGMENT_RUN.body, x) <==> IsUnit(x)
  {
    forall x
      ensures Accepts(SEGMENT_RUN.body, x) <==> IsUnit(x)
    {
      if Accepts(SEGMENT_RUN.body, x) {
        UnitIsSegment(x);
      }
      if IsUnit(x) {
        SegmentIsUnit(x);
      }
    }
  }

  lemma {:induction false} StarNotSlash(s: string)
    ensures Accepts(Star(NotSlash), s) <==> SlashFree(s)
  {
    if s != "" {
      StarNotSlash(s[1..]);
      assert SlashFree(s) <==> s[0] != '/' && SlashFree(s[1..]);
      if Accepts(Star(NotSlash), s) {
        var x, y := StarUncons(NotSlash, s);
        assert s[0] == x[0] && s[1..] == y;
      }
      if SlashFree(s) {
        SplitAt(s, 1);
        StarCons(NotSlash, s[..1], s[1..]);
      }
    }
  }

  lemma CatUncons(a: Regex, b: Regex, s: string) returns (x: string, y: string)
    requires Accepts(Cat(a, b), s)
    ensures s == x + y && Accepts(a, x) && Accepts(b, y)
  {
    var k :| 0 <= k <= |s| && Accepts(a, s[..k]) && Accepts(b, s[k..]);
    SplitAt(s, k);
    x, y := s[..k], s[k..];
  }

  lemma CatCons(a: Regex, b: Regex, x: string, y: string)
    requires Accepts(a, x) && Accepts(b, y)
    ensures Accepts(Cat(a, b), x + y)
  {
    Halves(x, y);
  }

  lemma UnitIsSegment(u: string)
    requires Accepts(Cat(Cat(NotSlash, Star(NotSlash)), Lit('/')), u)
    ensures IsUnit(u)
  {
    var w, z := CatUncons(Cat(NotSlash, Star(NotSlash)), Lit('/'), u);
    var x, y := CatUncons(NotSlash, Star(NotSlash), w);
    StarNotSlash(y);
    assert u[..|u| - 1] == w;
  }

  lemma SegmentIsUnit(u: string)
    requires IsUnit(u)
    ensures Accepts(Cat(Cat(NotSlash, Star(NotSlash)), Lit('/')), u)
  {
    var w := u[..|u| - 1];
    StarNotSlash(w[1..]);
    CatCons(NotSlash, Star(NotSlash), w[..1], w[1..]);
    assert w[..1] + w[1..] == w;
    CatCons(Cat(NotSlash, Star(NotSlash)), Lit('/'), w, "/");
    assert w + "/" == u;
  }

  // ---------------------------------------------------------------- the translation is correct

  lemma CutAfterSegment(u: string, w: string)
    requires SlashFree(u)
    ensures var t := u + ("/" + w); Cut(t) == |u| < |t| && t[..Cut(t)] == u && t[Cut(t) + 1..] == w
  {
    var t := u + ("/" + w);
    assert t[..|u|] == u;
    CutUnique(t, |u|);
  }

  lemma PlainPart(part: string, rest: seq<Regex>, t: string)
    requires SlashFree(part)
    ensures FullMatch(SegmentRegex(part) + ([Lit('/')] + rest), t) <==>
            Cut(t) < |t| && SegmentMatches(part, t[..Cut(t)]) && FullMatch(rest, t[Cut(t) + 1..])
  {
    var a, b := SegmentRegex(part), [Lit('/')] + rest;
    if FullMatch(a + b, t) {
      var u, w := PlainPartAccepted(part, rest, t);
      CutAfterSegment(u, w);
    }
    if Cut(t) < |t| && SegmentMatches(part, t[..Cut(t)]) && FullMatch(rest, t[Cut(t) + 1..]) {
      CutSplits(t);
      PlainPartAccepts(part, rest, t[..Cut(t)], t[Cut(t) + 1..]);
    }
  }

  lemma PlainPartAccepted(part: string, rest: seq<Regex>, t: string) returns (u: string, w: string)
    requires SlashFree(part) && FullMatch(SegmentRegex(part) + ([Lit('/')] + rest), t)
    ensures t == u + ("/" + w) && SlashFree(u) && SegmentMatches(part, u) && FullMatch(rest, w)
  {
    var v;
    u, v := FullMatchSplit(SegmentRegex(part), [Lit('/')] + rest, t);
    SegmentCorrect(part, u);
    var slash;
    slash, w := FullMatchUncons(Lit('/'), rest, v);
  }

  lemma CutSplits(t: string)
    requires Cut(t) < |t|
    ensures SlashFree(t[..Cut(t)]) && t == t[..Cut(t)] + ("/" + t[Cut(t) + 1..])
  {
    SplitAtSlash(t, Cut(t));
  }

  lemma SplitAtSlash(t: string, k: nat)
    requires k < |t| && t[k] == '/' && forall i | 0 <= i < k :: t[i] != '/'
    ensures SlashFree(t[..k]) && t == t[..k] + ("/" + t[k + 1..])
  {
  }

  lemma PlainPartAccepts(part: string, rest: seq<Regex>, u: string, v: string)
    requires SlashFree(part) && SlashFree(u) && SegmentMatches(part, u) && FullMatch(rest, v)
    ensures FullMatch(SegmentRegex(part) + ([Lit('/')] + rest), u + ("/" + v))
  {
    SegmentCorrect(part, u);
    FullMatchCons(Lit('/'), rest, "/", v);
    FullMatchAppend(SegmentRegex(part), [Lit('/')] + rest, u, "/" + v);
  }

  lemma RunRegex(parts: seq<string>, t: string)
    requires parts != [] && parts[0] == "**"
    ensures FullMatch(PartsRegex(parts), t) <==>
            FullMatch(PartsRegex(parts[1..]), t) || (0 < Cut(t) < |t| && FullMatch(PartsRegex(parts), t[Cut(t) + 1..]))
  {
    UnitsAreSegments();
    RunUnfold(SEGMENT_RUN.body, PartsRegex(parts[1..]), t);
  }

  lemma RunSegments(parts: seq<string>, t: string)
    requires parts != [] && parts[0] == "**"
    ensures (Terminated(t) && SegmentsMatch(parts, Segments(t))) <==>
            || (Terminated(t) && SegmentsMatch(parts[1..], Segments(t)))
            || (0 < Cut(t) < |t| && Terminated(t[Cut(t) + 1..]) && SegmentsMatch(parts, Segments(t[Cut(t) + 1..])))
  {
    SegmentsHead(t);
    if Cut(t) == |t| {
      assert Terminated(t) ==> Segments(t) == [];
    }
  }

  lemma PlainRegex(parts: seq<string>, t: string)
    requires parts != [] && parts[0] != "**" && SlashFree(parts[0])
    ensures FullMatch(PartsRegex(parts), t) <==>
            Cut(t) < |t| && SegmentMatches(parts[0], t[..Cut(t)]) && FullMatch(PartsRegex(parts[1..]), t[Cut(t) + 1..])
  {
    var rest := PartsRegex(parts[1..]);
    assert PartsRegex(parts) == SegmentRegex(parts[0]) + ([Lit('/')] + rest) by {
      Reassociate(SegmentRegex(parts[0]), [Lit('/')], rest);
    }
    PlainPart(parts[0], rest, t);
  }

  lemma PlainSegments(parts: seq<string>, t: string)
    requires parts != [] && parts[0] != "**"
    ensures (Terminated(t) && SegmentsMatch(parts, Segments(t))) <==>
            && Cut(t) < |t| && SegmentMatches(parts[0], t[..Cut(t)])
            && Terminated(t[Cut(t) + 1..]) && SegmentsMatch(parts[1..], Segments(t[Cut(t) + 1..]))
  {
    SegmentsHead(t);
    if Cut(t) == |t| {
      assert Terminated(t) ==> Segments(t) == [];
    }
  }

  /** Before the trailing slash is stripped, the expression accepts the terminated segment lists
      that the pattern matches. */
  lemma {:induction false} PartsCorrect(parts: seq<string>, t: string)
    requires forall i | 0 <= i < |parts| :: SlashFree(parts[i])
    ensures FullMatch(PartsRegex(parts), t) <==> Terminated(t) && SegmentsMatch(parts, Segments(t))
    decreases |parts| + |t|, 1
  {
    if parts != [] {
      if parts[0] == "**" {
        RunCorrect(parts, t);
      } else {
        PlainCorrect(parts, t);
      }
    }
  }

  lemma {:induction false} RunCorrect(parts: seq<string>, t: string)
    requires parts != [] && parts[0] == "**" && forall i | 0 <= i < |parts| :: SlashFree(parts[i])
    ensures FullMatch(PartsRegex(parts), t) <==> Terminated(t) && SegmentsMatch(parts, Segments(t))
    decreases |parts| + |t|, 0
  {
    RunRegex(parts, t);
    RunSegments(parts, t);
    PartsCorrect(parts[1..], t);
    if 0 < Cut(t) < |t| {
      PartsCorrect(parts, t[Cut(t) + 1..]);
    }
  }

  lemma {:induction false} PlainCorrect(parts: seq<string>, t: string)
    requires parts != [] && parts[0] != "**" && forall i | 0 <= i < |parts| :: SlashFree(parts[i])
    ensures FullMatch(PartsRegex(parts), t) <==> Terminated(t) && SegmentsMatch(parts, Segments(t))
    decreases |parts| + |t|, 0
  {
    PlainRegex(parts, t);
    PlainSegments(parts, t);
    if Cut(t) < |t| {
      PartsCorrect(parts[1..], t[Cut(t) + 1..]);
    }
  }

  lemma SegmentsHead(t: string)
    ensures Cut(t) < |t| ==> var rest := t[Cut(t) + 1..];
                             (Terminated(t) <==> Terminated(rest)) && Segments(t) == [t[..Cut(t)]] + Segments(rest)
                             && Segments(t)[0] == t[..Cut(t)] && Segments(t)[1..] == Segments(rest)
    ensures Cut(t) == |t| ==> (Terminated(t) <==> t == "")
  {
  }

  lemma {:induction false} PartsRegexEnd(parts: seq<string>)
    requires parts != []
    ensures PartsRegex(parts) != []
    ensures PartsRegex(parts)[|PartsRegex(parts)| - 1] == if parts[|parts| - 1] == "**" then SEGMENT_RUN else Lit('/')
  {
    if |parts| > 1 {
      PartsRegexEnd(parts[1..]);
    }
  }

  lemma StripIsAppend(rx: seq<Regex>, s: string)
    ensures FullMatch(rx, s) <==> FullMatch(rx + [Lit('/')], s + "/")
  {
    OneChar(Lit('/'), [], "/");
    assert [Lit('/')] + [] == [Lit('/')];
    if FullMatch(rx, s) {
      FullMatchAppend(rx, [Lit('/')], s, "/");
    }
    if FullMatch(rx + [Lit('/')], s + "/") {
      var u, v := FullMatchSplit(rx, [Lit('/')], s + "/");
      OneChar(Lit('/'), [], v);
      assert v == v[..1] + v[1..];
      assert |u| == |s| && u == (s + "/")[..|s|];
    }
  }

  /** A pattern whose last segment is not `**` accepts a path exactly when the path, split on
      slashes, matches the pattern segment by segment. */
  lemma PathMatchesSegments(path: string, pattern: string)
    requires Split(pattern)[|Split(pattern)| - 1] != "**"
    ensures PathMatches(path, pattern) <==> SegmentsMatch(Split(pattern), Split(path))
  {
    var parts := Split(pattern);
    StripCorrect(parts, path);
    PartsCorrect(parts, path + "/");
    SplitIsSegments(path);
  }

  lemma StripCorrect(parts: seq<string>, path: string)
    requires parts != [] && parts[|parts| - 1] != "**"
    ensures FullMatch(StripSlash(PartsRegex(parts)), path) <==> FullMatch(PartsRegex(parts), path + "/")
  {
    PartsRegexEnd(parts);
    StripLast(PartsRegex(parts), path);
  }

  lemma StripLast(rx: seq<Regex>, path: string)
    requires rx != [] && rx[|rx| - 1] == Lit('/')
    ensures FullMatch(StripSlash(rx), path) <==> FullMatch(rx, path + "/")
  {
    assert StripSlash(rx) + [Lit('/')] == rx;
    StripIsAppend(StripSlash(rx), path);
  }

  /** A pattern that ends in `**` accepts only the empty path and paths that end in a slash: the
      stripped slash is the one after a plain segment, and there is none. */
  lemma TrailingDoubleStar(path: string, pattern: string)
    requires Split(pattern)[|Split(pattern)| - 1] == "**"
    ensures PathMatches(path, pattern) <==> Terminated(path) && SegmentsMatch(Split(pattern), Segments(path))
  {
    PartsRegexEnd(Split(pattern));
    PartsCorrect(Split(pattern), path);
  }

  lemma {:induction false} MatchesItself(u: string)
    ensures SegmentMatches(u, u)
  {
    if u != "" {
      MatchesItself(u[1..]);
      if u[0] == '*' {
        assert SegmentMatches(u, u[1..]);
      }
    }
  }

  lemma SplitOnce(u: string, w: string)
    requires SlashFree(u) && SlashFree(w)
    ensures Split(u + ("/" + w)) == [u, w]
  {
    CutAfterSegment(u, w);
    assert Cut(w) == |w|;
    assert Split(w) == [w];
  }

  /** So a file below a directory is rejected by the directory's `**`, although its segments match. */
  lemma FileBelowIsRejected(dir: string, file: string)
    requires SlashFree(dir) && dir != "**" && SlashFree(file) && file != ""
    ensures var pattern, path := dir + ("/" + "**"), dir + ("/" + file);
            SegmentsMatch(Split(pattern), Split(path)) && !PathMatches(path, pattern)
  {
    var pattern, path := dir + ("/" + "**"), dir + ("/" + file);
    SplitOnce(dir, "**");
    SplitOnce(dir, file);
    MatchesItself(dir);
    DoubleStarAbsorbs(file);
    assert [dir, "**"][1..] == ["**"] && [dir, file][1..] == [file];
    TrailingDoubleStar(path, pattern);
    assert path[|path| - 1] == file[|file| - 1];
  }

  lemma DoubleStarAbsorbs(file: string)
    requires file != ""
    ensures SegmentsMatch(["**"], [file])
  {
    assert ["**"][1..] == [] && [file][1..] == [];
    assert SegmentsMatch([], []);
    assert SegmentsMatch(["**"], []);
  }

  lemma TestFilesRejected(path: string, pattern: string)
    requires path == "test-files/a.ts" && pattern == "test-files/**"
    ensures SegmentsMatch(Split(pattern), Split(path)) && !PathMatches(path, pattern)
  {
    var dir, file := "test-files", "a.ts";
    assert path == dir + ("/" + file) && pattern == dir + ("/" + "**");
    FileBelowIsRejected(dir, file);
  }

  lemma {:induction false} PlainSegmentsLength(parts: seq<string>, segs: seq<string>)
    requires "**" !in parts && SegmentsMatch(parts, segs)
    ensures |parts| == |segs|
  {
    if parts != [] {
      PlainSegmentsLength(parts[1..], segs[1..]);
    }
  }

  /** `*` never crosses a slash: without `**` a path has as many segments as the pattern. */
  lemma StarStaysInSegment(path: string, pattern: string)
    requires "**" !in Split(pattern) && PathMatches(path, pattern)
    ensures |Split(path)| == |Split(pattern)|
  {
    var parts := Split(pattern);
    assert parts[|parts| - 1] in parts;
    PathMatchesSegments(path, pattern);
    PlainSegmentsLength(parts, Split(path));
  }
}

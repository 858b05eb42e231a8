/** `scripts/addr_class_inventory.py`: the reflected brace counter and the two guard searches. */
module AddrClass {
  // ---------------------------------------------------------------- brace depth

  function Delta(c: char): int {
    if c == '{' then 1 else if c == '}' then -1 else 0
  }

  /** One character, floored at zero. */
  function StepDepth(depth: nat, c: char): nat {
    if c == '{' then depth + 1 else if c == '}' && depth > 0 then depth - 1 else depth
  }

  function Depth(depth: nat, code: string): nat {
    if code == "" then depth else StepDepth(Depth(depth, code[..|code| - 1]), code[|code| - 1])
  }

  /** Opening minus closing braces. */
  function Net(code: string): int {
    if code == "" then 0 else Net(code[..|code| - 1]) + Delta(code[|code| - 1])
  }

  /** `apply_brace_deltas`. */
  method ApplyBraceDeltas(start: nat, code: string) returns (depth: nat)
    ensures depth == Depth(start, code)
  {
    depth := start;
    for n := 0 to |code|
      invariant depth == Depth(start, code[..n])
    {
      assert code[..n + 1][..n] == code[..n];
      if code[n] == '{' {
        depth := depth + 1;
      } else if code[n] == '}' {
        depth := if depth - 1 > 0 then depth - 1 else 0;
      }
    }
    assert code[..|code|] == code;
  }

  /** `d` is the largest of the whole text's net on top of `depth` and the net of any suffix. */
  ghost predicate IsReflected(depth: nat, code: string, d: int) {
    && d >= depth + Net(code)
    && (forall k | 0 <= k <= |code| :: d >= Net(code[k..]))
    && (d == depth + Net(code) || exists k :: 0 <= k <= |code| && d == Net(code[k..]))
  }

  /** The floored counter is a reflected walk: it equals the larger of `depth + net` and the largest
      net of any suffix. */
  lemma {:induction false} DepthIsReflected(depth: nat, code: string)
    ensures IsReflected(depth, code, Depth(depth, code))
  {
    var d := Depth(depth, code);
    if code == "" {
      assert code[0..] == "";
    } else {
      var n := |code| - 1;
      var front, c := code[..n], code[n];
      DepthIsReflected(depth, front);
      assert code[n + 1..] == "";
      forall k | 0 <= k <= n
        ensures Net(code[k..]) == Net(front[k..]) + Delta(c)
      {
        assert code[k..] == front[k..] + [c];
      }
      if Depth(depth, front) == depth + Net(front) {
        assert d == depth + Net(code) || d == Net(code[n + 1..]);
      } else {
        var k :| 0 <= k <= n && Depth(depth, front) == Net(front[k..]);
        assert d == Net(code[k..]) || d == Net(code[n + 1..]);
      }
    }
  }

  /** Counting composes over concatenation, so it may be done line by line. */
  lemma {:induction false} DepthComposes(depth: nat, a: string, b: string)
    ensures Depth(depth, a + b) == Depth(Depth(depth, a), b)
  {
    if b == "" {
      assert a + b == a;
    } else {
      var n := |b| - 1;
      assert (a + b)[..|a + b| - 1] == a + b[..n];
      DepthComposes(depth, a, b[..n]);
    }
  }

  // ---------------------------------------------------------------- the two guard searches

  const LOOKBACK: nat := 5
  const LOOKAHEAD: nat := 6

  /** What the script's regular expressions say of a line of code: it is blank, it names a band
      predicate, it opens a conditional. */
  datatype Lexer = Lexer(blank: string -> bool, predicateIn: string -> bool, conditional: string -> bool)

  /** The line up to its first `//`. */
  function StripComment(line: string): string {
    if |line| >= 2 && line[0] == '/' && line[1] == '/' then ""
    else if line == "" then ""
    else [line[0]] + StripComment(line[1..])
  }

  function StripAll(lines: seq<string>): seq<string> {
    if lines == [] then [] else StripAll(lines[..|lines| - 1]) + [StripComment(lines[|lines| - 1])]
  }

  /** The line itself and a few raw lines above it. */
  function Behind(lines: seq<string>, idx: nat): seq<string>
    requires idx < |lines|
  {
    StripAll(lines[(if idx < LOOKBACK then 0 else idx - LOOKBACK)..idx + 1])
  }

  /** The code lines below, as far as the generic search looks. */
  function Ahead(lx: Lexer, lines: seq<string>, cursor: nat, taken: nat): seq<string>
    decreases |lines| - cursor
  {
    if cursor >= |lines| || taken >= LOOKAHEAD then []
    else
      var code := StripComment(lines[cursor]);
      if lx.blank(code) then Ahead(lx, lines, cursor + 1, taken) else [code] + Ahead(lx, lines, cursor + 1, taken + 1)
  }

  /** The code lines below, up to the first conditional met at depth zero. */
  function LoneAhead(lx: Lexer, lines: seq<string>, cursor: nat, taken: nat, depth: nat): seq<string>
    decreases |lines| - cursor
  {
    if cursor >= |lines| || taken >= LOOKAHEAD then []
    else
      var code := StripComment(lines[cursor]);
      if lx.blank(code) then LoneAhead(lx, lines, cursor + 1, taken, depth)
      else if depth == 0 && lx.conditional(code) then []
      else [code] + LoneAhead(lx, lines, cursor + 1, taken + 1, Depth(depth, code))
  }

  predicate Mentions(lx: Lexer, context: seq<string>) {
    exists i | 0 <= i < |context| :: lx.predicateIn(context[i])
  }

  predicate BandNear(lx: Lexer, lines: seq<string>, idx: nat)
    requires idx < |lines|
  {
    Mentions(lx, Behind(lines, idx) + Ahead(lx, lines, idx + 1, 0))
  }

  predicate LoneBandNear(lx: Lexer, lines: seq<string>, idx: nat)
    requires idx < |lines|
  {
    Mentions(lx, Behind(lines, idx) + LoneAhead(lx, lines, idx + 1, 0, Depth(0, StripComment(lines[idx]))))
  }

  /** `band_predicate_near`. */
  method BandPredicateNear(lx: Lexer, lines: seq<string>, idx: nat) returns (near: bool)
    requires idx < |lines|
    ensures near == BandNear(lx, lines, idx)
  {
    var context := Behind(lines, idx);
    var taken, cursor := 0, idx + 1;
    while cursor < |lines| && taken < LOOKAHEAD
      invariant context + Ahead(lx, lines, cursor, taken) == Behind(lines, idx) + Ahead(lx, lines, idx + 1, 0)
      decreases |lines| - cursor
    {
      var code := StripComment(lines[cursor]);
      if !lx.blank(code) {
        assert context + ([code] + Ahead(lx, lines, cursor + 1, taken + 1)) == context + [code] + Ahead(lx, lines, cursor + 1, taken + 1);
        context := context + [code];
        taken := taken + 1;
      }
      cursor := cursor + 1;
    }
    assert context + [] == context;
    near := Mentions(lx, context);
  }

  /** `lone_band_predicate_near`. */
  method LoneBandPredicateNear(lx: Lexer, lines: seq<string>, idx: nat) returns (near: bool)
    requires idx < |lines|
    ensures near == LoneBandNear(lx, lines, idx)
  {
    var context := Behind(lines, idx);
    var depth := ApplyBraceDeltas(0, StripComment(lines[idx]));
    ghost var goal := context + LoneAhead(lx, lines, idx + 1, 0, depth);
    var taken, cursor := 0, idx + 1;
    var stopped := false;
    while !stopped && cursor < |lines| && taken < LOOKAHEAD
      invariant goal == context + if stopped then [] else LoneAhead(lx, lines, cursor, taken, depth)
      decreases |lines| - cursor, !stopped
    {
      var code := StripComment(lines[cursor]);
      if !lx.blank(code) && depth == 0 && lx.conditional(code) {
        stopped := true;
      } else {
        if !lx.blank(code) {
          ghost var rest := LoneAhead(lx, lines, cursor + 1, taken + 1, Depth(depth, code));
          assert context + ([code] + rest) == context + [code] + rest;
          context := context + [code];
          taken := taken + 1;
          depth := ApplyBraceDeltas(depth, code);
        }
        cursor := cursor + 1;
      }
    }
    assert context + [] == context;
    near := Mentions(lx, context);
  }

  // ---------------------------------------------------------------- how they relate

  /** The scoped search meets a sibling conditional before it has seen all the generic one sees. */
  predicate MeetsSibling(lx: Lexer, lines: seq<string>, cursor: nat, taken: nat, depth: nat)
    decreases |lines| - cursor
  {
    cursor < |lines| && taken < LOOKAHEAD &&
    var code := StripComment(lines[cursor]);
    if lx.blank(code) then MeetsSibling(lx, lines, cursor + 1, taken, depth)
    else (depth == 0 && lx.conditional(code)) || MeetsSibling(lx, lines, cursor + 1, taken + 1, Depth(depth, code))
  }

  /** The scoped context is a prefix of the generic one, and a proper one exactly if it met a sibling. */
  lemma {:induction false} LoneAheadIsPrefix(lx: Lexer, lines: seq<string>, cursor: nat, taken: nat, depth: nat)
    ensures LoneAhead(lx, lines, cursor, taken, depth) <= Ahead(lx, lines, cursor, taken)
    ensures LoneAhead(lx, lines, cursor, taken, depth) == Ahead(lx, lines, cursor, taken) <==> !MeetsSibling(lx, lines, cursor, taken, depth)
    decreases |lines| - cursor
  {
    if cursor < |lines| && taken < LOOKAHEAD {
      var code := StripComment(lines[cursor]);
      if lx.blank(code) {
        LoneAheadIsPrefix(lx, lines, cursor + 1, taken, depth);
      } else if !(depth == 0 && lx.conditional(code)) {
        LoneAheadIsPrefix(lx, lines, cursor + 1, taken + 1, Depth(depth, code));
        var a, b := LoneAhead(lx, lines, cursor + 1, taken + 1, Depth(depth, code)), Ahead(lx, lines, cursor + 1, taken + 1);
        assert ([code] + a)[1..] == a && ([code] + b)[1..] == b;
      }
    }
  }

  /** What the scoped search clears, the generic one clears; they can differ only past a sibling. */
  lemma LoneClearsLess(lx: Lexer, lines: seq<string>, idx: nat)
    requires idx < |lines|
    ensures LoneBandNear(lx, lines, idx) ==> BandNear(lx, lines, idx)
    ensures !MeetsSibling(lx, lines, idx + 1, 0, Depth(0, StripComment(lines[idx]))) ==>
              (LoneBandNear(lx, lines, idx) <==> BandNear(lx, lines, idx))
  {
    var depth := Depth(0, StripComment(lines[idx]));
    LoneAheadIsPrefix(lx, lines, idx + 1, 0, depth);
    var lone := Behind(lines, idx) + LoneAhead(lx, lines, idx + 1, 0, depth);
    var all := Behind(lines, idx) + Ahead(lx, lines, idx + 1, 0);
    assert forall i | 0 <= i < |lone| :: lone[i] == all[i];
  }
}

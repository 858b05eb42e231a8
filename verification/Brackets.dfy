/** `matching_delimiter` of `scripts/check_gc_scanner_latches.py`, and the spans and latches built on
    it.  The reference is a stack parser. */
module Brackets {
  import opened Options

  function Step(c: char, left: char, right: char): int {
    if c == left then 1 else if c == right then -1 else 0
  }

  /** Openers minus closers in `s[lo..hi]`. */
  function Net(s: string, lo: nat, hi: nat, left: char, right: char): int
    requires lo <= hi <= |s|
    decreases hi
  {
    if lo == hi then 0 else Net(s, lo, hi - 1, left, right) + Step(s[hi - 1], left, right)
  }

  lemma {:induction false} NetSplit(s: string, lo: nat, mid: nat, hi: nat, left: char, right: char)
    requires lo <= mid <= hi <= |s|
    ensures Net(s, lo, hi, left, right) == Net(s, lo, mid, left, right) + Net(s, mid, hi, left, right)
    decreases hi
  {
    if mid < hi {
      NetSplit(s, lo, mid, hi - 1, left, right);
    }
  }

  /** The closer at `i` brings the balance counted from `opening` back to zero. */
  predicate Closes(s: string, opening: nat, i: nat, left: char, right: char) {
    opening <= i < |s| && s[i] == right && left != right && Net(s, opening, i + 1, left, right) == 0
  }

  function MatchFrom(s: string, opening: nat, i: nat, left: char, right: char): (r: Option<nat>)
    requires opening <= i <= |s|
    ensures r.Some? ==> i <= r.value && Closes(s, opening, r.value, left, right) &&
                        forall k | i <= k < r.value :: !Closes(s, opening, k, left, right)
    ensures r.None? ==> forall k | i <= k :: !Closes(s, opening, k, left, right)
    decreases |s| - i
  {
    if i == |s| then None
    else if Closes(s, opening, i, left, right) then Some(i)
    else MatchFrom(s, opening, i + 1, left, right)
  }

  /** The least index that closes the opener, or nothing when there is none. */
  function Match(s: string, opening: nat, left: char, right: char): (r: Option<nat>)
    ensures r.Some? ==> Closes(s, opening, r.value, left, right) &&
                        forall k | opening <= k < r.value :: !Closes(s, opening, k, left, right)
    ensures r.None? ==> forall k | opening <= k :: !Closes(s, opening, k, left, right)
  {
    if opening <= |s| then MatchFrom(s, opening, opening, left, right) else None
  }

  /** `matching_delimiter`. */
  method MatchingDelimiter(src: string, opening: nat, left: char, right: char) returns (res: Option<nat>)
    ensures res.Some? ==> Closes(src, opening, res.value, left, right) &&
                          forall k | opening <= k < res.value :: !Closes(src, opening, k, left, right)
    ensures res.None? ==> forall k | opening <= k :: !Closes(src, opening, k, left, right)
    ensures res == Match(src, opening, left, right)
  {
    var depth := 0;
    var i := opening;
    while i < |src|
      invariant opening <= i
      invariant i <= |src| ==> depth == Net(src, opening, i, left, right)
      invariant forall k | opening <= k < i :: !Closes(src, opening, k, left, right)
    {
      if src[i] == left {
        depth := depth + 1;
      } else if src[i] == right {
        depth := depth - 1;
        if depth == 0 {
          return Some(i);
        }
      }
      i := i + 1;
    }
    return None;
  }

  // ---------------------------------------------------------------- the stack parser

  /** Positions of the brackets still open after `p` characters. */
  function OpenStack(s: string, p: nat, left: char, right: char): (st: seq<nat>)
    requires p <= |s|
    ensures forall j | 0 <= j < |st| :: st[j] < p && s[st[j]] == left
  {
    if p == 0 then []
    else
      var st := OpenStack(s, p - 1, left, right);
      if s[p - 1] == left then st + [p - 1]
      else if s[p - 1] == right && st != [] then st[..|st| - 1]
      else st
  }

  /** `o` opened a bracket that has stayed open up to `p`. */
  ghost predicate StaysOpen(s: string, o: nat, p: nat, left: char, right: char) {
    o < p <= |s| && s[o] == left && forall k | o < k <= p :: Net(s, o, k, left, right) >= 1
  }

  lemma {:induction false} StackIsOpen(s: string, p: nat, j: nat, left: char, right: char)
    requires p <= |s| && left != right && j < |OpenStack(s, p, left, right)|
    ensures var st := OpenStack(s, p, left, right);
            StaysOpen(s, st[j], p, left, right) && Net(s, st[j], p, left, right) == |st| - j
  {
    var st, before := OpenStack(s, p, left, right), OpenStack(s, p - 1, left, right);
    if j < |before| {
      StackIsOpen(s, p - 1, j, left, right);
      assert before[j] == st[j];
    } else {
      assert Net(s, p - 1, p, left, right) == Net(s, p - 1, p - 1, left, right) + 1;
    }
  }

  lemma {:induction false} OpenIsStacked(s: string, o: nat, p: nat, left: char, right: char)
    requires left != right && StaysOpen(s, o, p, left, right)
    ensures var st, base := OpenStack(s, p, left, right), OpenStack(s, o, left, right);
            |st| == |base| + Net(s, o, p, left, right) && st[..|base| + 1] == base + [o]
    decreases p
  {
    if p == o + 1 {
      assert Net(s, o, p, left, right) == Net(s, o, o, left, right) + 1;
    } else {
      assert StaysOpen(s, o, p - 1, left, right);
      OpenIsStacked(s, o, p - 1, left, right);
      assert Net(s, o, p, left, right) >= 1;
    }
  }

  /** Membership in the parser's stack is exactly "opened and not yet balanced". */
  lemma StackMembership(s: string, o: nat, p: nat, left: char, right: char)
    requires p <= |s| && left != right
    ensures o in OpenStack(s, p, left, right) <==> StaysOpen(s, o, p, left, right)
  {
    var st := OpenStack(s, p, left, right);
    if o in st {
      var j :| 0 <= j < |st| && st[j] == o;
      StackIsOpen(s, p, j, left, right);
    }
    if StaysOpen(s, o, p, left, right) {
      OpenIsStacked(s, o, p, left, right);
      assert st[..|OpenStack(s, o, left, right)| + 1][|OpenStack(s, o, left, right)|] == o;
    }
  }

  lemma {:induction false} OpenUntilClosed(s: string, o: nat, p: nat, left: char, right: char)
    requires left != right && o < p <= |s| && s[o] == left
    requires forall k | o <= k < p :: !Closes(s, o, k, left, right)
    ensures StaysOpen(s, o, p, left, right)
    decreases p
  {
    if p == o + 1 {
      assert Net(s, o, p, left, right) == Net(s, o, o, left, right) + 1;
    } else {
      OpenUntilClosed(s, o, p - 1, left, right);
      assert !Closes(s, o, p - 1, left, right);
    }
  }

  /** The counting matcher refines the parser: a closer pops exactly the opener it matches. */
  lemma MatchIsStackPop(s: string, o: nat, c: nat, left: char, right: char)
    requires left != right && o < |s| && s[o] == left && c < |s|
    ensures Match(s, o, left, right) == Some(c) <==>
            var st := OpenStack(s, c, left, right);
            s[c] == right && st != [] && st[|st| - 1] == o
  {
    var st := OpenStack(s, c, left, right);
    if Match(s, o, left, right) == Some(c) {
      assert o < c;
      OpenUntilClosed(s, o, c, left, right);
      OpenIsStacked(s, o, c, left, right);
      assert Net(s, o, c, left, right) == 1;
      var base := OpenStack(s, o, left, right);
      assert st[..|base| + 1][|base|] == o;
    }
    if s[c] == right && st != [] && st[|st| - 1] == o {
      StackIsOpen(s, c, |st| - 1, left, right);
      assert Closes(s, o, c, left, right);
      forall k | o <= k < c
        ensures !Closes(s, o, k, left, right)
      {
        assert Net(s, o, k + 1, left, right) >= 1;
      }
    }
  }

  lemma {:induction false} CrossesZero(s: string, o: nat, hi: nat, left: char, right: char) returns (k: nat)
    requires left != right && o < hi <= |s| && s[o] == left && Net(s, o, hi, left, right) <= 0
    ensures o <= k < hi && Closes(s, o, k, left, right)
    decreases hi
  {
    assert Net(s, o, o + 1, left, right) == Net(s, o, o, left, right) + 1;
    if exists j | o <= j < hi - 1 :: Closes(s, o, j, left, right) {
      k :| o <= k < hi - 1 && Closes(s, o, k, left, right);
    } else {
      OpenUntilClosed(s, o, hi - 1, left, right);
      k := hi - 1;
    }
  }

  /** Spans of two openers of one kind are nested or disjoint: an opener met inside a closed span
      closes, and closes strictly before it. */
  lemma SpansNest(s: string, o1: nat, o2: nat, left: char, right: char)
    requires left != right && o1 < o2 < |s| && s[o1] == left && s[o2] == left
    ensures var m1, m2 := Match(s, o1, left, right), Match(s, o2, left, right);
            m1.Some? ==> m1.value < o2 || (m2.Some? && o2 < m2.value < m1.value)
  {
    var m1 := Match(s, o1, left, right);
    if m1.Some? && o2 <= m1.value {
      var c := m1.value;
      OpenUntilClosed(s, o1, o2, left, right);
      NetSplit(s, o1, o2, c + 1, left, right);
      NetSplit(s, o2, c, c + 1, left, right);
      assert Net(s, c, c + 1, left, right) == Net(s, c, c, left, right) - 1;
      var k := CrossesZero(s, o2, c, left, right);
    }
  }

  // ---------------------------------------------------------------- brackets of all kinds

  predicate IsOpener(c: char) {
    c == '(' || c == '[' || c == '{'
  }

  function Closer(c: char): char
    requires IsOpener(c)
  {
    if c == '(' then ')' else if c == '[' then ']' else '}'
  }

  predicate IsCloser(c: char) {
    c == ')' || c == ']' || c == '}'
  }

  function Opener(c: char): (left: char)
    requires IsCloser(c)
    ensures IsOpener(left) && Closer(left) == c
  {
    if c == ')' then '(' else if c == ']' then '[' else '{'
  }

  /** Positions in increasing order, all of openers before `p`. */
  ghost predicate Stacked(s: string, st: seq<nat>, p: nat) {
    && (forall j | 0 <= j < |st| :: st[j] < p && st[j] < |s| && IsOpener(s[st[j]]))
    && (forall i, j | 0 <= i < j < |st| :: st[i] < st[j])
  }

  /** The stacked positions that hold `left`. */
  function OfKind(s: string, st: seq<nat>, left: char): seq<nat> {
    if st == [] then []
    else
      var top := st[|st| - 1];
      OfKind(s, st[..|st| - 1], left) + if top < |s| && s[top] == left then [top] else []
  }

  lemma {:induction false} OfKindHolds(s: string, st: seq<nat>, left: char, x: nat)
    ensures x in OfKind(s, st, left) <==> x in st && x < |s| && s[x] == left
  {
    if st != [] {
      var n := |st| - 1;
      OfKindHolds(s, st[..n], left, x);
      assert st == st[..n] + [st[n]];
    }
  }

  lemma OfKindPushed(s: string, st: seq<nat>, x: nat, left: char)
    requires x < |s|
    ensures OfKind(s, st + [x], left) == OfKind(s, st, left) + if s[x] == left then [x] else []
  {
    assert (st + [x])[..|st|] == st;
  }

  /** The closer at `p` has an opener of its kind on the stack, and another kind on top. */
  predicate Clashes(s: string, st: seq<nat>, p: nat)
    requires p < |s|
  {
    IsCloser(s[p]) && OfKind(s, st, Opener(s[p])) != [] && OfKind(s, st[|st| - 1..], Opener(s[p])) == []
  }

  /** One character: openers are pushed, a closer pops if an opener of its kind is on the stack. */
  function JointStep(s: string, st: seq<nat>, p: nat): seq<nat>
    requires p < |s|
  {
    if IsOpener(s[p]) then st + [p]
    else if IsCloser(s[p]) && OfKind(s, st, Opener(s[p])) != [] then st[..|st| - 1]
    else st
  }

  /** One stack for all kinds: nothing as soon as a closer meets an opener of another kind on top
      while one of its own kind is open.  As for one kind, a closer without any opener is passed over. */
  function JointStack(s: string, p: nat): Option<seq<nat>>
    requires p <= |s|
  {
    if p == 0 then Some([])
    else
      match JointStack(s, p - 1)
      case None => None
      case Some(st) => if Clashes(s, st, p - 1) then None else Some(JointStep(s, st, p - 1))
  }

  lemma {:induction false} JointStacked(s: string, p: nat)
    requires p <= |s| && JointStack(s, p).Some?
    ensures Stacked(s, JointStack(s, p).value, p)
  {
    if p > 0 {
      JointStacked(s, p - 1);
    }
  }

  lemma {:induction false} JointPrefix(s: string, p: nat, q: nat)
    requires p <= q <= |s| && JointStack(s, q).Some?
    ensures JointStack(s, p).Some?
    decreases q
  {
    if p < q {
      JointPrefix(s, p, q - 1);
    }
  }

  /** What one character does to the stack of one kind. */
  function OwnStep(s: string, st: seq<nat>, p: nat, left: char): seq<nat>
    requires p < |s| && IsOpener(left)
  {
    if s[p] == left then st + [p] else if s[p] == Closer(left) && st != [] then st[..|st| - 1] else st
  }

  lemma TopOfKind(s: string, st: seq<nat>, left: char)
    requires st != []
    ensures var top := st[|st| - 1];
            && OfKind(s, [top], left) == (if top < |s| && s[top] == left then [top] else [])
            && OfKind(s, st, left) == OfKind(s, st[..|st| - 1], left) + OfKind(s, [top], left)
            && st[|st| - 1..] == [top]
  {
    var top := st[|st| - 1];
    assert [top][..0] == [];
    assert OfKind(s, [top][..0], left) == [];
  }

  lemma StepOfKind(s: string, st: seq<nat>, p: nat, left: char)
    requires p < |s| && IsOpener(left) && Stacked(s, st, p) && !Clashes(s, st, p)
    ensures OfKind(s, JointStep(s, st, p), left) == OwnStep(s, OfKind(s, st, left), p, left)
  {
    if IsOpener(s[p]) {
      OfKindPushed(s, st, p, left);
    } else if IsCloser(s[p]) && OfKind(s, st, Opener(s[p])) != [] {
      TopOfKind(s, st, left);
      TopOfKind(s, st, Opener(s[p]));
    }
  }

  /** While the joint parser goes on, the part of its stack that is of one kind is that kind's own stack. */
  lemma {:induction false} JointIsEachKind(s: string, p: nat, left: char)
    requires p <= |s| && IsOpener(left) && JointStack(s, p).Some?
    ensures OpenStack(s, p, left, Closer(left)) == OfKind(s, JointStack(s, p).value, left)
  {
    if p > 0 {
      JointIsEachKind(s, p - 1, left);
      JointStacked(s, p - 1);
      StepOfKind(s, JointStack(s, p - 1).value, p - 1, left);
    }
  }

  /** An opener met inside a closed span closes before it, whatever kinds the two are of. */
  ghost predicate NestsAt(s: string, o1: nat, o2: nat)
    requires o1 < |s| && o2 < |s| && IsOpener(s[o1]) && IsOpener(s[o2])
  {
    var m1, m2 := Match(s, o1, s[o1], Closer(s[o1])), Match(s, o2, s[o2], Closer(s[o2]));
    m1.Some? ==> m1.value < o2 || (m2.Some? && m2.value < m1.value)
  }

  /** While the joint parser goes on, a closer pops the top of the joint stack. */
  lemma JointTop(s: string, o: nat, c: nat)
    requires o < |s| && c < |s| && IsOpener(s[o]) && JointStack(s, c + 1).Some?
    requires Match(s, o, s[o], Closer(s[o])) == Some(c)
    ensures JointStack(s, c).Some? && JointStack(s, c).value != []
    ensures var st := JointStack(s, c).value; st[|st| - 1] == o
  {
    var st, own := JointStack(s, c).value, OpenStack(s, c, s[o], Closer(s[o]));
    MatchIsStackPop(s, o, c, s[o], Closer(s[o]));
    JointIsEachKind(s, c, s[o]);
    assert own[|own| - 1] == o && Opener(s[c]) == s[o];
    TopOfKind(s, st, s[o]);
  }

  /** A position the stack has passed over is not on it. */
  lemma NotStacked(s: string, st: seq<nat>, p: nat, x: nat)
    requires Stacked(s, st, p) && st != [] && st[|st| - 1] < x
    ensures x !in st
  {
  }

  lemma ClosedBefore(s: string, o: nat, c: nat)
    requires o < c < |s| && IsOpener(s[o]) && o !in OpenStack(s, c, s[o], Closer(s[o]))
    ensures var m := Match(s, o, s[o], Closer(s[o])); m.Some? && m.value < c
  {
    StackMembership(s, o, c, s[o], Closer(s[o]));
    if forall k | o <= k < c :: !Closes(s, o, k, s[o], Closer(s[o])) {
      OpenUntilClosed(s, o, c, s[o], Closer(s[o]));
    }
  }

  lemma AcceptedNests(s: string, o1: nat, o2: nat)
    requires o1 < o2 < |s| && IsOpener(s[o1]) && IsOpener(s[o2]) && JointStack(s, |s|).Some?
    ensures NestsAt(s, o1, o2)
  {
    var m1 := Match(s, o1, s[o1], Closer(s[o1]));
    if m1.Some? && o2 < m1.value {
      var c := m1.value;
      JointPrefix(s, c + 1, |s|);
      JointTop(s, o1, c);
      JointStacked(s, c);
      NotStacked(s, JointStack(s, c).value, c, o2);
      JointIsEachKind(s, c, s[o2]);
      OfKindHolds(s, JointStack(s, c).value, s[o2], o2);
      ClosedBefore(s, o2, c);
    }
  }

  lemma OpenAt(s: string, o: nat, c: nat)
    requires c < |s| && o < |s| && IsOpener(s[o]) && o in OpenStack(s, c, s[o], Closer(s[o]))
    ensures var m := Match(s, o, s[o], Closer(s[o])); m.Some? ==> c <= m.value
  {
    StackMembership(s, o, c, s[o], Closer(s[o]));
  }

  /** At a clash the last opener of the closer's kind lies below the top. */
  lemma ClashParts(s: string, st: seq<nat>, c: nat) returns (o1: nat, o2: nat)
    requires c < |s| && Stacked(s, st, c) && Clashes(s, st, c)
    ensures st != [] && o2 == st[|st| - 1] && o1 < o2 && o1 in st && s[o1] == Opener(s[c])
    ensures var own := OfKind(s, st, Opener(s[c])); own != [] && own[|own| - 1] == o1
  {
    var left := Opener(s[c]);
    var own := OfKind(s, st, left);
    o1, o2 := own[|own| - 1], st[|st| - 1];
    OfKindHolds(s, st, left, o1);
    TopOfKind(s, st, left);
  }

  lemma PoppedAt(s: string, o: nat, c: nat)
    requires c < |s| && IsCloser(s[c]) && o < |s| && s[o] == Opener(s[c])
    requires var own := OpenStack(s, c, s[o], Closer(s[o])); own != [] && own[|own| - 1] == o
    ensures Match(s, o, s[o], Closer(s[o])) == Some(c)
  {
    MatchIsStackPop(s, o, c, s[o], Closer(s[o]));
  }

  /** Where two kinds clash, two spans cross or one is left open inside the other. */
  lemma ClashCrosses(s: string, c: nat) returns (o1: nat, o2: nat)
    requires c < |s| && JointStack(s, c).Some? && Clashes(s, JointStack(s, c).value, c)
    ensures o1 < o2 < |s| && IsOpener(s[o1]) && IsOpener(s[o2]) && !NestsAt(s, o1, o2)
  {
    var st := JointStack(s, c).value;
    JointStacked(s, c);
    o1, o2 := ClashParts(s, st, c);
    JointIsEachKind(s, c, s[o1]);
    PoppedAt(s, o1, c);
    JointIsEachKind(s, c, s[o2]);
    OfKindHolds(s, st, s[o2], o2);
    OpenAt(s, o2, c);
  }

  lemma {:induction false} RejectedCrosses(s: string, p: nat) returns (o1: nat, o2: nat)
    requires p <= |s| && JointStack(s, p).None?
    ensures o1 < o2 < |s| && IsOpener(s[o1]) && IsOpener(s[o2]) && !NestsAt(s, o1, o2)
  {
    if JointStack(s, p - 1).None? {
      o1, o2 := RejectedCrosses(s, p - 1);
    } else {
      o1, o2 := ClashCrosses(s, p - 1);
    }
  }

  /** Spans of all kinds are nested or disjoint if and only if the joint parser accepts the text. */
  lemma AllKindsNestIff(s: string)
    ensures JointStack(s, |s|).Some? <==>
            forall o1, o2 | 0 <= o1 < o2 < |s| && IsOpener(s[o1]) && IsOpener(s[o2]) :: NestsAt(s, o1, o2)
  {
    if JointStack(s, |s|).Some? {
      forall o1, o2 | 0 <= o1 < o2 < |s| && IsOpener(s[o1]) && IsOpener(s[o2])
        ensures NestsAt(s, o1, o2)
      {
        AcceptedNests(s, o1, o2);
      }
    } else {
      var o1, o2 := RejectedCrosses(s, |s|);
    }
  }

  /** Spans of different kinds may cross, and then the joint parser gives up. */
  lemma MixedSpansCross()
    ensures Match("({)}", 0, '(', ')') == Some(2) && Match("({)}", 1, '{', '}') == Some(3)
    ensures JointStack("({)}", 4) == None
  {
    var s := "({)}";
    assert Net(s, 0, 1, '(', ')') == 1 && Net(s, 0, 2, '(', ')') == 1 && Net(s, 0, 3, '(', ')') == 0;
    assert Net(s, 1, 2, '{', '}') == 1 && Net(s, 1, 3, '{', '}') == 1 && Net(s, 1, 4, '{', '}') == 0;
    assert Closes(s, 0, 2, '(', ')') && Closes(s, 1, 3, '{', '}');
    AllKindsNestIff(s);
    assert !NestsAt(s, 0, 1);
  }

  // ---------------------------------------------------------------- thread-local blocks

  /** The closed blocks of the given openers, in their order. */
  function SpansOf(masked: string, openings: seq<nat>): (spans: seq<(nat, nat)>)
    ensures forall o, c :: (o, c) in spans <==> o in openings && Match(masked, o, '{', '}') == Some(c)
  {
    if openings == [] then []
    else
      var n := |openings| - 1;
      var closing := Match(masked, openings[n], '{', '}');
      SpansOf(masked, openings[..n]) + if closing.Some? then [(openings[n], closing.value)] else []
  }

  /** `thread_local_spans`, given the opening braces its regular expression finds. */
  method ThreadLocalSpans(masked: string, openings: seq<nat>) returns (spans: seq<(nat, nat)>)
    ensures spans == SpansOf(masked, openings)
    ensures forall o, c :: (o, c) in spans <==> o in openings && Match(masked, o, '{', '}') == Some(c)
  {
    spans := [];
    for n := 0 to |openings|
      invariant spans == SpansOf(masked, openings[..n])
    {
      assert openings[..n + 1][..n] == openings[..n];
      var closing := MatchingDelimiter(masked, openings[n], '{', '}');
      if closing.Some? {
        spans := spans + [(openings[n], closing.value)];
      }
    }
    assert openings[..|openings|] == openings;
  }

  /** A static item found in the text: where it starts, its name, and whether its type is a latch type. */
  datatype StaticItem = StaticItem(start: nat, name: string, latch: bool)

  /** The parser would have this thread-local block open at `p`, and the block is closed later. */
  ghost predicate InsideBlock(s: string, o: nat, p: nat) {
    p < |s| && o in OpenStack(s, p, '{', '}') && Match(s, o, '{', '}').Some?
    && Match(s, o, '{', '}').value != p
  }

  /** The span test used by the latch collector is the parser's notion of being inside the block. */
  lemma SpanTestIsInside(s: string, o: nat, p: nat)
    requires p < |s| && o < |s| && s[o] == '{' && Match(s, o, '{', '}').Some?
    ensures o < p < Match(s, o, '{', '}').value <==> InsideBlock(s, o, p)
  {
    var c := Match(s, o, '{', '}').value;
    StackMembership(s, o, p, '{', '}');
    if o < p <= c {
      OpenUntilClosed(s, o, p, '{', '}');
    }
    assert c < p ==> Net(s, o, c + 1, '{', '}') < 1;
  }

  /** `process_latches`: the latch-typed statics outside every closed thread-local block. */
  method ProcessLatches(masked: string, openings: seq<nat>, statics: seq<StaticItem>) returns (result: set<string>)
    requires forall o | o in openings :: o < |masked| && masked[o] == '{'
    requires forall m | m in statics :: m.start < |masked|
    ensures forall name :: name in result <==>
                           exists m :: m in statics && m.name == name && m.latch &&
                                       forall o | o in openings :: !InsideBlock(masked, o, m.start)
  {
    var spans := ThreadLocalSpans(masked, openings);
    result := {};
    for n := 0 to |statics|
      invariant forall name :: name in result <==>
          exists m :: m in statics[..n] && m.name == name && m.latch &&
                      forall o | o in openings :: !InsideBlock(masked, o, m.start)
    {
      var m := statics[n];
      var inside := exists k | 0 <= k < |spans| :: spans[k].0 < m.start < spans[k].1;
      assert inside <==> exists o | o in openings :: InsideBlock(masked, o, m.start) by {
        SpanTestCovers(masked, openings, spans, m.start);
      }
      if m.latch && !inside {
        result := result + {m.name};
      }
      assert statics[..n + 1] == statics[..n] + [m];
    }
    assert statics[..|statics|] == statics;
  }

  lemma SpanTestCovers(s: string, openings: seq<nat>, spans: seq<(nat, nat)>, p: nat)
    requires p < |s|
    requires forall o | o in openings :: o < |s| && s[o] == '{'
    requires forall o, c :: (o, c) in spans <==> o in openings && Match(s, o, '{', '}') == Some(c)
    ensures (exists k | 0 <= k < |spans| :: spans[k].0 < p < spans[k].1) <==>
            exists o | o in openings :: InsideBlock(s, o, p)
  {
    if exists k | 0 <= k < |spans| :: spans[k].0 < p < spans[k].1 {
      var k :| 0 <= k < |spans| && spans[k].0 < p < spans[k].1;
      assert (spans[k].0, spans[k].1) in spans;
      SpanTestIsInside(s, spans[k].0, p);
    }
    if exists o | o in openings :: InsideBlock(s, o, p) {
      var o :| o in openings && InsideBlock(s, o, p);
      SpanTestIsInside(s, o, p);
      assert (o, Match(s, o, '{', '}').value) in spans;
    }
  }
}

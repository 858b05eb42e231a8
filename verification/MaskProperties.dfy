/** What masking promises: nothing that could open a literal or a comment survives, all code
    survives, masking twice is masking once, and which newlines are lost. */
module MaskProperties {
  import opened MaskScanner
  import opened Sequences

  // ---------------------------------------------------------------- one character of the mask

  /** The start of the token that covers `p` when the scanner is at the token boundary `i`. */
  function TokenOf(s: string, i: nat, p: nat): (t: nat)
    requires i <= p < |s|
    ensures i <= t <= p < TokenEnd(s, t)
    decreases p - i
  {
    if p < TokenEnd(s, i) then i else TokenOf(s, TokenEnd(s, i), p)
  }

  /** A character of a token, or of what comes after it. */
  lemma BlankedAt(kind: Kind, token: string, rest: string, k: nat)
    requires k < |token| + |rest|
    ensures (BlankToken(kind, token) + rest)[k] == if k < |token| then Blank(kind, token[k]) else rest[k - |token|]
  {
  }

  /** The first token decides its own characters and leaves the others to the rest. */
  lemma MaskFromStep(s: string, i: nat, p: nat)
    requires i <= p < |s|
    ensures var e := TokenEnd(s, i);
            MaskFrom(s, i)[p - i] == if p < e then Blank(KindAt(s, i), s[p]) else MaskFrom(s, e)[p - e]
  {
    var e := TokenEnd(s, i);
    BlankedAt(KindAt(s, i), s[i..e], MaskFrom(s, e), p - i);
  }

  lemma {:induction false} MaskFromAt(s: string, i: nat, p: nat)
    requires i <= p < |s|
    ensures MaskFrom(s, i)[p - i] == Blank(KindAt(s, TokenOf(s, i, p)), s[p])
    decreases p - i
  {
    MaskFromStep(s, i, p);
    if p >= TokenEnd(s, i) {
      MaskFromAt(s, TokenEnd(s, i), p);
    }
  }

  /** Every character of the mask is decided by the token it lies in, and by nothing else. */
  lemma MaskAt(s: string, p: nat)
    requires p < |s|
    ensures Mask(s)[p] == Blank(KindAt(s, TokenOf(s, 0, p)), s[p])
    ensures Mask(s)[p] == s[p] || Mask(s)[p] == ' '
    ensures KindAt(s, TokenOf(s, 0, p)) == Code ==> Mask(s)[p] == s[p]
  {
    MaskFromAt(s, 0, p);
  }

  /** A visible character of the mask is a code token of the text. */
  lemma VisibleIsCode(s: string, p: nat)
    requires p < |s| && Mask(s)[p] != ' ' && Mask(s)[p] != '\n'
    ensures TokenOf(s, 0, p) == p && KindAt(s, p) == Code && Mask(s)[p] == s[p]
  {
    MaskAt(s, p);
  }

  lemma {:induction false} NextToken(s: string, i: nat, p: nat)
    requires i <= p && p + 1 < |s|
    requires TokenOf(s, i, p) == p && KindAt(s, p) == Code
    ensures TokenOf(s, i, p + 1) == p + 1
    decreases p - i
  {
    if i < p {
      NextToken(s, TokenEnd(s, i), p);
    }
  }

  // ---------------------------------------------------------------- nothing opens in the mask

  /** No comment, raw string, string or complete character literal starts anywhere. */
  ghost predicate OpenerFree(s: string) {
    forall i | 0 <= i < |s| :: KindAt(s, i) == Code
  }

  lemma NoQuote(s: string, p: nat)
    requires p < |s|
    ensures Mask(s)[p] != '\"'
  {
    if Mask(s)[p] == '\"' {
      VisibleIsCode(s, p);
    }
  }

  lemma NoComment(s: string, p: nat)
    requires p < |s|
    ensures !Pair(Mask(s), p, '/', '/') && !Pair(Mask(s), p, '/', '*')
  {
    if p + 1 < |s| && Mask(s)[p] == '/' {
      VisibleIsCode(s, p);
      MaskAt(s, p + 1);
    }
  }

  lemma BackslashIsCode(s: string, p: nat)
    requires p < |s| && s[p] == '\\'
    ensures KindAt(s, p) == Code
  {
  }

  lemma BackslashKept(s: string, p: nat)
    requires p + 1 < |s| && TokenOf(s, 0, p) == p && KindAt(s, p) == Code
    ensures Mask(s)[p + 1] == '\\' <==> s[p + 1] == '\\'
  {
    MaskAt(s, p + 1);
    if s[p + 1] == '\\' {
      NextToken(s, 0, p);
      BackslashIsCode(s, p + 1);
    }
  }

  /** A visible quote keeps the escape that follows it, if there is one. */
  lemma EscapeKept(s: string, p: nat)
    requires p + 1 < |s| && TokenOf(s, 0, p) == p && KindAt(s, p) == Code
    ensures CharClose(Mask(s), p) == CharClose(s, p)
  {
    BackslashKept(s, p);
  }

  lemma NoCharLiteral(s: string, p: nat)
    requires p < |s|
    ensures !CharLiteralAt(Mask(s), p)
  {
    if Mask(s)[p] == '\'' && p + 1 < |s| {
      VisibleIsCode(s, p);
      EscapeKept(s, p);
      if CharClose(s, p) < |s| {
        MaskAt(s, CharClose(s, p));
      }
    }
  }

  /** The main safety result: the masked text opens nothing. */
  lemma MaskIsOpenerFree(s: string)
    ensures OpenerFree(Mask(s))
    ensures forall p | 0 <= p < |s| :: Mask(s)[p] != '\"'
  {
    forall p | 0 <= p < |s|
      ensures Mask(s)[p] != '\"'
    {
      NoQuote(s, p);
    }
    forall p | 0 <= p < |s|
      ensures KindAt(Mask(s), p) == Code
    {
      NoComment(s, p);
      NoCharLiteral(s, p);
    }
  }

  lemma {:induction false} OpenerFreeUnchangedFrom(s: string, i: nat)
    requires OpenerFree(s) && i <= |s|
    ensures MaskFrom(s, i) == s[i..]
    decreases |s| - i
  {
    if i < |s| {
      OpenerFreeUnchangedFrom(s, i + 1);
      CodeKept(s, i);
      assert s[i..] == [s[i]] + s[i + 1..];
    }
  }

  /** A code token is one character, and it is kept. */
  lemma CodeKept(s: string, i: nat)
    requires i < |s| && KindAt(s, i) == Code
    ensures MaskFrom(s, i) == [s[i]] + MaskFrom(s, i + 1)
  {
    assert BlankToken(Code, s[i..i + 1]) == [s[i]];
  }

  /** Text with no opener is left alone; in particular masking is a fixed point. */
  lemma MaskIdempotent(s: string)
    ensures OpenerFree(s) <==> Mask(s) == s
    ensures Mask(Mask(s)) == Mask(s)
  {
    MaskIsOpenerFree(s);
    OpenerFreeUnchangedFrom(Mask(s), 0);
    if OpenerFree(s) {
      OpenerFreeUnchangedFrom(s, 0);
    }
  }

  // ---------------------------------------------------------------- newlines

  /** The scanner meets, at or after the boundary `i`, a character literal spanning a newline. */
  predicate NewlineInCharLiteral(s: string, i: nat)
    requires i <= |s|
    decreases |s| - i
  {
    i < |s| &&
    ((KindAt(s, i) == CharLiteral && '\n' in s[i..TokenEnd(s, i)]) || NewlineInCharLiteral(s, TokenEnd(s, i)))
  }

  lemma {:induction false} LostNewline(s: string, i: nat) returns (p: nat)
    requires i <= |s| && NewlineInCharLiteral(s, i)
    ensures i <= p < |s| && s[p] == '\n' && KindAt(s, TokenOf(s, i, p)) == CharLiteral
    decreases |s| - i
  {
    var e := TokenEnd(s, i);
    if KindAt(s, i) == CharLiteral && '\n' in s[i..e] {
      var k :| 0 <= k < e - i && s[i..e][k] == '\n';
      p := i + k;
    } else {
      p := LostNewline(s, e);
    }
  }

  lemma {:induction false} KeptNewline(s: string, i: nat, p: nat)
    requires i <= p < |s| && s[p] == '\n' && !NewlineInCharLiteral(s, i)
    ensures KindAt(s, TokenOf(s, i, p)) != CharLiteral
    ensures KindAt(s, TokenOf(s, i, p)) != LineComment
    decreases p - i
  {
    var e := TokenEnd(s, i);
    if p < e {
      assert s[p] in s[i..e] by { assert s[i..e][p - i] == s[p]; }
    } else {
      KeptNewline(s, e, p);
    }
  }

  lemma MaskedNewline(s: string, p: nat)
    requires p < |s|
    ensures Mask(s)[p] == '\n' ==> s[p] == '\n'
    ensures s[p] == '\n' && !NewlineInCharLiteral(s, 0) ==> Mask(s)[p] == '\n'
  {
    MaskAt(s, p);
    if s[p] == '\n' && !NewlineInCharLiteral(s, 0) {
      KeptNewline(s, 0, p);
    }
  }

  /** The docstring promises that newlines are preserved.  They are, exactly when no character
      literal the scanner meets spans one: that branch blanks without looking for a newline. */
  lemma NewlinesPreserved(s: string)
    ensures (forall p | 0 <= p < |s| :: s[p] == '\n' <==> Mask(s)[p] == '\n') <==> !NewlineInCharLiteral(s, 0)
  {
    forall p | 0 <= p < |s|
      ensures Mask(s)[p] == '\n' ==> s[p] == '\n'
      ensures s[p] == '\n' && !NewlineInCharLiteral(s, 0) ==> Mask(s)[p] == '\n'
    {
      MaskedNewline(s, p);
    }
    if NewlineInCharLiteral(s, 0) {
      var p := LostNewline(s, 0);
      MaskAt(s, p);
    }
  }

  /** A quote, a newline and a quote: the shortest text whose newline is lost. */
  lemma NewlineLostExample()
    ensures Mask("'\n'") == "   "
  {
    var s := "'\n'";
    assert KindAt(s, 0) == CharLiteral && TokenEnd(s, 0) == 3;
    assert s[0..3] == s;
    assert MaskFrom(s, 3) == "";
  }

  /** `line_number` counts the newlines before an offset. */
  function LineNumber(s: string, offset: nat): (n: nat)
    requires offset <= |s|
  {
    if offset == 0 then 1 else LineNumber(s, offset - 1) + if s[offset - 1] == '\n' then 1 else 0
  }

  /** Masking never moves a finding down, and moves none at all when no character literal spans a newline. */
  lemma {:induction false} LineNumberOfMask(s: string, offset: nat)
    requires offset <= |s|
    ensures LineNumber(Mask(s), offset) <= LineNumber(s, offset)
    ensures !NewlineInCharLiteral(s, 0) ==> LineNumber(Mask(s), offset) == LineNumber(s, offset)
  {
    if offset > 0 {
      LineNumberOfMask(s, offset - 1);
      MaskedNewline(s, offset - 1);
    }
  }

  // ---------------------------------------------------------------- string literals

  /** How many backslashes stand directly before `j`, counted back to `lo`. */
  function BackslashRun(s: string, lo: nat, j: nat): nat
    requires lo <= j <= |s|
    decreases j
  {
    if lo < j && s[j - 1] == '\\' then 1 + BackslashRun(s, lo, j - 1) else 0
  }

  /** A quote preceded by an even number of backslashes. */
  predicate Unescaped(s: string, lo: nat, k: nat)
    requires lo <= k < |s|
  {
    s[k] == '\"' && BackslashRun(s, lo, k) % 2 == 0
  }

  /** The string branch closes at the first unescaped quote, and runs to the end only if there is none. */
  lemma {:induction false} StringClosesAtFirstUnescapedQuote(s: string, lo: nat, j: nat)
    requires lo <= j <= |s| + 1
    requires j <= |s| ==> BackslashRun(s, lo, j) % 2 == 0
    ensures var e := StringEnd(s, j);
            && (forall k | j <= k < |s| && k + 1 < e :: !Unescaped(s, lo, k))
            && ((j < e <= |s| && Unescaped(s, lo, e - 1)) || (e >= |s| && forall k | j <= k < |s| :: !Unescaped(s, lo, k)))
    decreases |s| + 1 - j
  {
    if j < |s| {
      if s[j] == '\\' {
        if j + 1 < |s| {
          assert BackslashRun(s, lo, j + 1) == 1 + BackslashRun(s, lo, j);
          assert !Unescaped(s, lo, j + 1);
        }
        StringClosesAtFirstUnescapedQuote(s, lo, j + 2);
      } else if s[j] != '\"' {
        StringClosesAtFirstUnescapedQuote(s, lo, j + 1);
      }
    }
  }

  // ---------------------------------------------------------------- nested block comments

  /** `c` is a block comment that is closed by its own last two characters. */
  ghost predicate ClosedComment(c: string) {
    Pair(c, 0, '/', '*') && Closes(c, 2, 1)
  }

  /** Scanning from `j` at this depth reaches depth zero exactly at the end of `c`. */
  predicate Closes(c: string, j: nat, depth: nat)
    requires j <= |c|
    decreases |c| - j
  {
    if depth == 0 then j == |c|
    else if j == |c| then false
    else if Pair(c, j, '/', '*') then Closes(c, j + 2, depth + 1)
    else if Pair(c, j, '*', '/') then Closes(c, j + 2, depth - 1)
    else j + 1 < |c| && Closes(c, j + 1, depth)
  }

  lemma {:induction false} ClosesInContext(a: string, c: string, b: string, j: nat, depth: nat, outer: nat)
    requires j <= |c| && Closes(c, j, depth)
    ensures BlockEnd(a + c + b, |a| + j, outer + depth) == BlockEnd(a + c + b, |a| + |c|, outer)
    decreases |c| - j
  {
    var s := a + c + b;
    if depth != 0 {
      assert s[|a| + j] == c[j] && s[|a| + j + 1] == c[j + 1];
      if Pair(c, j, '/', '*') {
        ClosesInContext(a, c, b, j + 2, depth + 1, outer);
      } else if Pair(c, j, '*', '/') {
        ClosesInContext(a, c, b, j + 2, depth - 1, outer);
      } else {
        ClosesInContext(a, c, b, j + 1, depth, outer);
      }
    }
  }

  /** Block comments nest: inside an open comment, a whole comment is skipped without a change of depth. */
  lemma NestedCommentSkipped(a: string, c: string, b: string, outer: nat)
    requires ClosedComment(c) && outer > 0
    ensures BlockEnd(a + c + b, |a|, outer) == BlockEnd(a + c + b, |a| + |c|, outer)
  {
    var s := a + c + b;
    assert s[|a|] == c[0] && s[|a| + 1] == c[1];
    ClosesInContext(a, c, b, 2, 1, outer);
  }

  // ---------------------------------------------------------------- no look-behind

  lemma {:induction false} LineEndShift(s: string, o: nat, k: nat)
    requires o + k <= |s|
    ensures LineEnd(s, o + k) == o + LineEnd(s[o..], k)
    decreases |s| - k
  {
    if o + k < |s| && s[o + k] != '\n' {
      LineEndShift(s, o, k + 1);
    }
  }

  lemma {:induction false} BlockEndShift(s: string, o: nat, k: nat, depth: nat)
    requires o + k <= |s|
    ensures BlockEnd(s, o + k, depth) == o + BlockEnd(s[o..], k, depth)
    decreases |s| - k
  {
    if o + k < |s| && depth != 0 {
      if Pair(s, o + k, '/', '*') {
        BlockEndShift(s, o, k + 2, depth + 1);
      } else if Pair(s, o + k, '*', '/') {
        BlockEndShift(s, o, k + 2, depth - 1);
      } else {
        BlockEndShift(s, o, k + 1, depth);
      }
    }
  }

  lemma {:induction false} HashRunShift(s: string, o: nat, k: nat)
    requires o + k <= |s|
    ensures HashRun(s, o + k) == HashRun(s[o..], k)
    decreases |s| - k
  {
    if o + k < |s| && s[o + k] == '#' {
      HashRunShift(s, o, k + 1);
    }
  }

  lemma MarkerShift(s: string, o: nat, k: nat, h: nat)
    requires o + k <= |s|
    ensures MarkerAt(s, o + k, h) <==> MarkerAt(s[o..], k, h)
  {
    var t := s[o..];
    assert forall n | 0 <= n < |t| :: t[n] == s[o + n];
    if MarkerAt(t, k, h) {
      forall n | o + k < n <= o + k + h
        ensures s[n] == '#'
      {
        assert t[n - o] == '#';
      }
    }
  }

  lemma {:induction false} RawCloseShift(s: string, o: nat, k: nat, h: nat)
    requires o + k <= |s|
    ensures RawClose(s, o + k, h) == o + RawClose(s[o..], k, h)
    decreases |s| - k
  {
    MarkerShift(s, o, k, h);
    if o + k < |s| && !MarkerAt(s, o + k, h) {
      RawCloseShift(s, o, k + 1, h);
    }
  }

  lemma {:induction false} StringEndShift(s: string, o: nat, k: nat)
    requires o <= |s| && o + k <= |s| + 1
    ensures StringEnd(s, o + k) == o + StringEnd(s[o..], k)
    decreases |s| + 1 - k
  {
    if o + k < |s| {
      if s[o + k] == '\\' {
        StringEndShift(s, o, k + 2);
      } else if s[o + k] != '\"' {
        StringEndShift(s, o, k + 1);
      }
    }
  }

  lemma RawShift(s: string, o: nat)
    requires o < |s|
    ensures RawPrefix(s, o) == o + RawPrefix(s[o..], 0)
    ensures HashRun(s, RawPrefix(s, o)) == HashRun(s[o..], RawPrefix(s[o..], 0))
    ensures RawOpens(s, o) == RawOpens(s[o..], 0)
  {
    HashRunShift(s, o, RawPrefix(s[o..], 0));
  }

  lemma KindShift(s: string, o: nat)
    requires o < |s|
    ensures KindAt(s, o) == KindAt(s[o..], 0)
  {
    RawShift(s, o);
  }

  lemma TokenShift(s: string, o: nat)
    requires o < |s|
    ensures KindAt(s, o) == KindAt(s[o..], 0)
    ensures TokenEnd(s, o) == o + TokenEnd(s[o..], 0)
  {
    KindShift(s, o);
    match KindAt(s, o) {
      case LineComment => LineEndShift(s, o, 2);
      case BlockComment => BlockEndShift(s, o, 2, 1);
      case RawString => RawStringShift(s, o);
      case StringLiteral => StringEndShift(s, o, 1);
      case CharLiteral =>
      case Code =>
    }
  }

  lemma RawStringShift(s: string, o: nat)
    requires o < |s| && KindAt(s, o) == KindAt(s[o..], 0) == RawString
    ensures TokenEnd(s, o) == o + TokenEnd(s[o..], 0)
  {
    RawShift(s, o);
    var p := RawPrefix(s[o..], 0);
    RawCloseShift(s, o, p + HashRun(s[o..], p) + 1, HashRun(s[o..], p));
  }

  /** The scanner has no memory: from a token boundary on, the mask is that of the rest alone. */
  lemma {:induction false} MaskFromIsMaskOfRest(s: string, o: nat)
    requires o <= |s|
    ensures MaskFrom(s, o) == Mask(s[o..])
    decreases |s| - o
  {
    if o < |s| {
      var t, e := s[o..], TokenEnd(s, o);
      TokenShift(s, o);
      MaskFromIsMaskOfRest(s, e);
      MaskFromIsMaskOfRest(t, e - o);
      assert t[..e - o] == s[o..e] && t[e - o..] == s[e..];
    }
  }

  /** A complete comment disappears as a whole and takes nothing after it along. */
  lemma CommentMasked(c: string, b: string)
    requires ClosedComment(c)
    ensures Mask(c + b) == BlankToken(BlockComment, c) + Mask(b)
  {
    var s := c + b;
    assert TokenEnd(s, 0) == |c| by {
      assert s == "" + c + b;
      ClosesInContext("", c, b, 2, 1, 0);
      assert Pair(s, 0, '/', '*') by { assert s[0] == c[0] && s[1] == c[1]; }
    }
    assert KindAt(s, 0) == BlockComment by { assert s[0] == c[0] && s[1] == c[1]; }
    assert s[0..|c|] == c && s[|c|..] == b;
    MaskFromIsMaskOfRest(s, |c|);
  }

  // ---------------------------------------------------------------- whole literals

  /** The text as it is written between quotes: quotes and backslashes escaped. */
  function Escape(t: string): string {
    if t == "" then "" else (if t[0] == '\"' || t[0] == '\\' then ['\\', t[0]] else [t[0]]) + Escape(t[1..])
  }

  lemma {:induction false} EscapedTextEnds(before: string, t: string, rest: string)
    ensures StringEnd(before + (Escape(t) + ("\"" + rest)), |before|) == |before| + |Escape(t)| + 1
    decreases |t|
  {
    var s := before + (Escape(t) + ("\"" + rest));
    if t == "" {
      assert s[|before|] == '\"';
    } else {
      var head := if t[0] == '\"' || t[0] == '\\' then ['\\', t[0]] else [t[0]];
      EscapedTextEnds(before + head, t[1..], rest);
      assert s == before + head + (Escape(t[1..]) + ("\"" + rest));
      assert s[|before|] == head[0];
    }
  }

  /** A string literal is masked as a whole, whatever text it spells, and takes nothing after it along. */
  lemma StringLiteralMasked(t: string, rest: string)
    ensures var literal := "\"" + Escape(t) + "\"";
            Mask(literal + rest) == BlankToken(StringLiteral, literal) + Mask(rest)
  {
    var literal := "\"" + Escape(t) + "\"";
    var s := literal + rest;
    assert s == "\"" + (Escape(t) + ("\"" + rest));
    EscapedTextEnds("\"", t, rest);
    assert s[0] == '\"' && KindAt(s, 0) == StringLiteral;
    TokenThenRest(literal, rest);
  }

  lemma TokenThenRest(token: string, rest: string)
    requires token != "" && TokenEnd(token + rest, 0) == |token|
    ensures Mask(token + rest) == BlankToken(KindAt(token + rest, 0), token) + Mask(rest)
  {
    var s := token + rest;
    Halves(token, rest);
    assert s[0..|token|] == token;
    MaskFromIsMaskOfRest(s, |token|);
  }

  function Hashes(n: nat): (h: string)
    ensures |h| == n && forall k | 0 <= k < n :: h[k] == '#'
  {
    if n == 0 then "" else "#" + Hashes(n - 1)
  }

  lemma {:induction false} HashRunOf(s: string, i: nat, n: nat)
    requires i + n < |s| && s[i + n] != '#' && forall k | i <= k < i + n :: s[k] == '#'
    ensures HashRun(s, i) == n
    decreases n
  {
    if n > 0 {
      HashRunOf(s, i + 1, n - 1);
    }
  }

  /** A raw string, of bytes or not, runs to the first quote with as many hashes as it was opened
      with; backslashes mean nothing in it. */
  lemma RawStringMasked(bytes: bool, n: nat, body: string, rest: string)
    requires n <= MAX_HASHES
    requires forall k | 0 <= k < |body| :: !MarkerAt(body + "\"" + Hashes(n), k, n)
    ensures var literal := RawIntro(bytes) + Hashes(n) + "\"" + body + "\"" + Hashes(n);
            Mask(literal + rest) == BlankToken(RawString, literal) + Mask(rest)
  {
    var intro, tail := RawIntro(bytes), body + "\"" + Hashes(n);
    var literal := intro + Hashes(n) + "\"" + body + "\"" + Hashes(n);
    assert literal == intro + Hashes(n) + "\"" + tail;
    var s := literal + rest;
    RawOpening(bytes, n, tail, rest);
    RawClosing(intro, n, body, rest, s);
    TokenThenRest(literal, rest);
  }

  function RawIntro(bytes: bool): (intro: string)
    ensures |intro| >= 1
  {
    if bytes then "br" else "r"
  }

  lemma RawOpening(bytes: bool, n: nat, tail: string, rest: string)
    requires n <= MAX_HASHES
    ensures var intro := RawIntro(bytes);
            var s := intro + Hashes(n) + "\"" + tail + rest;
            KindAt(s, 0) == RawString && RawPrefix(s, 0) == |intro| && HashRun(s, |intro|) == n
  {
    var intro := RawIntro(bytes);
    var s, m := intro + Hashes(n) + "\"" + tail + rest, |intro|;
    assert s[..m] == intro && s[m + n] == '\"';
    assert s[0] == intro[0] && (bytes ==> s[1] == intro[1]);
    assert forall k | m <= k < m + n :: s[k] == Hashes(n)[k - m];
    HashRunOf(s, m, n);
  }

  lemma RawClosing(intro: string, n: nat, body: string, rest: string, s: string)
    requires s == intro + Hashes(n) + "\"" + (body + "\"" + Hashes(n)) + rest
    requires forall k | 0 <= k < |body| :: !MarkerAt(body + "\"" + Hashes(n), k, n)
    ensures RawClose(s, |intro| + n + 1, n) == |intro| + n + 1 + |body| + 1 + n
  {
    var o := |intro| + n + 1;
    var c, tail := o + |body|, body + "\"" + Hashes(n);
    assert forall k | 0 <= k < |tail| :: s[o + k] == tail[k];
    assert MarkerAt(s, c, n) by {
      ClosingMarker(s, o, body, n);
    }
    forall k | o <= k < c
      ensures !MarkerAt(s, k, n)
    {
      NoEarlyMarker(s, o, tail, k - o, n);
    }
  }

  lemma ClosingMarker(s: string, o: nat, body: string, n: nat)
    requires var tail := body + "\"" + Hashes(n);
             o + |tail| <= |s| && forall k | 0 <= k < |tail| :: s[o + k] == tail[k]
    ensures MarkerAt(s, o + |body|, n)
  {
    var tail, c := body + "\"" + Hashes(n), o + |body|;
    assert s[o + |body|] == tail[|body|] == '\"';
    forall k | c < k <= c + n
      ensures s[k] == '#'
    {
      assert s[o + (k - o)] == tail[k - o] == Hashes(n)[k - c - 1];
    }
  }

  lemma NoEarlyMarker(s: string, o: nat, tail: string, k: nat, n: nat)
    requires o + |tail| <= |s| && forall j | 0 <= j < |tail| :: s[o + j] == tail[j]
    requires k + n < |tail| && !MarkerAt(tail, k, n)
    ensures !MarkerAt(s, o + k, n)
  {
    if tail[k] == '\"' {
      var j :| k < j <= k + n && tail[j] != '#';
      assert s[o + j] != '#';
    }
  }
}

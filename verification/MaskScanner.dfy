/** The Rust-aware masking scanner of `scripts/check_gc_scanner_latches.py`.

    `MaskNonCode` is the scanner as written: an index that jumps over tokens and a buffer
    that is blanked in place.  `Mask` is its specification: cut the text into tokens, keep
    the code characters, blank the rest. */
module MaskScanner {
  import opened Sequences

  datatype Kind = Code | LineComment | BlockComment | RawString | StringLiteral | CharLiteral

  const MAX_HASHES: nat := 16

  predicate Pair(s: string, i: nat, a: char, b: char) {
    i + 1 < |s| && s[i] == a && s[i + 1] == b
  }

  // ---------------------------------------------------------------- token ends

  /** The first newline at or after `i`, or the end of the text. */
  function LineEnd(s: string, i: nat): (e: nat)
    requires i <= |s|
    ensures i <= e <= |s|
    ensures forall k | i <= k < e :: s[k] != '\n'
    ensures e < |s| ==> s[e] == '\n'
    decreases |s| - i
  {
    if i == |s| || s[i] == '\n' then i else LineEnd(s, i + 1)
  }

  /** Where a block comment that is `depth` levels deep at `j` ends. */
  function BlockEnd(s: string, j: nat, depth: nat): (e: nat)
    requires j <= |s|
    ensures j <= e <= |s|
    decreases |s| - j
  {
    if j == |s| || depth == 0 then j
    else if Pair(s, j, '/', '*') then BlockEnd(s, j + 2, depth + 1)
    else if Pair(s, j, '*', '/') then BlockEnd(s, j + 2, depth - 1)
    else BlockEnd(s, j + 1, depth)
  }

  function HashRun(s: string, i: nat): (n: nat)
    requires i <= |s|
    ensures i + n <= |s|
    ensures forall k | i <= k < i + n :: s[k] == '#'
    ensures i + n < |s| ==> s[i + n] != '#'
    decreases |s| - i
  {
    if i < |s| && s[i] == '#' then 1 + HashRun(s, i + 1) else 0
  }

  /** Where the hashes of a raw-string opener at `i` would start; `i` itself if there is no `r` or `br`. */
  function RawPrefix(s: string, i: nat): (p: nat)
    requires i <= |s|
    ensures i <= p <= |s|
  {
    if Pair(s, i, 'b', 'r') then i + 2
    else if i < |s| && s[i] == 'r' then i + 1
    else i
  }

  /** `r"`, `br"`, `r#"`, ... with at most sixteen hashes starts at `i`. */
  predicate RawOpens(s: string, i: nat)
    requires i <= |s|
  {
    var p := RawPrefix(s, i);
    p > i && HashRun(s, p) <= MAX_HASHES && p + HashRun(s, p) < |s| && s[p + HashRun(s, p)] == '\"'
  }

  /** A quote followed by `h` hashes. */
  predicate MarkerAt(s: string, j: nat, h: nat) {
    j + h < |s| && s[j] == '\"' && forall k | j < k <= j + h :: s[k] == '#'
  }

  /** Just past the first closing marker at or after `j`, or the end of the text. */
  function RawClose(s: string, j: nat, h: nat): (e: nat)
    requires j <= |s|
    ensures j <= e <= |s|
    ensures e < |s| ==> e - 1 - h >= j
    ensures (exists k :: j <= k && MarkerAt(s, k, h)) ==>
              e - 1 - h >= j && MarkerAt(s, e - 1 - h, h) && forall k | j <= k < e - 1 - h :: !MarkerAt(s, k, h)
    ensures (forall k | j <= k :: !MarkerAt(s, k, h)) ==> e == |s|
    decreases |s| - j
  {
    if j == |s| then j
    else if MarkerAt(s, j, h) then j + 1 + h
    else RawClose(s, j + 1, h)
  }

  /** Just past the closing quote of a string body that starts at `j`.  An escape at the very end
      of the text steps one past it. */
  function StringEnd(s: string, j: nat): (e: nat)
    requires j <= |s| + 1
    ensures j <= e <= |s| + 1
    decreases |s| + 1 - j
  {
    if j >= |s| then j
    else if s[j] == '\\' then StringEnd(s, j + 2)
    else if s[j] == '\"' then j + 1
    else StringEnd(s, j + 1)
  }

  /** Where the closing quote of a character literal opened at `i` has to stand. */
  function CharClose(s: string, i: nat): nat {
    if i + 1 < |s| && s[i + 1] == '\\' then i + 3 else i + 2
  }

  predicate CharLiteralAt(s: string, i: nat) {
    i < |s| && s[i] == '\'' && CharClose(s, i) < |s| && s[CharClose(s, i)] == '\''
  }

  // ---------------------------------------------------------------- tokens and the mask

  function KindAt(s: string, i: nat): Kind
    requires i < |s|
  {
    if Pair(s, i, '/', '/') then LineComment
    else if Pair(s, i, '/', '*') then BlockComment
    else if RawOpens(s, i) then RawString
    else if s[i] == '\"' then StringLiteral
    else if CharLiteralAt(s, i) then CharLiteral
    else Code
  }

  function TokenEnd(s: string, i: nat): (e: nat)
    requires i < |s|
    ensures i < e <= |s|
  {
    match KindAt(s, i)
    case LineComment => LineEnd(s, i + 2)
    case BlockComment => BlockEnd(s, i + 2, 1)
    case RawString =>
      var p := RawPrefix(s, i);
      RawClose(s, p + HashRun(s, p) + 1, HashRun(s, p))
    case StringLiteral => if StringEnd(s, i + 1) <= |s| then StringEnd(s, i + 1) else |s|
    case CharLiteral => CharClose(s, i) + 1
    case Code => i + 1
  }

  /** What the scanner leaves of the character `c` inside a token. */
  function Blank(kind: Kind, c: char): char {
    match kind
    case Code => c
    case LineComment => ' '
    case CharLiteral => ' '
    case _ => if c == '\n' then '\n' else ' '
  }

  function BlankToken(kind: Kind, t: string): (r: string)
    ensures |r| == |t| && forall k | 0 <= k < |t| :: r[k] == Blank(kind, t[k])
  {
    seq(|t|, k requires 0 <= k < |t| => Blank(kind, t[k]))
  }

  function MaskFrom(s: string, i: nat): (m: string)
    requires i <= |s|
    ensures |m| == |s| - i
    decreases |s| - i
  {
    if i == |s| then ""
    else BlankToken(KindAt(s, i), s[i..TokenEnd(s, i)]) + MaskFrom(s, TokenEnd(s, i))
  }

  function Mask(s: string): (m: string)
    ensures |m| == |s|
  {
    MaskFrom(s, 0)
  }

  // ---------------------------------------------------------------- the scanner itself

  /** Overwrite `out[i..e]` with what the scanner leaves of a token of this kind. */
  method BlankRange(out: array<char>, i: nat, e: nat, kind: Kind)
    requires i <= e <= out.Length
    modifies out
    ensures out[..] == old(out[..i]) + BlankToken(kind, old(out[i..e])) + old(out[e..])
  {
    var j := i;
    while j < e
      invariant i <= j <= e
      invariant forall k | 0 <= k < out.Length ::
          out[k] == if i <= k < j then Blank(kind, old(out[k])) else old(out[k])
    {
      out[j] := Blank(kind, out[j]);
      j := j + 1;
    }
  }

  method SkipBlockComment(src: string, i: nat) returns (j: nat)
    requires i + 2 <= |src|
    ensures j == BlockEnd(src, i + 2, 1)
  {
    var depth: nat := 1;
    j := i + 2;
    while j < |src| && depth != 0
      invariant i + 2 <= j <= |src|
      invariant BlockEnd(src, j, depth) == BlockEnd(src, i + 2, 1)
      decreases |src| - j
    {
      if Pair(src, j, '/', '*') {
        depth := depth + 1;
        j := j + 2;
      } else if Pair(src, j, '*', '/') {
        depth := depth - 1;
        j := j + 2;
      } else {
        j := j + 1;
      }
    }
  }

  method SkipString(src: string, i: nat) returns (j: nat)
    requires i < |src|
    ensures j == StringEnd(src, i + 1)
  {
    j := i + 1;
    while j < |src|
      invariant i + 1 <= j <= |src| + 1
      invariant StringEnd(src, j) == StringEnd(src, i + 1)
      decreases |src| + 1 - j
    {
      if src[j] == '\\' {
        j := j + 2;
        continue;
      }
      j := j + 1;
      if src[j - 1] == '\"' {
        return;
      }
    }
  }

  /** One turn of the main loop: recognise the token at `i`, blank it, and say where to go on. */
  method MaskToken(src: string, out: array<char>, i: nat) returns (next: nat)
    requires i < |src| == out.Length
    requires out[i..] == src[i..]
    modifies out
    ensures next == TokenEnd(src, i) || (next == |src| + 1 && TokenEnd(src, i) == |src|)
    ensures out[..] == old(out[..i]) + BlankToken(KindAt(src, i), src[i..TokenEnd(src, i)]) + src[TokenEnd(src, i)..]
  {
    ghost var e := TokenEnd(src, i);
    assert out[i..e] == src[i..e] by { assert out[i..][..e - i] == src[i..][..e - i]; }
    assert out[e..] == src[e..] by { assert out[i..][e - i..] == src[i..][e - i..]; }
    if Pair(src, i, '/', '/') {
      next := LineEnd(src, i + 2);
      BlankRange(out, i, next, LineComment);
    } else if Pair(src, i, '/', '*') {
      next := SkipBlockComment(src, i);
      BlankRange(out, i, next, BlockComment);
    } else if RawOpens(src, i) {
      var p := RawPrefix(src, i);
      var hashes := HashRun(src, p);
      next := RawClose(src, p + hashes + 1, hashes);
      BlankRange(out, i, next, RawString);
    } else if src[i] == '\"' {
      next := SkipString(src, i);
      BlankRange(out, i, if next < |src| then next else |src|, StringLiteral);
    } else if CharLiteralAt(src, i) {
      next := CharClose(src, i) + 1;
      BlankRange(out, i, next, CharLiteral);
    } else {
      next := i + 1;
      assert out[..] == out[..i] + src[i..e] + src[e..];
    }
  }

  /** `out` is masked up to the token boundary `i` and untouched after it. */
  ghost predicate Masked(src: string, out: string, i: nat) {
    i <= |src| == |out| && out[..i] + MaskFrom(src, i) == Mask(src) && out[i..] == src[i..]
  }

  lemma MaskedStep(src: string, before: string, after: string, i: nat)
    requires i < |src| && Masked(src, before, i)
    requires after == before[..i] + BlankToken(KindAt(src, i), src[i..TokenEnd(src, i)]) + src[TokenEnd(src, i)..]
    ensures Masked(src, after, TokenEnd(src, i))
  {
    var done, e := before[..i], TokenEnd(src, i);
    var token := BlankToken(KindAt(src, i), src[i..e]);
    Halves(done + token, src[e..]);
    Reassociate(done, token, MaskFrom(src, e));
  }

  /** `mask_non_code`: the buffer is overwritten while the index jumps from token to token. */
  method MaskNonCode(src: string) returns (masked: string)
    ensures masked == Mask(src)
  {
    var out := new char[|src|](k requires 0 <= k < |src| => src[k]);
    assert out[..] == src;
    var i := 0;
    while i < |src|
      invariant 0 <= i <= |src| + 1
      invariant Masked(src, out[..], if i <= |src| then i else |src|)
      decreases |src| + 1 - i
    {
      ghost var before, at := out[..], i;
      i := MaskToken(src, out, i);
      MaskedStep(src, before, out[..], at);
    }
    masked := out[..];
    assert masked == masked[..|src|] + MaskFrom(src, |src|);
  }
}

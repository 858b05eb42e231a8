/** The other two brace matchers: `match_brace`, which steps over string literals, and
    `brace_span`.  Both are tied to `matching_delimiter`. */
module BraceSpans {
  import opened Options
  import opened Brackets
  import opened Sequences
  import MaskScanner
  import MaskProperties

  function CloserOf(opener: char): char {
    if opener == '{' then '}' else ')'
  }

  /** `s[i..]` with every string literal, quotes included, replaced by blanks. */
  function BlankStrings(s: string, i: nat, inString: bool): (t: string)
    requires i <= |s|
    ensures |t| == |s| - i
    decreases |s| - i
  {
    if i == |s| then ""
    else if inString && s[i] == '\\' then
      if i + 1 == |s| then " " else "  " + BlankStrings(s, i + 2, true)
    else if s[i] == '\"' then " " + BlankStrings(s, i + 1, !inString)
    else [if inString then ' ' else s[i]] + BlankStrings(s, i + 1, inString)
  }

  /** The text as `match_brace` sees it when started at `open`. */
  function Visible(s: string, open: nat): (t: string)
    requires open <= |s|
    ensures |t| == |s|
  {
    s[..open] + BlankStrings(s, open, false)
  }

  /** Just past the matching closer, or the end of the text. */
  function PastMatch(t: string, open: nat, opener: char): nat {
    match Match(t, open, opener, CloserOf(opener))
    case Some(c) => c + 1
    case None => |t|
  }

  /** The scan has reached `i` with this nesting and has not found the closer yet. */
  ghost predicate Scanning(s: string, open: nat, i: nat, inString: bool, depth: int, left: char, right: char) {
    open <= i <= |s| &&
    var t := Visible(s, open);
    && t[i..] == BlankStrings(s, i, inString)
    && depth == Net(t, open, i, left, right)
    && MatchFrom(t, open, i, left, right) == Match(t, open, left, right)
  }

  lemma DropOne(t: string, i: nat)
    requires i < |t|
    ensures t[i..][0] == t[i] && t[i + 1..] == t[i..][1..]
  {
  }

  lemma DropTwo(t: string, i: nat)
    requires i + 1 < |t|
    ensures t[i..][1] == t[i + 1] && t[i + 2..] == t[i..][2..]
  {
  }

  /** One character that is not an escape inside a string. */
  lemma Advance(s: string, open: nat, i: nat, inString: bool, depth: int, left: char, right: char)
    requires left != right && left != ' ' && right != ' ' && left != '\"' && right != '\"'
    requires i < |s| && Scanning(s, open, i, inString, depth, left, right) && !(inString && s[i] == '\\')
    ensures var c := if inString || s[i] == '\"' then ' ' else s[i];
            var depth' := depth + Step(c, left, right);
            if c == right && depth' == 0 then Match(Visible(s, open), open, left, right) == Some(i)
            else Scanning(s, open, i + 1, if s[i] == '\"' then !inString else inString, depth', left, right)
  {
    var t := Visible(s, open);
    DropOne(t, i);
    assert Net(t, open, i + 1, left, right) == Net(t, open, i, left, right) + Step(t[i], left, right);
  }

  /** A backslash inside a string hides the next character, if there is one. */
  lemma AdvanceEscape(s: string, open: nat, i: nat, depth: int, left: char, right: char)
    requires left != right && left != ' ' && right != ' '
    requires i < |s| && Scanning(s, open, i, true, depth, left, right) && s[i] == '\\'
    ensures i + 1 < |s| ==> Scanning(s, open, i + 2, true, depth, left, right)
    ensures i + 1 == |s| ==> Match(Visible(s, open), open, left, right) == None
  {
    var t := Visible(s, open);
    DropOne(t, i);
    assert Net(t, open, i + 1, left, right) == Net(t, open, i, left, right);
    if i + 1 < |s| {
      DropTwo(t, i);
      assert Net(t, open, i + 2, left, right) == Net(t, open, i + 1, left, right);
    }
  }

  /** The scan of `match_brace` from `i` on: just past the closer that brings the depth to zero. */
  function ScanEnd(s: string, i: nat, depth: int, inString: bool, left: char, right: char): nat
    requires i <= |s| + 1
    decreases |s| + 1 - i
  {
    if i >= |s| then |s|
    else if inString && s[i] == '\\' then ScanEnd(s, i + 2, depth, true, left, right)
    else if s[i] == '\"' then ScanEnd(s, i + 1, depth, !inString, left, right)
    else if inString then ScanEnd(s, i + 1, depth, true, left, right)
    else if s[i] == right && s[i] != left && depth == 1 then i + 1
    else ScanEnd(s, i + 1, depth + Step(s[i], left, right), false, left, right)
  }

  lemma ScanStep(s: string, i: nat, depth: int, inString: bool, left: char, right: char)
    requires left != right && left != ' ' && right != ' ' && left != '\"' && right != '\"'
    requires i < |s| && !(inString && s[i] == '\\')
    ensures var c := if inString || s[i] == '\"' then ' ' else s[i];
            var depth' := depth + Step(c, left, right);
            ScanEnd(s, i, depth, inString, left, right) ==
            if c == right && depth' == 0 then i + 1
            else ScanEnd(s, i + 1, depth', if s[i] == '\"' then !inString else inString, left, right)
  {
  }

  lemma {:induction false} ScanFindsMatch(s: string, open: nat, i: nat, inString: bool, depth: int, left: char, right: char)
    requires left != right && left != ' ' && right != ' ' && left != '\"' && right != '\"'
    requires Scanning(s, open, i, inString, depth, left, right)
    ensures ScanEnd(s, i, depth, inString, left, right) ==
            match Match(Visible(s, open), open, left, right) case Some(c) => c + 1 case None => |s|
    decreases |s| - i
  {
    if i < |s| {
      if inString && s[i] == '\\' {
        AdvanceEscape(s, open, i, depth, left, right);
        if i + 1 < |s| {
          ScanFindsMatch(s, open, i + 2, true, depth, left, right);
        }
      } else {
        Advance(s, open, i, inString, depth, left, right);
        ScanStep(s, i, depth, inString, left, right);
        var c := if inString || s[i] == '\"' then ' ' else s[i];
        var depth' := depth + Step(c, left, right);
        if !(c == right && depth' == 0) {
          ScanFindsMatch(s, open, i + 1, if s[i] == '\"' then !inString else inString, depth', left, right);
        }
      }
    }
  }

  /** `match_brace`: string-aware matching is plain matching on the text without its strings. */
  method MatchBrace(src: string, open: nat) returns (end: nat)
    requires open < |src| && (src[open] == '{' || src[open] == '(')
    ensures end == PastMatch(Visible(src, open), open, src[open])
  {
    var opener := src[open];
    var closer := CloserOf(opener);
    ScanStart(src, open, opener, closer);
    var depth, i, inString := 0, open, false;
    while i < |src|
      invariant open <= i <= |src| + 1
      invariant ScanEnd(src, i, depth, inString, opener, closer) == ScanEnd(src, open, 0, false, opener, closer)
      decreases |src| + 1 - i
    {
      var c := src[i];
      if inString {
        if c == '\\' {
          i := i + 2;
          continue;
        }
        if c == '\"' {
          inString := false;
        }
      } else if c == '\"' {
        inString := true;
      } else if c == opener {
        depth := depth + 1;
      } else if c == closer {
        depth := depth - 1;
        if depth == 0 {
          return i + 1;
        }
      }
      i := i + 1;
    }
    end := |src|;
  }

  lemma ScanStart(s: string, open: nat, left: char, right: char)
    requires open < |s| && left != right && left != ' ' && right != ' ' && left != '\"' && right != '\"'
    ensures ScanEnd(s, open, 0, false, left, right) ==
            match Match(Visible(s, open), open, left, right) case Some(c) => c + 1 case None => |s|
  {
    Halves(s[..open], BlankStrings(s, open, false));
    ScanFindsMatch(s, open, open, false, 0, left, right);
  }

  lemma {:induction false} QuoteFreeVisible(s: string, i: nat)
    requires i <= |s| && forall k | i <= k < |s| :: s[k] != '\"'
    ensures BlankStrings(s, i, false) == s[i..]
    decreases |s| - i
  {
    if i < |s| {
      QuoteFreeVisible(s, i + 1);
    }
  }

  /** Without quotes after the opener, `match_brace` is `matching_delimiter` plus one. */
  lemma QuoteFreeMatch(s: string, open: nat)
    requires open < |s| && forall k | open <= k < |s| :: s[k] != '\"'
    ensures PastMatch(Visible(s, open), open, s[open]) == PastMatch(s, open, s[open])
  {
    QuoteFreeVisible(s, open);
    assert s[..open] + s[open..] == s;
  }

  /** On masked text the two matchers always agree. */
  lemma MaskedTextMatch(s: string, open: nat)
    requires open < |s|
    ensures var m := MaskScanner.Mask(s);
            PastMatch(Visible(m, open), open, m[open]) == PastMatch(m, open, m[open])
  {
    MaskProperties.MaskIsOpenerFree(s);
    QuoteFreeMatch(MaskScanner.Mask(s), open);
  }

  /** `brace_span`: the first brace at or after `start` and its closer, or the text end; nothing when
      there is no brace, where the script raises. */
  method BraceSpan(src: string, start: nat) returns (span: Option<(nat, nat)>)
    ensures span.None? <==> forall k | start <= k < |src| :: src[k] != '{'
    ensures span.Some? ==>
              var (i, j) := span.value;
              && start <= i < |src| && src[i] == '{' && (forall k | start <= k < i :: src[k] != '{')
              && j == (match Match(src, i, '{', '}') case Some(c) => c case None => |src|)
  {
    var i := start;
    while i < |src| && src[i] != '{'
      invariant start <= i
      invariant forall k | start <= k < i && k < |src| :: src[k] != '{'
    {
      i := i + 1;
    }
    if i >= |src| {
      return None;
    }
    var depth, j := 0, i;
    while j < |src|
      invariant i <= j <= |src|
      invariant depth == Net(src, i, j, '{', '}')
      invariant forall k | i <= k < j :: !Closes(src, i, k, '{', '}')
    {
      if src[j] == '{' {
        depth := depth + 1;
      } else if src[j] == '}' {
        depth := depth - 1;
        if depth == 0 {
          assert Closes(src, i, j, '{', '}');
          break;
        }
      }
      j := j + 1;
    }
    return Some((i, j));
  }
}

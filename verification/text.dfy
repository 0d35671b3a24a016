/** The Python `str` operations the translator relies on, over `seq<char>`:
    whitespace classification, `strip`, `re.sub(r'\s+', ' ', ...)`, `split()`,
    `' '.join(...)`, `in` and `replace`. */
module Text {

  /** Python's `str.isspace()` for one character: the characters that `\s`
      matches in a `str` pattern and that `split()` and `strip()` with no
      argument treat as separators. */
  predicate IsSpace(c: char) {
    || c == ' '
    || ('\t' <= c <= '\r')
    || ('\U{1C}' <= c <= '\U{1F}')
    || c == '\U{85}'
    || c == '\U{A0}'
    || c == '\U{1680}'
    || ('\U{2000}' <= c <= '\U{200A}')
    || c == '\U{2028}'
    || c == '\U{2029}'
    || c == '\U{202F}'
    || c == '\U{205F}'
    || c == '\U{3000}'
  }

  predicate NoSpace(s: string) {
    forall i :: 0 <= i < |s| ==> !IsSpace(s[i])
  }

  /** A non-empty run of non-whitespace characters. */
  predicate IsWord(w: string) {
    |w| > 0 && NoSpace(w)
  }

  /** Positions `i` and `i + 1` of `s` both hold whitespace. */
  predicate SpaceRunAt(s: string, i: int) {
    0 <= i < |s| - 1 && IsSpace(s[i]) && IsSpace(s[i + 1])
  }

  /** Whitespace occurs only as isolated ' ' characters. */
  predicate SingleSpaced(s: string) {
    && (forall i :: 0 <= i < |s| && IsSpace(s[i]) ==> s[i] == ' ')
    && (forall i | 0 <= i < |s| - 1 :: !SpaceRunAt(s, i))
  }

  /** Single-spaced, with no leading and no trailing whitespace. */
  predicate Normalized(s: string) {
    SingleSpaced(s) && (|s| > 0 ==> !IsSpace(s[0]) && !IsSpace(s[|s| - 1]))
  }

  /** A non-empty string that can be spliced into a single-spaced text
      without creating a whitespace run at either end. */
  predicate CleanPhrase(s: string) {
    |s| > 0 && Normalized(s)
  }

  /** A position-by-position check of single spacing from index `i` on;
      unlike `SingleSpaced` it unfolds on a literal string. */
  predicate SpacedFrom(s: string, i: nat)
    decreases |s| - i
  {
    i >= |s| || ((IsSpace(s[i]) ==> s[i] == ' ' && (i + 1 < |s| ==> !IsSpace(s[i + 1]))) && SpacedFrom(s, i + 1))
  }

  lemma {:induction false} SpacedFromSound(s: string, i: nat)
    requires SpacedFrom(s, i)
    ensures forall k :: i <= k < |s| && IsSpace(s[k]) ==> s[k] == ' '
    ensures forall k | i <= k < |s| - 1 :: !SpaceRunAt(s, k)
    decreases |s| - i
  {
    if i < |s| {
      SpacedFromSound(s, i + 1);
    }
  }

  /** The checkable form of `CleanPhrase`. */
  lemma CleanPhraseByCheck(s: string)
    requires |s| > 0 && !IsSpace(s[0]) && !IsSpace(s[|s| - 1]) && SpacedFrom(s, 0)
    ensures CleanPhrase(s)
  {
    SpacedFromSound(s, 0);
  }

  // ---------------------------------------------------------------------
  // strip()

  /** `s.lstrip()` */
  function StripLeft(s: string): (r: string)
    ensures |r| <= |s| && r == s[|s| - |r|..]
    ensures forall i :: 0 <= i < |s| - |r| ==> IsSpace(s[i])
    ensures |r| > 0 ==> !IsSpace(r[0])
  {
    if |s| > 0 && IsSpace(s[0]) then StripLeft(s[1..]) else s
  }

  /** `s.rstrip()` */
  function StripRight(s: string): (r: string)
    ensures |r| <= |s| && r == s[..|r|]
    ensures forall i :: |r| <= i < |s| ==> IsSpace(s[i])
    ensures |r| > 0 ==> !IsSpace(r[|r| - 1])
  {
    if |s| > 0 && IsSpace(s[|s| - 1]) then StripRight(s[..|s| - 1]) else s
  }

  /** `s.strip()`: the result is the slice of `s` left once the whitespace at
      both ends is gone. */
  function Strip(s: string): (r: string)
    ensures |r| <= |s|
    ensures |r| > 0 ==> !IsSpace(r[0]) && !IsSpace(r[|r| - 1])
    ensures |r| == 0 <==> forall i :: 0 <= i < |s| ==> IsSpace(s[i])
    ensures |s| > 0 && !IsSpace(s[0]) && !IsSpace(s[|s| - 1]) ==> r == s
  {
    var t := StripLeft(s);
    var r := StripRight(t);
    StripRightKeepsHead(t);
    assert |t| > 0 ==> t[0] == s[|s| - |t|];
    r
  }

  /** `s.strip()` cuts nothing but whitespace: the result is the slice of
      `s` that starts after the leading whitespace, and everything after it
      is whitespace too. */
  lemma StripIsInnerSlice(s: string)
    ensures var n := |s| - |StripLeft(s)|;
      && n + |Strip(s)| <= |s|
      && (forall j :: 0 <= j < |Strip(s)| ==> Strip(s)[j] == s[n + j])
      && (forall j :: 0 <= j < n ==> IsSpace(s[j]))
      && (forall j :: n + |Strip(s)| <= j < |s| ==> IsSpace(s[j]))
  {
    StripSlice(s);
    StripTail(s);
  }

  /** The stripped text, character by character, is `s` after its leading
      whitespace. */
  lemma StripSlice(s: string)
    ensures var n := |s| - |StripLeft(s)|;
      n + |Strip(s)| <= |s| && forall j :: 0 <= j < |Strip(s)| ==> Strip(s)[j] == s[n + j]
  {
    StripUnfold(s);
    SliceOfSuffixAt(s, StripLeft(s), StripRight(StripLeft(s)));
  }

  /** Only whitespace follows the stripped text in `s`. */
  lemma StripTail(s: string)
    ensures var n := |s| - |StripLeft(s)|;
      forall j :: n + |Strip(s)| <= j < |s| ==> IsSpace(s[j])
  {
    StripUnfold(s);
    SpaceAfterSlice(s, StripLeft(s), StripRight(StripLeft(s)));
  }

  lemma StripUnfold(s: string)
    ensures Strip(s) == StripRight(StripLeft(s))
  {
  }

  /** A prefix `r` of a suffix `t` of `s` sits in `s` where `t` starts. */
  lemma SliceOfSuffixAt<T>(s: seq<T>, t: seq<T>, r: seq<T>)
    requires |t| <= |s| && t == s[|s| - |t|..] && |r| <= |t| && r == t[..|r|]
    ensures forall j :: 0 <= j < |r| ==> r[j] == s[|s| - |t| + j]
  {
  }

  /** The whitespace that follows the prefix `r` in the suffix `t` of `s`
      follows it in `s`. */
  lemma SpaceAfterSlice(s: string, t: string, r: string)
    requires |t| <= |s| && t == s[|s| - |t|..] && |r| <= |t|
    requires forall i :: |r| <= i < |t| ==> IsSpace(t[i])
    ensures forall j :: |s| - |t| + |r| <= j < |s| ==> IsSpace(s[j])
  {
    var n := |s| - |t|;
    forall j | n + |r| <= j < |s| ensures IsSpace(s[j]) {
      assert s[j] == t[j - n];
    }
  }

  lemma StripRightKeepsHead(t: string)
    ensures |t| > 0 && !IsSpace(t[0]) ==> |StripRight(t)| > 0
  {
  }

  lemma StripLeftIdempotent(s: string)
    ensures StripLeft(StripLeft(s)) == StripLeft(s)
  {
  }

  lemma StripLeftSkipsSpace(c: char, s: string)
    requires IsSpace(c)
    ensures StripLeft([c] + s) == StripLeft(s)
  {
    assert ([c] + s)[1..] == s;
  }

  lemma SingleSpacedSlice(s: string, i: nat, j: nat)
    requires SingleSpaced(s) && i <= j <= |s|
    ensures SingleSpaced(s[i..j])
    ensures j == |s| ==> SingleSpaced(s[i..])
    ensures i == 0 ==> SingleSpaced(s[..j])
  {
    var t := s[i..j];
    if j == |s| {
      assert s[i..] == t;
    }
    if i == 0 {
      assert s[..j] == t;
    }
    forall k | 0 <= k < |t| && IsSpace(t[k]) ensures t[k] == ' ' {
      assert t[k] == s[i + k];
    }
    forall k | 0 <= k < |t| - 1 ensures !SpaceRunAt(t, k) {
      {
        assert t[k] == s[i + k] && t[k + 1] == s[i + k + 1];
        assert !SpaceRunAt(s, i + k);
      }
    }
  }

  lemma SingleSpacedConcat(a: string, b: string)
    requires SingleSpaced(a) && SingleSpaced(b)
    requires |a| > 0 && |b| > 0 ==> !(IsSpace(a[|a| - 1]) && IsSpace(b[0]))
    ensures SingleSpaced(a + b)
  {
    var c := a + b;
    forall k | 0 <= k < |c| - 1 ensures !SpaceRunAt(c, k) {
      if 0 <= k < |a| - 1 {
        assert c[k] == a[k] && c[k + 1] == a[k + 1];
        assert !SpaceRunAt(a, k);
      } else if k == |a| - 1 && |b| > 0 {
        assert c[k] == a[k] && c[k + 1] == b[0];
      } else if |a| <= k < |c| - 1 {
        assert c[k] == b[k - |a|] && c[k + 1] == b[k - |a| + 1];
        assert !SpaceRunAt(b, k - |a|);
      }
    }
    forall k | 0 <= k < |c| && IsSpace(c[k]) ensures c[k] == ' ' {
      if k < |a| { assert c[k] == a[k]; } else { assert c[k] == b[k - |a|]; }
    }
  }

  /** Stripping a single-spaced text leaves a normalized one. */
  lemma {:induction false} StripNormalizes(s: string)
    requires SingleSpaced(s)
    ensures Normalized(Strip(s))
  {
    var t := StripLeft(s);
    SingleSpacedSlice(s, |s| - |t|, |s|);
    var r := StripRight(t);
    SingleSpacedSlice(t, 0, |r|);
  }

  // ---------------------------------------------------------------------
  // re.sub(r'\s+', ' ', s)

  /** `re.sub(r'\s+', ' ', s)`: every maximal whitespace run becomes one ' '. */
  function CollapseSpaces(s: string): (r: string)
    ensures SingleSpaced(r)
    ensures |r| == 0 <==> |s| == 0
    ensures |s| > 0 ==> (IsSpace(r[0]) <==> IsSpace(s[0]))
    decreases |s|
  {
    if |s| == 0 then []
    else if IsSpace(s[0]) then
      var rest := CollapseSpaces(StripLeft(s));
      SingleSpacedConcat(" ", rest);
      " " + rest
    else
      var rest := CollapseSpaces(s[1..]);
      SingleSpacedConcat([s[0]], rest);
      [s[0]] + rest
  }

  /** Collapsing whitespace keeps the words: `text.split()` sees the same
      words before and after. */
  lemma {:induction false} CollapseSpacesKeepsWords(s: string)
    ensures SplitWords(CollapseSpaces(s)) == SplitWords(s)
    decreases |s|
  {
    if |s| == 0 {
    } else if IsSpace(s[0]) {
      var rest := CollapseSpaces(StripLeft(s));
      assert CollapseSpaces(s) == [' '] + rest;
      CollapseSpacesKeepsWords(StripLeft(s));
      SplitWordsAfterSpace(' ', rest);
      SplitWordsSkipsSpace(s);
    } else {
      var rest := CollapseSpaces(s[1..]);
      assert CollapseSpaces(s) == [s[0]] + rest;
      CollapseSpacesKeepsWords(s[1..]);
      PrependKeepsWords(s[0], rest, s[1..]);
      ConsSlice(s, 0);
    }
  }

  // ---------------------------------------------------------------------
  // split() and ' '.join(...)

  /** Length of the run of non-whitespace characters that starts `s`. */
  function WordLength(s: string): (n: nat)
    ensures n <= |s| && NoSpace(s[..n])
    ensures n < |s| ==> IsSpace(s[n])
  {
    if |s| == 0 || IsSpace(s[0]) then 0 else 1 + WordLength(s[1..])
  }

  /** `s.split()` with no argument: the maximal runs of non-whitespace
      characters, in order. */
  function SplitWords(s: string): (r: seq<string>)
    ensures forall i :: 0 <= i < |r| ==> IsWord(r[i])
    decreases |s|
  {
    var t := StripLeft(s);
    if |t| == 0 then []
    else
      var n := WordLength(t);
      [t[..n]] + SplitWords(t[n..])
  }

  /** `' '.join(xs)` */
  function JoinSpace(xs: seq<string>): string {
    if |xs| == 0 then ""
    else if |xs| == 1 then xs[0]
    else xs[0] + " " + JoinSpace(xs[1..])
  }

  /** Concatenation of a sequence of sequences. */
  function Flatten<T>(xss: seq<seq<T>>): seq<T> {
    if |xss| == 0 then [] else xss[0] + Flatten(xss[1..])
  }

  lemma {:induction false} FlattenAppend<T>(a: seq<seq<T>>, b: seq<seq<T>>)
    ensures Flatten(a + b) == Flatten(a) + Flatten(b)
  {
    if |a| > 0 {
      assert (a + b)[1..] == a[1..] + b;
      FlattenAppend(a[1..], b);
    } else {
      assert a + b == b;
    }
  }

  /** Joining two non-empty groups separately and then joining the two
      results gives the same text as joining all of them at once. */
  lemma {:induction false} JoinAppend(a: seq<string>, b: seq<string>)
    requires |a| > 0 && |b| > 0
    ensures JoinSpace(a + b) == JoinSpace(a) + " " + JoinSpace(b)
  {
    if |a| == 1 {
      assert (a + b)[1..] == b;
    } else {
      assert (a + b)[1..] == a[1..] + b;
      JoinAppend(a[1..], b);
    }
  }

  lemma {:induction false} SplitWordsSkipsSpace(s: string)
    ensures SplitWords(s) == SplitWords(StripLeft(s))
  {
    StripLeftIdempotent(s);
  }

  lemma {:induction false} WordLengthOfWord(w: string, tail: string)
    requires NoSpace(w)
    requires |tail| > 0 ==> IsSpace(tail[0])
    ensures WordLength(w + tail) == |w|
    decreases |w|
  {
    if |w| > 0 {
      assert (w + tail)[1..] == w[1..] + tail;
      WordLengthOfWord(w[1..], tail);
    } else {
      assert w + tail == tail;
    }
  }

  /** A word followed by nothing or by whitespace is split off first. */
  lemma {:induction false} SplitWordsCons(w: string, tail: string)
    requires |w| > 0 && NoSpace(w)
    requires |tail| > 0 ==> IsSpace(tail[0])
    ensures SplitWords(w + tail) == [w] + SplitWords(tail)
  {
    var s := w + tail;
    assert s[0] == w[0];
    assert StripLeft(s) == s;
    WordLengthOfWord(w, tail);
    assert s[..|w|] == w;
    assert s[|w|..] == tail;
  }

  /** A non-space character in front of nothing or of whitespace is a word
      of its own. */
  lemma {:induction false} SplitWordsPrependBeforeSpace(c: char, x: string)
    requires !IsSpace(c)
    requires |x| == 0 || IsSpace(x[0])
    ensures SplitWords([c] + x) == [[c]] + SplitWords(x)
  {
    SplitWordsCons([c], x);
  }

  /** A non-space character in front of a word joins that word. */
  lemma {:induction false} SplitWordsPrependToWord(c: char, x: string)
    requires !IsSpace(c)
    requires |x| > 0 && !IsSpace(x[0])
    ensures |SplitWords(x)| > 0
    ensures SplitWords([c] + x) == [[c] + SplitWords(x)[0]] + SplitWords(x)[1..]
  {
    var n := WordLength(x);
    var w, tail := x[..n], x[n..];
    PrefixSplit(x, n);
    SplitWordsCons(w, tail);
    PrependNoSpace(c, w);
    PrependConcat(c, w, tail);
    SplitWordsCons([c] + w, tail);
  }

  /** A non-space character in front of two texts with the same words, both
      starting with whitespace or both with a word, keeps their words equal. */
  lemma PrependKeepsWords(c: char, x: string, y: string)
    requires !IsSpace(c)
    requires SplitWords(x) == SplitWords(y)
    requires (|x| == 0 || IsSpace(x[0])) <==> (|y| == 0 || IsSpace(y[0]))
    ensures SplitWords([c] + x) == SplitWords([c] + y)
  {
    if |x| == 0 || IsSpace(x[0]) {
      SplitWordsPrependBeforeSpace(c, x);
      SplitWordsPrependBeforeSpace(c, y);
    } else {
      SplitWordsPrependToWord(c, x);
      SplitWordsPrependToWord(c, y);
    }
  }

  lemma PrefixSplit<T>(x: seq<T>, n: nat)
    requires n <= |x|
    ensures x == x[..n] + x[n..]
  {
  }

  lemma PrependConcat<T>(c: T, w: seq<T>, tail: seq<T>)
    ensures [c] + (w + tail) == ([c] + w) + tail
  {
  }

  lemma PrependNoSpace(c: char, w: string)
    requires !IsSpace(c) && NoSpace(w)
    ensures NoSpace([c] + w)
  {
    forall i | 0 <= i < |[c] + w| ensures !IsSpace(([c] + w)[i]) {
      if i > 0 { assert ([c] + w)[i] == w[i - 1]; }
    }
  }

  /** Whitespace in front of a text does not change its words. */
  lemma {:induction false} SplitWordsAfterSpace(c: char, s: string)
    requires IsSpace(c)
    ensures SplitWords([c] + s) == SplitWords(s)
  {
    StripLeftSkipsSpace(c, s);
    SplitWordsSkipsSpace([c] + s);
    SplitWordsSkipsSpace(s);
  }

  lemma SplitAround<T>(s: seq<T>, n: nat)
    requires n < |s|
    ensures s == s[..n] + [s[n]] + s[n + 1..]
    ensures s == s[..n] + ([s[n]] + s[n + 1..])
  {
    assert s[..n] + [s[n]] == s[..n + 1];
    assert s[..n + 1] + s[n + 1..] == s;
  }

  /** A normalized text that is one word splits into itself. */
  lemma OneWord(s: string)
    requires |s| > 0 && NoSpace(s)
    ensures SplitWords(s) == [s]
  {
    assert s == s + "";
    SplitWordsCons(s, "");
  }

  /** In a normalized text with more than one word, the first word is
      followed by a single space and a normalized, non-empty rest. */
  lemma {:induction false} FirstSpaceOfNormalized(s: string)
    requires Normalized(s) && WordLength(s) < |s|
    ensures var n := WordLength(s);
      && 0 < n && s[n] == ' '
      && Normalized(s[n + 1..]) && |s[n + 1..]| > 0
  {
    var n := WordLength(s);
    assert n > 0 by { assert !IsSpace(s[0]); }
    assert !SpaceRunAt(s, n);
    SingleSpacedSlice(s, n + 1, |s|);
  }

  /** The words of such a text are its first word and the words after the
      space that follows it. */
  lemma {:induction false} FirstWordSplit(s: string, n: nat)
    requires 0 < n < |s| && n == WordLength(s) && s[n] == ' '
    ensures SplitWords(s) == [s[..n]] + SplitWords(s[n + 1..])
  {
    var rest := s[n + 1..];
    SplitAround(s, n);
    SplitWordsCons(s[..n], [' '] + rest);
    SplitWordsAfterSpace(' ', rest);
  }

  /** Splitting a normalized text into words and joining them with single
      spaces gives the text back. */
  lemma {:induction false} WordsRoundTrip(s: string)
    requires Normalized(s)
    ensures JoinSpace(SplitWords(s)) == s
    decreases |s|
  {
    if |s| == 0 {
      assert SplitWords(s) == [];
    } else {
      var n := WordLength(s);
      if n == |s| {
        assert s[..n] == s;
        OneWord(s);
      } else {
        FirstSpaceOfNormalized(s);
        FirstWordSplit(s, n);
        var w, rest := s[..n], s[n + 1..];
        WordsRoundTrip(rest);
        var ws := SplitWords(rest);
        assert |ws| > 0;
        JoinAppend([w], ws);
        SplitAround(s, n);
      }
    }
  }

  /** Joining words with single spaces and splitting the result gives the
      words back. */
  lemma {:induction false} JoinSplitRoundTrip(ws: seq<string>)
    requires forall i :: 0 <= i < |ws| ==> IsWord(ws[i])
    ensures SplitWords(JoinSpace(ws)) == ws
  {
    if |ws| == 1 {
      OneWord(ws[0]);
    } else if |ws| > 1 {
      SplitJoinCons(ws);
      JoinSplitRoundTrip(ws[1..]);
      ConsSlice(ws, 0);
    }
  }

  /** The first word comes off the joined text first. */
  lemma SplitJoinCons(ws: seq<string>)
    requires |ws| > 1 && IsWord(ws[0])
    ensures SplitWords(JoinSpace(ws)) == [ws[0]] + SplitWords(JoinSpace(ws[1..]))
  {
    var rest := JoinSpace(ws[1..]);
    assert JoinSpace(ws) == ws[0] + ([' '] + rest);
    SplitWordsCons(ws[0], [' '] + rest);
    SplitWordsAfterSpace(' ', rest);
  }

  lemma ConsSlice<T>(s: seq<T>, k: nat)
    requires k < |s|
    ensures s[k..] == [s[k]] + s[k + 1..]
  {
  }

  // ---------------------------------------------------------------------
  // `in` and replace()

  predicate StartsWith(s: string, prefix: string) {
    |prefix| <= |s| && s[..|prefix|] == prefix
  }

  /** Python's `sub in s`. */
  predicate Contains(s: string, sub: string)
    decreases |s|
  {
    StartsWith(s, sub) || (|s| > 0 && Contains(s[1..], sub))
  }

  /** `s.replace('', ins)`: `ins` before every character and at the end. */
  function InsertEverywhere(s: string, ins: string): (r: string)
    ensures |r| == |s| + (|s| + 1) * |ins|
  {
    if |s| == 0 then ins else ins + [s[0]] + InsertEverywhere(s[1..], ins)
  }

  /** `s.replace(pat, sub)`: every non-overlapping occurrence of `pat`, found
      scanning from the left, is replaced by `sub`; the match is literal and
      case-sensitive. */
  function Replace(s: string, pat: string, sub: string): string
    decreases |s|
  {
    if |pat| == 0 then InsertEverywhere(s, sub)
    else if |s| < |pat| then s
    else if s[..|pat|] == pat then sub + Replace(s[|pat|..], pat, sub)
    else [s[0]] + Replace(s[1..], pat, sub)
  }

  /** Text in which the pattern does not occur comes back unchanged. */
  lemma {:induction false} ReplaceAbsent(s: string, pat: string, sub: string)
    requires !Contains(s, pat)
    ensures Replace(s, pat, sub) == s
    decreases |s|
  {
    if |pat| > 0 && |s| >= |pat| {
      assert s[..|pat|] != pat;
      ReplaceAbsent(s[1..], pat, sub);
      assert s == [s[0]] + s[1..];
    }
  }

  /** Replacing a phrase by itself never changes the text. */
  lemma {:induction false} ReplaceSelf(s: string, pat: string)
    ensures Replace(s, pat, pat) == s
    decreases |s|
  {
    if |pat| == 0 {
      assert pat == [];
      InsertNothing(s);
    } else if |s| >= |pat| {
      if s[..|pat|] == pat {
        ReplaceSelf(s[|pat|..], pat);
        assert s == s[..|pat|] + s[|pat|..];
      } else {
        ReplaceSelf(s[1..], pat);
        assert s == [s[0]] + s[1..];
      }
    }
  }

  lemma {:induction false} InsertNothing(s: string)
    ensures InsertEverywhere(s, []) == s
    decreases |s|
  {
    if |s| > 0 {
      InsertNothing(s[1..]);
      assert s == [s[0]] + s[1..];
    }
  }

  /** A pattern that starts with a non-space character, replaced by a clean
      phrase, keeps a single-spaced text single-spaced, and keeps whether
      the text starts with whitespace. */
  lemma {:induction false} ReplaceKeepsSingleSpaced(s: string, pat: string, sub: string)
    requires SingleSpaced(s) && |pat| > 0 && !IsSpace(pat[0]) && CleanPhrase(sub)
    ensures SingleSpaced(Replace(s, pat, sub))
    ensures |Replace(s, pat, sub)| == 0 <==> |s| == 0
    ensures |s| > 0 ==> (IsSpace(Replace(s, pat, sub)[0]) <==> IsSpace(s[0]))
    decreases |s|
  {
    var r := Replace(s, pat, sub);
    if |s| >= |pat| {
      if s[..|pat|] == pat {
        var t := s[|pat|..];
        SingleSpacedSlice(s, |pat|, |s|);
        ReplaceKeepsSingleSpaced(t, pat, sub);
        SingleSpacedConcat(sub, Replace(t, pat, sub));
        assert s[0] == pat[0];
      } else {
        var t := s[1..];
        SingleSpacedSlice(s, 1, |s|);
        ReplaceKeepsSingleSpaced(t, pat, sub);
        if |t| > 0 {
          assert t[0] == s[1];
          assert !SpaceRunAt(s, 0);
        }
        SingleSpacedConcat([s[0]], Replace(t, pat, sub));
      }
    }
  }

  /** A pattern that starts with a non-space character does not occur in a
      text made only of whitespace. */
  lemma {:induction false} NotInSpaces(s: string, pat: string)
    requires forall i :: 0 <= i < |s| ==> IsSpace(s[i])
    requires |pat| > 0 && !IsSpace(pat[0])
    ensures !Contains(s, pat)
    decreases |s|
  {
    if |s| > 0 {
      NotInSpaces(s[1..], pat);
      if |pat| <= |s| {
        assert s[..|pat|][0] == s[0];
      }
    }
  }

  /** A whitespace character other than ' ' does not occur in a
      single-spaced text. */
  lemma {:induction false} NoOtherSpace(s: string, c: char)
    requires SingleSpaced(s) && IsSpace(c) && c != ' '
    ensures !Contains(s, [c])
    decreases |s|
  {
    if |s| > 0 {
      SingleSpacedSlice(s, 1, |s|);
      NoOtherSpace(s[1..], c);
      assert s[..1] == [s[0]];
    }
  }

  /** A string placed between two others occurs in the concatenation. */
  lemma {:induction false} ContainsMiddle(a: string, b: string, c: string)
    ensures Contains(a + b + c, b)
    decreases |a|
  {
    if |a| == 0 {
      assert a + b + c == b + c;
      assert (b + c)[..|b|] == b;
    } else {
      assert (a + b + c)[1..] == a[1..] + b + c;
      ContainsMiddle(a[1..], b, c);
    }
  }

  // ---------------------------------------------------------------------
  // lower()

  function LowerChar(c: char): (d: char)
    ensures 'A' <= c <= 'Z' ==> 'a' <= d <= 'z' && d as int - c as int == 32
    ensures !('A' <= c <= 'Z') ==> d == c
  {
    if 'A' <= c <= 'Z' then (c as int + 32) as char else c
  }

  /** `s.lower()`, restricted to ASCII letters. */
  function Lower(s: string): (r: string)
    ensures |r| == |s|
    ensures forall i :: 0 <= i < |s| ==> r[i] == LowerChar(s[i])
  {
    if |s| == 0 then [] else [LowerChar(s[0])] + Lower(s[1..])
  }
}

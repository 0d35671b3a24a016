/** How `translate_text` cuts preprocessed text into the pieces it sends to
    the translation pipeline: sentences split after '.', '!' or '?', grouped
    three at a time, or 25-word windows for one long unpunctuated
    sentence. */
module Chunking {
  import opened Text

  /** Sentences per chunk. */
  const SentencesPerChunk := 3
  /** Words per window when a single sentence is cut by words. */
  const WordsPerWindow := 25
  /** A lone sentence with more words than this is cut by words. */
  const LongSentenceWords := 30

  predicate IsSentenceEnd(c: char) {
    c == '.' || c == '!' || c == '?'
  }

  /** Position `k` starts a whitespace run that `(?<=[.!?])\s+` matches. */
  predicate BreakAt(s: string, k: int) {
    0 < k < |s| && IsSentenceEnd(s[k - 1]) && IsSpace(s[k])
  }

  /** The first break at or after `i`, or `|s|` when there is none. */
  function NextBreak(s: string, i: nat): (k: nat)
    requires i <= |s|
    ensures i <= k <= |s|
    ensures k < |s| ==> BreakAt(s, k)
    ensures forall j :: i <= j < k ==> !BreakAt(s, j)
    decreases |s| - i
  {
    if i == |s| then |s|
    else if BreakAt(s, i) then i
    else NextBreak(s, i + 1)
  }

  /** `re.split(r'(?<=[.!?])\s+', s)`: the pieces between the maximal
      whitespace runs that follow a sentence-ending character. The split
      keeps empty pieces, such as the one after trailing whitespace. */
  function RegexSplit(s: string): (r: seq<string>)
    ensures |r| > 0
    decreases |s|
  {
    var k := NextBreak(s, 0);
    if k == |s| then [s]
    else
      var rest := StripLeft(s[k..]);
      [s[..k]] + RegexSplit(rest)
  }

  /** `[p for p in ps if p.strip()]` */
  function NonBlank(ps: seq<string>): (r: seq<string>)
    ensures |r| <= |ps|
    ensures forall i :: 0 <= i < |r| ==> |Strip(r[i])| > 0
  {
    if |ps| == 0 then []
    else if |Strip(ps[0])| > 0 then [ps[0]] + NonBlank(ps[1..])
    else NonBlank(ps[1..])
  }

  /** `split_into_sentences(text)` */
  function SplitIntoSentences(text: string): seq<string> {
    NonBlank(RegexSplit(Strip(text)))
  }

  /** `[xs[i:i+k] for i in range(0, len(xs), k)]`: consecutive slices of
      `k` items, the last one holding what remains. */
  function Groups<T>(xs: seq<T>, k: nat): (r: seq<seq<T>>)
    requires k > 0
    ensures forall i :: 0 <= i < |r| ==> 0 < |r[i]| <= k
    ensures forall i :: 0 <= i < |r| - 1 ==> |r[i]| == k
    decreases |xs|
  {
    if |xs| == 0 then []
    else if |xs| <= k then [xs]
    else [xs[..k]] + Groups(xs[k..], k)
  }

  /** There are ceil(|xs| / k) groups: `n` groups of at most `k` items
      hold all of `xs`, and `n - 1` of them would not. */
  lemma {:induction false} GroupCount<T>(xs: seq<T>, k: nat)
    requires k > 0
    ensures var n := |Groups(xs, k)|; (n - 1) * k < |xs| <= n * k
    decreases |xs|
  {
    if |xs| > k {
      GroupCount(xs[k..], k);
      var n := |Groups(xs[k..], k)|;
      MulStep(n, k);
      MulStep(n - 1, k);
    }
  }

  lemma MulStep(n: int, k: int)
    ensures (n + 1) * k == n * k + k
  {
  }

  /** Group `i` is the slice `xs[i*k : i*k+k]`, cut at the end of `xs`. */
  lemma {:induction false} GroupAt<T>(xs: seq<T>, k: nat, i: nat)
    requires k > 0 && i < |Groups(xs, k)|
    ensures i * k < |xs| && Groups(xs, k)[i] == xs[i * k..Min(i * k + k, |xs|)]
    decreases |xs|
  {
    if i == 0 {
      if |xs| <= k {
        assert xs[0..|xs|] == xs;
      }
    } else {
      GroupsTail(xs, k, i);
      var rest := xs[k..];
      GroupAt(rest, k, i - 1);
      var lo := (i - 1) * k;
      var hi := Min(lo + k, |rest|);
      ShiftBounds(i, k, |xs|);
      SliceOfDrop(xs, k, lo, hi);
    }
  }

  /** Past the first group, the groups are those of the rest. */
  lemma GroupsTail<T>(xs: seq<T>, k: nat, i: nat)
    requires k > 0 && 0 < i < |Groups(xs, k)|
    ensures |xs| > k && i - 1 < |Groups(xs[k..], k)| && Groups(xs, k)[i] == Groups(xs[k..], k)[i - 1]
  {
  }

  lemma ShiftBounds(i: nat, k: nat, n: int)
    requires i > 0
    ensures (i - 1) * k + k == i * k
    ensures Min((i - 1) * k + k, n - k) + k == Min(i * k + k, n)
  {
    MulStep(i - 1, k);
  }

  lemma SliceOfDrop<T>(xs: seq<T>, k: nat, lo: nat, hi: nat)
    requires k <= |xs| && lo <= hi <= |xs| - k
    ensures xs[k..][lo..hi] == xs[lo + k..hi + k]
  {
  }

  function Min(a: int, b: int): int {
    if a < b then a else b
  }

  /** `' '.join(...)` of every group. */
  function JoinEach(gs: seq<seq<string>>): (r: seq<string>)
    ensures |r| == |gs|
    ensures forall i :: 0 <= i < |r| ==> r[i] == JoinSpace(gs[i])
  {
    if |gs| == 0 then [] else [JoinSpace(gs[0])] + JoinEach(gs[1..])
  }

  /** `chunk_sentences(sentences, chunk_size=3)` */
  function ChunkSentences(sentences: seq<string>): seq<string> {
    JoinEach(Groups(sentences, SentencesPerChunk))
  }

  /** `chunk_by_words(text, word_chunk_size=25)` */
  function ChunkByWords(text: string): seq<string> {
    JoinEach(Groups(SplitWords(Strip(text)), WordsPerWindow))
  }

  /** The chunks of a preprocessed text: 25-word windows when the text is a
      single sentence of more than 30 words, otherwise groups of three
      sentences. */
  function Chunks(text: string): seq<string> {
    ChunksOf(SplitIntoSentences(text))
  }

  function ChunksOf(sentences: seq<string>): seq<string> {
    if |sentences| == 1 && |SplitWords(sentences[0])| > LongSentenceWords then
      ChunkByWords(sentences[0])
    else
      ChunkSentences(sentences)
  }

  // ---------------------------------------------------------------------
  // Properties

  /** The groups, put back together, are the original sequence. */
  lemma {:induction false} GroupsFlatten<T>(xs: seq<T>, k: nat)
    requires k > 0
    ensures Flatten(Groups(xs, k)) == xs
    decreases |xs|
  {
    if |xs| > k {
      GroupsFlatten(xs[k..], k);
      assert xs[..k] + xs[k..] == xs;
    } else if |xs| > 0 {
      assert Flatten<T>([]) == [];
      assert xs + [] == xs;
    }
  }

  /** Joining every group with ' ' and then joining the results with ' '
      gives the same text as joining all the items with ' '. */
  lemma {:induction false} JoinGroups(xs: seq<string>, k: nat)
    requires k > 0
    ensures JoinSpace(JoinEach(Groups(xs, k))) == JoinSpace(xs)
    decreases |xs|
  {
    if |xs| > k {
      var rest := xs[k..];
      JoinGroups(rest, k);
      var gs := Groups(rest, k);
      assert |gs| > 0;
      assert JoinEach(Groups(xs, k)) == [JoinSpace(xs[..k])] + JoinEach(gs);
      assert JoinSpace(JoinEach(Groups(xs, k))) == JoinSpace(xs[..k]) + " " + JoinSpace(rest);
      JoinAppend(xs[..k], rest);
      assert xs[..k] + rest == xs;
    } else if |xs| > 0 {
      assert JoinEach(Groups(xs, k)) == [JoinSpace(xs)];
    }
  }

  /** Joining clean phrases with single spaces gives a clean phrase. */
  lemma {:induction false} JoinClean(xs: seq<string>)
    requires |xs| > 0 && forall i :: 0 <= i < |xs| ==> CleanPhrase(xs[i])
    ensures CleanPhrase(JoinSpace(xs))
  {
    if |xs| > 1 {
      var rest := JoinSpace(xs[1..]);
      JoinClean(xs[1..]);
      SingleSpacedConcat(xs[0], " ");
      SingleSpacedConcat(xs[0] + " ", rest);
      var j := xs[0] + " " + rest;
      assert j[0] == xs[0][0];
      assert j[|j| - 1] == rest[|rest| - 1];
    }
  }

  /** Filtering out blank pieces keeps the pieces exactly when every one of
      them has text once stripped. */
  lemma NonBlankKeepsText(ps: seq<string>)
    ensures NonBlank(ps) == ps <==> forall i :: 0 <= i < |ps| ==> |Strip(ps[i])| > 0
  {
    if forall i :: 0 <= i < |ps| ==> |Strip(ps[i])| > 0 {
      AllTextKept(ps);
    }
  }

  lemma {:induction false} AllTextKept(ps: seq<string>)
    requires forall i :: 0 <= i < |ps| ==> |Strip(ps[i])| > 0
    ensures NonBlank(ps) == ps
  {
    if |ps| > 0 {
      assert |Strip(ps[0])| > 0;
      AllTextKept(ps[1..]);
      ConsSlice(ps, 0);
    }
  }

  /** Filtering a concatenation filters each part. */
  lemma {:induction false} NonBlankAppend(a: seq<string>, b: seq<string>)
    ensures NonBlank(a + b) == NonBlank(a) + NonBlank(b)
    decreases |a|
  {
    if |a| == 0 {
      assert a + b == b;
    } else {
      var head := if |Strip(a[0])| > 0 then [a[0]] else [];
      NonBlankAppend(a[1..], b);
      NonBlankCons(a, head);
      NonBlankCons(a + b, head);
      TailOfAppend(a, b);
      AppendAssoc(head, NonBlank(a[1..]), NonBlank(b));
    }
  }

  lemma NonBlankCons(ps: seq<string>, head: seq<string>)
    requires |ps| > 0 && head == if |Strip(ps[0])| > 0 then [ps[0]] else []
    ensures NonBlank(ps) == head + NonBlank(ps[1..])
  {
  }

  lemma TailOfAppend<T>(a: seq<T>, b: seq<T>)
    requires |a| > 0
    ensures (a + b)[0] == a[0] && (a + b)[1..] == a[1..] + b
  {
  }

  lemma AppendAssoc<T>(a: seq<T>, b: seq<T>, c: seq<T>)
    ensures a + (b + c) == (a + b) + c
  {
  }

  /** A piece survives the filter exactly when it is one of the pieces and
      has text once stripped. */
  lemma {:induction false} NonBlankMembers(ps: seq<string>)
    ensures forall p :: p in NonBlank(ps) <==> p in ps && |Strip(p)| > 0
    decreases |ps|
  {
    if |ps| > 0 {
      NonBlankMembers(ps[1..]);
      ConsSlice(ps, 0);
    }
  }

  /** A clean phrase is not blank. */
  lemma CleanIsNotBlank(p: string)
    requires CleanPhrase(p)
    ensures |Strip(p)| > 0
  {
    assert !IsSpace(p[0]);
  }

  /** At a break of a normalized text there is exactly one ' ', with a
      clean sentence before it and normalized text after it. */
  lemma SentenceBreak(s: string, k: nat)
    requires Normalized(s) && BreakAt(s, k)
    ensures s[k] == ' '
    ensures CleanPhrase(s[..k]) && Normalized(s[k + 1..]) && |s[k + 1..]| > 0
    ensures StripLeft(s[k..]) == s[k + 1..]
  {
    assert s[k] == ' ' && k + 1 < |s|;
    assert !SpaceRunAt(s, k);
    SingleSpacedSlice(s, 0, k);
    SingleSpacedSlice(s, k + 1, |s|);
    EndsOfSlices(s, k);
    ConsSlice(s, k);
    StripLeftSkipsSpace(' ', s[k + 1..]);
  }

  /** The end characters of the two sides of position `k`. */
  lemma EndsOfSlices(s: string, k: nat)
    requires 0 < k && k + 1 < |s|
    ensures s[..k][0] == s[0] && s[..k][k - 1] == s[k - 1]
    ensures s[k + 1..][0] == s[k + 1] && s[k + 1..][|s| - k - 2] == s[|s| - 1]
  {
  }

  /** Where `re.split` cuts: every piece but the last ends with '.', '!' or
      '?', and no piece holds a further sentence-ending character followed
      by whitespace. */
  lemma RegexSplitCuts(s: string)
    ensures var r := RegexSplit(s);
      && (forall i :: 0 <= i < |r| - 1 ==> |r[i]| > 0 && IsSentenceEnd(r[i][|r[i]| - 1]))
      && (forall i, j :: 0 <= i < |r| ==> !BreakAt(r[i], j))
  {
    RegexSplitEnds(s);
    RegexSplitNoBreak(s);
  }

  /** Every piece but the last ends with a sentence-ending character. */
  predicate EndAtSentenceEnds(r: seq<string>) {
    forall i :: 0 <= i < |r| - 1 ==> |r[i]| > 0 && IsSentenceEnd(r[i][|r[i]| - 1])
  }

  /** No piece holds a sentence-ending character followed by whitespace. */
  predicate HoldNoBreak(r: seq<string>) {
    forall i, j :: 0 <= i < |r| && 0 <= j < |r[i]| ==> !BreakAt(r[i], j)
  }

  lemma {:induction false} RegexSplitEnds(s: string)
    ensures EndAtSentenceEnds(RegexSplit(s))
    decreases |s|
  {
    var k := NextBreak(s, 0);
    if k < |s| {
      var rest := StripLeft(s[k..]);
      RegexSplitEnds(rest);
      assert s[..k][k - 1] == s[k - 1];
      EndsCons(s[..k], RegexSplit(rest));
    }
  }

  lemma EndsCons(x: string, ps: seq<string>)
    requires |x| > 0 && IsSentenceEnd(x[|x| - 1]) && EndAtSentenceEnds(ps)
    ensures EndAtSentenceEnds([x] + ps)
  {
    var r := [x] + ps;
    forall i | 0 < i < |r| - 1 ensures |r[i]| > 0 && IsSentenceEnd(r[i][|r[i]| - 1]) {
      assert r[i] == ps[i - 1];
    }
  }

  lemma {:induction false} RegexSplitNoBreak(s: string)
    ensures HoldNoBreak(RegexSplit(s))
    decreases |s|
  {
    var k := NextBreak(s, 0);
    NoBreakInPrefix(s, k);
    if k < |s| {
      var rest := StripLeft(s[k..]);
      RegexSplitNoBreak(rest);
      NoBreakCons(s[..k], RegexSplit(rest));
    } else {
      assert s[..k] == s;
    }
  }

  lemma NoBreakCons(x: string, ps: seq<string>)
    requires (forall j :: !BreakAt(x, j)) && HoldNoBreak(ps)
    ensures HoldNoBreak([x] + ps)
  {
    var r := [x] + ps;
    forall i, j | 0 < i < |r| && 0 <= j < |r[i]| ensures !BreakAt(r[i], j) {
      assert r[i] == ps[i - 1];
    }
  }

  /** The same holds of the sentences: filtering blanks out of the pieces
      can only drop the last one. */
  lemma SentencesCuts(text: string)
    ensures var r := SplitIntoSentences(text);
      && (forall i :: 0 <= i < |r| - 1 ==> |r[i]| > 0 && IsSentenceEnd(r[i][|r[i]| - 1]))
      && (forall i, j :: 0 <= i < |r| ==> !BreakAt(r[i], j))
  {
    var ps := RegexSplit(Strip(text));
    RegexSplitEnds(Strip(text));
    RegexSplitNoBreak(Strip(text));
    DropsAtMostLast(ps);
    CutsOfPrefix(NonBlank(ps), ps);
  }

  lemma CutsOfPrefix(r: seq<string>, ps: seq<string>)
    requires |ps| > 0 && EndAtSentenceEnds(ps) && HoldNoBreak(ps)
    requires r == ps || r == ps[..|ps| - 1]
    ensures (forall i :: 0 <= i < |r| - 1 ==> |r[i]| > 0 && IsSentenceEnd(r[i][|r[i]| - 1]))
    ensures forall i, j :: 0 <= i < |r| ==> !BreakAt(r[i], j)
  {
    if r == ps {
      PrefixKeepsCuts(ps, |ps|);
      FullSlice(ps);
    } else {
      PrefixKeepsCuts(ps, |ps| - 1);
    }
  }

  /** Pieces that all but the last end with a sentence-ending character lose
      at most the last one to the blank filter. */
  lemma DropsAtMostLast(ps: seq<string>)
    requires |ps| > 0 && EndAtSentenceEnds(ps)
    ensures NonBlank(ps) == ps || NonBlank(ps) == ps[..|ps| - 1]
  {
    var n := |ps| - 1;
    var init := ps[..n];
    forall i | 0 <= i < |init| ensures |Strip(init[i])| > 0 {
      EndIsNotBlank(init[i]);
    }
    AllTextKept(init);
    SplitLast(ps);
    NonBlankAppend(init, [ps[n]]);
    if |Strip(ps[n])| > 0 {
      assert NonBlank([ps[n]]) == [ps[n]];
    } else {
      assert NonBlank([ps[n]]) == [];
    }
  }

  lemma SplitLast<T>(s: seq<T>)
    requires |s| > 0
    ensures s == s[..|s| - 1] + [s[|s| - 1]]
  {
  }

  lemma FullSlice<T>(s: seq<T>)
    ensures s[..|s|] == s
  {
  }

  lemma PrefixKeepsCuts(ps: seq<string>, n: nat)
    requires n <= |ps| && EndAtSentenceEnds(ps) && HoldNoBreak(ps)
    ensures EndAtSentenceEnds(ps[..n]) && HoldNoBreak(ps[..n])
  {
    var r := ps[..n];
    forall i | 0 <= i < |r| ensures r[i] == ps[i] {
    }
  }

  /** A piece that ends with a sentence-ending character is not blank. */
  lemma EndIsNotBlank(p: string)
    requires |p| > 0 && IsSentenceEnd(p[|p| - 1])
    ensures |Strip(p)| > 0
  {
    assert !IsSpace(p[|p| - 1]);
  }

  /** A prefix that holds no break of the whole text holds none of its own. */
  lemma NoBreakInPrefix(s: string, k: nat)
    requires k <= |s| && forall j :: 0 <= j < k ==> !BreakAt(s, j)
    ensures forall j :: !BreakAt(s[..k], j)
  {
    forall j | BreakAt(s[..k], j) ensures false {
      assert BreakAt(s, j);
    }
  }

  /** Splitting a non-empty normalized text at sentence ends gives clean
      sentences that, joined with single spaces, are the text again. */
  lemma {:induction false} RegexSplitNormalized(s: string)
    requires Normalized(s) && |s| > 0
    ensures forall i :: 0 <= i < |RegexSplit(s)| ==> CleanPhrase(RegexSplit(s)[i])
    ensures JoinSpace(RegexSplit(s)) == s
    decreases |s|
  {
    var k := NextBreak(s, 0);
    if k < |s| {
      var first, rest := s[..k], s[k + 1..];
      SentenceBreak(s, k);
      RegexSplitNormalized(rest);
      var ps := RegexSplit(rest);
      var r := RegexSplit(s);
      assert r == [first] + ps;
      forall i | 0 <= i < |r| ensures CleanPhrase(r[i]) {
        if i > 0 {
          assert r[i] == ps[i - 1];
        }
      }
      assert JoinSpace(r) == s by {
        JoinAppend([first], ps);
        SplitAround(s, k);
      }
    }
  }

  /** The sentences of a normalized text are clean and, joined with single
      spaces, give the text back; the empty text has no sentences. */
  lemma SentencesRoundTrip(t: string)
    requires Normalized(t)
    ensures forall i :: 0 <= i < |SplitIntoSentences(t)| ==> CleanPhrase(SplitIntoSentences(t)[i])
    ensures JoinSpace(SplitIntoSentences(t)) == t
    ensures |SplitIntoSentences(t)| == 0 <==> |t| == 0
  {
    if |t| == 0 {
      assert RegexSplit(Strip(t)) == [""];
    } else {
      assert Strip(t) == t;
      RegexSplitNormalized(t);
      var ps := RegexSplit(t);
      forall i | 0 <= i < |ps| ensures |Strip(ps[i])| > 0 {
        CleanIsNotBlank(ps[i]);
      }
      NonBlankKeepsText(ps);
    }
  }

  /** The chunks of a normalized text are clean (so none is skipped as
      blank) and, joined with single spaces, give the text back. */
  lemma ChunksRoundTrip(t: string)
    requires Normalized(t)
    ensures forall i :: 0 <= i < |Chunks(t)| ==> CleanPhrase(Chunks(t)[i])
    ensures JoinSpace(Chunks(t)) == t
    ensures |Chunks(t)| == 0 <==> |t| == 0
  {
    SentencesRoundTrip(t);
    ChunksOfRoundTrip(SplitIntoSentences(t));
  }

  /** The chunks of clean sentences are clean and, joined with single
      spaces, give the joined sentences. */
  lemma ChunksOfRoundTrip(ss: seq<string>)
    requires forall i :: 0 <= i < |ss| ==> CleanPhrase(ss[i])
    ensures forall i :: 0 <= i < |ChunksOf(ss)| ==> CleanPhrase(ChunksOf(ss)[i])
    ensures JoinSpace(ChunksOf(ss)) == JoinSpace(ss)
    ensures |ChunksOf(ss)| == 0 <==> |ss| == 0
  {
    if |ss| == 1 && |SplitWords(ss[0])| > LongSentenceWords {
      WindowsRoundTrip(ss[0]);
    } else {
      SentenceChunksRoundTrip(ss);
    }
  }

  /** Groups of three clean sentences are clean and, joined with single
      spaces, give the joined sentences. */
  lemma SentenceChunksRoundTrip(ss: seq<string>)
    requires forall i :: 0 <= i < |ss| ==> CleanPhrase(ss[i])
    ensures forall i :: 0 <= i < |ChunkSentences(ss)| ==> CleanPhrase(ChunkSentences(ss)[i])
    ensures JoinSpace(ChunkSentences(ss)) == JoinSpace(ss)
    ensures |ChunkSentences(ss)| == 0 <==> |ss| == 0
  {
    JoinGroups(ss, SentencesPerChunk);
    GroupsAreClean(ss, SentencesPerChunk);
    GroupCount(ss, SentencesPerChunk);
  }

  /** The word windows of a clean sentence are clean and, joined with single
      spaces, give the sentence back. */
  lemma WindowsRoundTrip(s: string)
    requires CleanPhrase(s)
    ensures forall i :: 0 <= i < |ChunkByWords(s)| ==> CleanPhrase(ChunkByWords(s)[i])
    ensures JoinSpace(ChunkByWords(s)) == s
    ensures |ChunkByWords(s)| > 0
  {
    assert Strip(s) == s;
    var words := SplitWords(s);
    WordsRoundTrip(s);
    WordsAreClean(s);
    JoinGroups(words, WordsPerWindow);
    GroupsAreClean(words, WordsPerWindow);
    GroupCount(words, WordsPerWindow);
  }

  lemma GroupsAreClean(xs: seq<string>, k: nat)
    requires k > 0 && forall i :: 0 <= i < |xs| ==> CleanPhrase(xs[i])
    ensures forall i :: 0 <= i < |JoinEach(Groups(xs, k))| ==> CleanPhrase(JoinEach(Groups(xs, k))[i])
  {
    var gs := Groups(xs, k);
    forall i | 0 <= i < |gs| ensures CleanPhrase(JoinSpace(gs[i])) {
      GroupAt(xs, k, i);
      JoinClean(gs[i]);
    }
  }

  /** Words are clean phrases. */
  lemma WordsAreClean(s: string)
    ensures forall i :: 0 <= i < |SplitWords(s)| ==> CleanPhrase(SplitWords(s)[i])
  {
    var ws := SplitWords(s);
    forall i | 0 <= i < |ws| ensures CleanPhrase(ws[i]) {
      WordIsClean(ws[i]);
    }
  }

  lemma WordIsClean(w: string)
    requires IsWord(w)
    ensures CleanPhrase(w)
  {
    assert !IsSpace(w[0]) && !IsSpace(w[|w| - 1]);
    assert forall i | 0 <= i < |w| - 1 :: !SpaceRunAt(w, i);
  }

  /** 60 words are cut into windows of 25, 25 and 10 words. */
  lemma SixtyWordsWindows<T>(words: seq<T>)
    requires |words| == 60
    ensures var g := Groups(words, WordsPerWindow);
      |g| == 3 && |g[0]| == 25 && |g[1]| == 25 && |g[2]| == 10
  {
    GroupCount(words, WordsPerWindow);
    GroupsFlatten(words, WordsPerWindow);
    var g := Groups(words, WordsPerWindow);
    GroupAt(words, WordsPerWindow, 2);
  }

  /** Every word window holds 25 words except the last, which holds the
      remaining 1 to 25. */
  lemma WindowSizes(s: string)
    ensures forall i :: 0 <= i < |ChunkByWords(s)| ==>
      0 < |SplitWords(ChunkByWords(s)[i])| <= WordsPerWindow
      && (i < |ChunkByWords(s)| - 1 ==> |SplitWords(ChunkByWords(s)[i])| == WordsPerWindow)
  {
    var words := SplitWords(Strip(s));
    var gs := Groups(words, WordsPerWindow);
    var cs := ChunkByWords(s);
    forall i | 0 <= i < |cs|
      ensures 0 < |SplitWords(cs[i])| <= WordsPerWindow
      ensures i < |cs| - 1 ==> |SplitWords(cs[i])| == WordsPerWindow
    {
      assert cs[i] == JoinSpace(gs[i]);
      GroupOfWordsRoundTrip(words, WordsPerWindow, i);
    }
  }

  /** A group of words, joined with single spaces, splits back into the
      same words. */
  lemma GroupOfWordsRoundTrip(words: seq<string>, k: nat, i: nat)
    requires k > 0 && i < |Groups(words, k)|
    requires forall j :: 0 <= j < |words| ==> IsWord(words[j])
    ensures SplitWords(JoinSpace(Groups(words, k)[i])) == Groups(words, k)[i]
  {
    GroupOfWords(words, k, i);
    JoinSplitRoundTrip(Groups(words, k)[i]);
  }

  lemma GroupOfWords(words: seq<string>, k: nat, i: nat)
    requires k > 0 && i < |Groups(words, k)|
    requires forall j :: 0 <= j < |words| ==> IsWord(words[j])
    ensures forall j :: 0 <= j < |Groups(words, k)[i]| ==> IsWord(Groups(words, k)[i][j])
  {
    GroupAt(words, k, i);
    var lo := i * k;
    var g := Groups(words, k)[i];
    forall j | 0 <= j < |g| ensures IsWord(g[j]) {
      assert g[j] == words[lo + j];
    }
  }
}

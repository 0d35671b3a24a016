/** The FLORES-200 merge script: tab-separated (English, target) pairs are
    added to the nested manual dictionary without overwriting anything, and
    the dictionary block of the dictionary module's source lines is
    replaced. Reading and writing files is abstracted: a file is its list
    of lines, a missing file is a language absent from the `files` map, and
    the pretty-printed dictionary is a parameter. */
module FloresMerge {
  import opened Wrappers
  import opened Text

  /** Language code to (English phrase to translation). */
  type Dict = map<string, map<string, string>>

  /** A parsed line: the English phrase and its translation. */
  type Pair = (string, string)

  /** `FLORES_LANGS`, in iteration order; each key is both the file suffix
      and the dictionary's language code. */
  const FloresLangs: seq<string> := ["hi", "bn", "gu", "as", "kn", "ml", "mr", "or", "pa", "ta", "te", "ur"]

  const StartMarker := "MANUAL_DICTIONARIES ="
  const EndMarker := "def replace_with_manual_dictionary"

  /** Pieces joined back together with `sep` between them. */
  function JoinWith(pieces: seq<string>, sep: char): string {
    if |pieces| == 0 then ""
    else if |pieces| == 1 then pieces[0]
    else pieces[0] + [sep] + JoinWith(pieces[1..], sep)
  }

  /** `s.split(sep)` with an explicit separator: the pieces between the
      separators, empty ones included. */
  function SplitOn(s: string, sep: char): (r: seq<string>)
    ensures |r| > 0
    ensures JoinWith(r, sep) == s
    ensures forall i :: 0 <= i < |r| ==> sep !in r[i]
  {
    if |s| == 0 then [""]
    else
      var rest := SplitOn(s[1..], sep);
      if s[0] == sep then [""] + rest
      else
        assert JoinWith([[s[0]] + rest[0]] + rest[1..], sep) == [s[0]] + JoinWith(rest, sep);
        [[s[0]] + rest[0]] + rest[1..]
  }

  /** `en, tgt = line.strip().split('\t')`: `None` when the unpacking
      fails, i.e. when the stripped line does not hold exactly one tab. */
  function ParseLine(line: string): Option<Pair> {
    var pieces := SplitOn(Strip(line), '\t');
    if |pieces| == 2 then Some((pieces[0], pieces[1])) else None
  }

  /** A parsed line is the stripped line cut at its only tab. */
  lemma ParsedShape(line: string)
    requires ParseLine(line).Some?
    ensures Strip(line) == ParseLine(line).value.0 + "\t" + ParseLine(line).value.1
    ensures '\t' !in ParseLine(line).value.0 && '\t' !in ParseLine(line).value.1
  {
    var pieces := SplitOn(Strip(line), '\t');
    assert |pieces| == 2 && ParseLine(line).value == (pieces[0], pieces[1]);
    assert pieces[1..] == [pieces[1]];
    assert JoinWith(pieces[1..], '\t') == pieces[1];
    assert Strip(line) == JoinWith(pieces, '\t') == pieces[0] + ['\t'] + pieces[1];
    assert '\t' !in pieces[0] && '\t' !in pieces[1] by {
      assert forall i :: 0 <= i < |pieces| ==> '\t' !in pieces[i];
    }
  }

  /** The source skips pairs with an empty side, but such a pair cannot
      come out of the parse: stripping removed any tab at either end. */
  lemma ParsedSidesNonEmpty(line: string)
    requires ParseLine(line).Some?
    ensures |ParseLine(line).value.0| > 0 && |ParseLine(line).value.1| > 0
  {
    var s := Strip(line);
    var (en, tgt) := ParseLine(line).value;
    ParsedShape(line);
    assert s == en + "\t" + tgt;
    assert !IsSpace(s[0]) && !IsSpace(s[|s| - 1]);
  }

  /** A stripped line with exactly one tab parses into the text on either
      side of it. */
  lemma OneTabParses(en: string, tgt: string)
    requires '\t' !in en && '\t' !in tgt
    requires |en| > 0 && !IsSpace(en[0]) && |tgt| > 0 && !IsSpace(tgt[|tgt| - 1])
    ensures ParseLine(en + "\t" + tgt) == Some((en, tgt))
  {
    var s := en + "\t" + tgt;
    assert s[0] == en[0] && s[|s| - 1] == tgt[|tgt| - 1];
    var pieces := SplitOn(s, '\t');
    SplitOfJoin(en, tgt, '\t');
  }

  lemma {:induction false} SplitOfJoin(a: string, b: string, sep: char)
    requires sep !in a && sep !in b
    ensures SplitOn(a + [sep] + b, sep) == [a, b]
    decreases |a|
  {
    if |a| == 0 {
      assert a + [sep] + b == [sep] + b;
      assert ([sep] + b)[1..] == b;
      SplitNoSep(b, sep);
    } else {
      assert (a + [sep] + b)[1..] == a[1..] + [sep] + b;
      SplitOfJoin(a[1..], b, sep);
      assert [a[0]] + a[1..] == a;
    }
  }

  lemma {:induction false} SplitNoSep(s: string, sep: char)
    requires sep !in s
    ensures SplitOn(s, sep) == [s]
    decreases |s|
  {
    if |s| > 0 {
      SplitNoSep(s[1..], sep);
      assert [s[0]] + s[1..] == s;
    }
  }

  /** A blank line aborts the merge: it has no tab at all. */
  lemma BlankLineAborts(line: string)
    requires forall i :: 0 <= i < |line| ==> IsSpace(line[i])
    ensures ParseLine(line).None?
  {
    assert Strip(line) == "";
  }

  /** The table of one language, empty when it has none yet. */
  function Table(d: Dict, lang: string): map<string, string> {
    if lang in d then d[lang] else map[]
  }

  /** `r` keeps every language and every entry of `d`, values included. */
  ghost predicate Extends(d: Dict, r: Dict) {
    forall l :: l in d ==> l in r && d[l].Items <= r[l].Items
  }

  lemma ExtendsTransitive(a: Dict, b: Dict, c: Dict)
    requires Extends(a, b) && Extends(b, c)
    ensures Extends(a, c)
  {
  }

  /** Only the table of `lang` may differ between `d` and `r`. */
  ghost predicate OthersUntouched(d: Dict, r: Dict, lang: string) {
    r - {lang} == d - {lang}
  }

  /** One pair added the way the loop body adds it: the language's table is
      created when missing, and the phrase is added only when absent. */
  function AddPair(d: Dict, lang: string, en: string, tgt: string): (r: Dict)
    ensures Extends(d, r) && OthersUntouched(d, r, lang)
    ensures lang in r && r[lang].Keys == Table(d, lang).Keys + {en}
    ensures en !in Table(d, lang) ==> r[lang][en] == tgt
  {
    var table := Table(d, lang);
    d[lang := if en in table then table else table[en := tgt]]
  }

  /** Each line's parse, in file order. */
  function ParseAll(lines: seq<string>): (r: seq<Option<Pair>>)
    ensures |r| == |lines| && forall i :: 0 <= i < |lines| ==> r[i] == ParseLine(lines[i])
  {
    seq(|lines|, i requires 0 <= i < |lines| => ParseLine(lines[i]))
  }

  /** The English phrases of the parsed pairs. */
  function PairKeys(pairs: seq<Option<Pair>>): set<string>
    decreases |pairs|
  {
    if |pairs| == 0 then {}
    else
      var last := pairs[|pairs| - 1];
      PairKeys(pairs[..|pairs| - 1]) + if last.Some? then {last.value.0} else {}
  }

  /** The dictionary after the parsed lines of one language's file; `None`
      when a line failed to parse, which aborts the script. Defined from the
      last line so that a loop over a prefix of the lines is described by
      this function on that prefix. */
  function MergePairs(d: Dict, lang: string, pairs: seq<Option<Pair>>): (r: Option<Dict>)
    ensures r.Some? ==> Extends(d, r.value) && OthersUntouched(d, r.value, lang)
    ensures r.Some? && |pairs| > 0 ==> lang in r.value
    decreases |pairs|
  {
    if |pairs| == 0 then Some(d)
    else
      var n := |pairs| - 1;
      match MergePairs(d, lang, pairs[..n])
      case None => None
      case Some(d1) =>
        match pairs[n]
        case None => None
        case Some(pair) =>
          var r := AddPair(d1, lang, pair.0, pair.1);
          ExtendsTransitive(d, d1, r);
          Some(r)
  }

  /** The merge of a file succeeds exactly when every line parsed. */
  lemma {:induction false} MergeSucceedsIffParsed(d: Dict, lang: string, pairs: seq<Option<Pair>>)
    ensures MergePairs(d, lang, pairs).Some? <==> forall i :: 0 <= i < |pairs| ==> pairs[i].Some?
    decreases |pairs|
  {
    if |pairs| > 0 {
      var n := |pairs| - 1;
      MergeSucceedsIffParsed(d, lang, pairs[..n]);
      assert forall i :: 0 <= i < n ==> pairs[..n][i] == pairs[i];
    }
  }

  /** A successful merge adds the file's phrases, and no other phrase, to
      the language's table. */
  lemma {:induction false} MergedKeys(d: Dict, lang: string, pairs: seq<Option<Pair>>)
    requires MergePairs(d, lang, pairs).Some?
    ensures Table(MergePairs(d, lang, pairs).value, lang).Keys == Table(d, lang).Keys + PairKeys(pairs)
    decreases |pairs|
  {
    if |pairs| > 0 {
      MergedKeys(d, lang, pairs[..|pairs| - 1]);
    }
  }

  /** Extending the parsed prefix by one pair adds that pair. */
  lemma MergeStep(d: Dict, lang: string, pairs: seq<Option<Pair>>, i: nat)
    requires i < |pairs| && MergePairs(d, lang, pairs[..i]).Some? && pairs[i].Some?
    ensures MergePairs(d, lang, pairs[..i + 1])
         == Some(AddPair(MergePairs(d, lang, pairs[..i]).value, lang, pairs[i].value.0, pairs[i].value.1))
  {
    assert pairs[..i + 1][..i] == pairs[..i];
  }

  /** The source's two updates, creating the table and then adding the
      phrase if absent, are `AddPair`. */
  lemma AddInTwoSteps(d: Dict, lang: string, en: string, tgt: string)
    ensures var d1 := if lang !in d then d[lang := map[]] else d;
      (if en !in d1[lang] then d1[lang := d1[lang][en := tgt]] else d1) == AddPair(d, lang, en, tgt)
  {
  }

  /** The dictionary after the lines of one language's file. */
  function MergeLines(d: Dict, lang: string, lines: seq<string>): Option<Dict> {
    MergePairs(d, lang, ParseAll(lines))
  }

  /** The dictionary after every language in `langs` has been merged from
      its file, skipping languages whose file is missing. */
  function MergeAll(d: Dict, langs: seq<string>, files: map<string, seq<string>>): (r: Option<Dict>)
    ensures r.Some? ==> Extends(d, r.value)
    decreases |langs|
  {
    if |langs| == 0 then Some(d)
    else
      var n := |langs| - 1;
      match MergeAll(d, langs[..n], files)
      case None => None
      case Some(d1) =>
        if langs[n] in files then
          var r := MergeLines(d1, langs[n], files[langs[n]]);
          if r.Some? then ExtendsTransitive(d, d1, r.value); r
          else r
        else Some(d1)
  }

  /** After a file has been merged, every phrase read from it is in the
      language's table. */
  lemma {:induction false} EveryPairPresent(d: Dict, lang: string, pairs: seq<Option<Pair>>, j: nat)
    requires j < |pairs| && MergePairs(d, lang, pairs).Some?
    ensures pairs[j].Some? && lang in MergePairs(d, lang, pairs).value
    ensures pairs[j].value.0 in MergePairs(d, lang, pairs).value[lang]
    decreases |pairs|
  {
    MergeSucceedsIffParsed(d, lang, pairs);
    MergedKeys(d, lang, pairs);
    KeysContain(pairs, j);
  }

  lemma {:induction false} KeysContain(pairs: seq<Option<Pair>>, j: nat)
    requires j < |pairs| && pairs[j].Some?
    ensures pairs[j].value.0 in PairKeys(pairs)
    decreases |pairs|
  {
    var n := |pairs| - 1;
    if j < n {
      assert pairs[..n][j] == pairs[j];
      KeysContain(pairs[..n], j);
    }
  }

  lemma {:induction false} KeysAvoid(pairs: seq<Option<Pair>>, en: string)
    requires forall i :: 0 <= i < |pairs| ==> pairs[i].Some? && pairs[i].value.0 != en
    ensures en !in PairKeys(pairs)
    decreases |pairs|
  {
    if |pairs| > 0 {
      var n := |pairs| - 1;
      assert forall i :: 0 <= i < n ==> pairs[..n][i] == pairs[i];
      KeysAvoid(pairs[..n], en);
    }
  }

  /** The first value seen for a phrase wins: a new phrase keeps the
      translation of the first line that carries it, whatever later lines
      say. */
  lemma {:induction false} FirstValueWins(d: Dict, lang: string, pairs: seq<Option<Pair>>, j: nat)
    requires j < |pairs| && MergePairs(d, lang, pairs).Some?
    requires pairs[j].Some? && pairs[j].value.0 !in Table(d, lang)
    requires forall i :: 0 <= i < j ==> pairs[i].Some? && pairs[i].value.0 != pairs[j].value.0
    ensures var r := MergePairs(d, lang, pairs).value;
      lang in r && pairs[j].value.0 in r[lang] && r[lang][pairs[j].value.0] == pairs[j].value.1
    decreases |pairs|
  {
    var n := |pairs| - 1;
    var en := pairs[j].value.0;
    var d1 := MergePairs(d, lang, pairs[..n]).value;
    assert forall i :: 0 <= i < n ==> pairs[..n][i] == pairs[i];
    if j == n {
      MergeSucceedsIffParsed(d, lang, pairs[..n]);
      MergedKeys(d, lang, pairs[..n]);
      KeysAvoid(pairs[..n], en);
      assert en !in Table(d1, lang);
    } else {
      FirstValueWins(d, lang, pairs[..n], j);
      assert d1[lang].Items <= MergePairs(d, lang, pairs).value[lang].Items;
      assert (en, pairs[j].value.1) in d1[lang].Items;
    }
  }

  /** An existing entry is never overwritten by a merge. */
  lemma ExistingEntryKept(d: Dict, langs: seq<string>, files: map<string, seq<string>>, lang: string, en: string)
    requires MergeAll(d, langs, files).Some? && lang in d && en in d[lang]
    ensures var r := MergeAll(d, langs, files).value;
      lang in r && en in r[lang] && r[lang][en] == d[lang][en]
  {
    var r := MergeAll(d, langs, files).value;
    assert (en, d[lang][en]) in d[lang].Items;
  }

  /** A language whose file is missing keeps its table exactly as it was,
      and gets none if it had none. */
  lemma {:induction false} MissingFileSkipped(d: Dict, langs: seq<string>, files: map<string, seq<string>>, l: string)
    requires l !in files && MergeAll(d, langs, files).Some?
    ensures var r := MergeAll(d, langs, files).value;
      (l in r <==> l in d) && (l in d ==> r[l] == d[l])
    decreases |langs|
  {
    if |langs| > 0 {
      var n := |langs| - 1;
      MissingFileSkipped(d, langs[..n], files, l);
      var d1 := MergeAll(d, langs[..n], files).value;
      var r := MergeAll(d, langs, files).value;
      if langs[n] in files {
        assert l != langs[n];
        assert r - {langs[n]} == d1 - {langs[n]};
        assert l in r <==> l in r - {langs[n]};
        assert l in d1 <==> l in d1 - {langs[n]};
        if l in r {
          assert r[l] == (r - {langs[n]})[l];
          assert d1[l] == (d1 - {langs[n]})[l];
        }
      }
    }
  }

  /** Merging one more language continues from the dictionary merged so
      far. */
  lemma MergeAllStep(d: Dict, langs: seq<string>, files: map<string, seq<string>>, k: nat)
    requires k < |langs| && MergeAll(d, langs[..k], files).Some?
    ensures var d1 := MergeAll(d, langs[..k], files).value;
      MergeAll(d, langs[..k + 1], files)
        == if langs[k] in files then MergeLines(d1, langs[k], files[langs[k]]) else Some(d1)
  {
    assert langs[..k + 1][..k] == langs[..k];
  }

  /** Once one file has aborted, the whole merge is aborted. */
  lemma {:induction false} AbortSticks(d: Dict, langs: seq<string>, files: map<string, seq<string>>, k: nat, j: nat)
    requires k <= j <= |langs| && MergeAll(d, langs[..k], files).None?
    ensures MergeAll(d, langs[..j], files).None?
    decreases j - k
  {
    if k < j {
      assert langs[..k + 1][..k] == langs[..k];
      AbortSticks(d, langs, files, k + 1, j);
    }
  }

  /** The script's in-memory dictionary. */
  class Merger {
    var manualDict: Dict

    constructor (existing: Dict)
      ensures manualDict == existing
    {
      manualDict := existing;
    }

    /** The inner loop over one file's lines. On an unparsable line it
        stops and reports failure (the script would abort there). */
    method MergeFile(lang: string, lines: seq<string>) returns (ok: bool)
      modifies this
      ensures ok <==> MergeLines(old(manualDict), lang, lines).Some?
      ensures ok ==> manualDict == MergeLines(old(manualDict), lang, lines).value
    {
      ghost var pairs := ParseAll(lines);
      for i := 0 to |lines|
        invariant MergePairs(old(manualDict), lang, pairs[..i]) == Some(manualDict)
      {
        var parsed := ParseLine(lines[i]);
        assert parsed == pairs[i];
        if parsed.None? {
          MergeSucceedsIffParsed(old(manualDict), lang, pairs);
          return false;
        }
        MergeStep(old(manualDict), lang, pairs, i);
        var (en, tgt) := parsed.value;
        ParsedSidesNonEmpty(lines[i]);
        if |en| == 0 || |tgt| == 0 {
          continue;
        }
        ghost var before := manualDict;
        if lang !in manualDict {
          manualDict := manualDict[lang := map[]];
        }
        if en !in manualDict[lang] {
          manualDict := manualDict[lang := manualDict[lang][en := tgt]];
        }
        AddInTwoSteps(before, lang, en, tgt);
      }
      assert pairs[..|lines|] == pairs;
      ok := true;
    }

    /** The outer loop over the language codes `langs` (the script passes
        `FloresLangs`), skipping missing files. */
    method MergeAllFiles(langs: seq<string>, files: map<string, seq<string>>) returns (ok: bool)
      modifies this
      ensures ok <==> MergeAll(old(manualDict), langs, files).Some?
      ensures ok ==> manualDict == MergeAll(old(manualDict), langs, files).value
    {
      for k := 0 to |langs|
        invariant MergeAll(old(manualDict), langs[..k], files) == Some(manualDict)
      {
        var lang := langs[k];
        MergeAllStep(old(manualDict), langs, files, k);
        if lang in files {
          ok := MergeFile(lang, files[lang]);
          if !ok {
            AbortSticks(old(manualDict), langs, files, k + 1, |langs|);
            assert langs[..|langs|] == langs;
            return;
          }
        }
      }
      assert langs[..|langs|] == langs;
      ok := true;
    }

    /** The script's merge: every language of `FLORES_LANGS` in turn. */
    method MergeFloresFiles(files: map<string, seq<string>>) returns (ok: bool)
      modifies this
      ensures ok <==> MergeAll(old(manualDict), FloresLangs, files).Some?
      ensures ok ==> manualDict == MergeAll(old(manualDict), FloresLangs, files).value
    {
      ok := MergeAllFiles(FloresLangs, files);
    }
  }

  /** The line is a marker line once stripped. */
  predicate Marks(line: string, marker: string) {
    StartsWith(Strip(line), marker)
  }

  /** Which lines are marker lines, in file order. */
  function MarkerFlags(lines: seq<string>, marker: string): (r: seq<bool>)
    ensures |r| == |lines| && forall j :: 0 <= j < |lines| ==> r[j] == Marks(lines[j], marker)
  {
    seq(|lines|, j requires 0 <= j < |lines| => Marks(lines[j], marker))
  }

  /** `next(i for i, l in enumerate(lines) if l.strip().startswith(marker))`,
      `None` where `next` would raise `StopIteration`. */
  function FindLine(lines: seq<string>, marker: string): (r: Option<nat>)
    ensures r.Some? ==> r.value < |lines|
  {
    FirstSet(MarkerFlags(lines, marker), 0)
  }

  /** The first set flag at or after `i`. */
  function FirstSet(flags: seq<bool>, i: nat): (r: Option<nat>)
    requires i <= |flags|
    ensures r.Some? ==> i <= r.value < |flags|
    decreases |flags| - i
  {
    if i == |flags| then None
    else if flags[i] then Some(i)
    else FirstSet(flags, i + 1)
  }

  /** The search finds the first marker line, and fails only when there is
      none. */
  lemma FindLineIsFirst(lines: seq<string>, marker: string)
    ensures var r := FindLine(lines, marker);
      && (r.Some? ==> Marks(lines[r.value], marker))
      && (r.Some? ==> forall j :: 0 <= j < r.value ==> !Marks(lines[j], marker))
      && (r.None? <==> forall j :: 0 <= j < |lines| ==> !Marks(lines[j], marker))
  {
    var flags := MarkerFlags(lines, marker);
    FirstSetIsFirst(flags, 0);
  }

  lemma {:induction false} FirstSetIsFirst(flags: seq<bool>, i: nat)
    requires i <= |flags|
    requires forall j :: 0 <= j < i ==> !flags[j]
    ensures var r := FirstSet(flags, i);
      && (r.Some? ==> flags[r.value])
      && (r.Some? ==> forall j :: 0 <= j < r.value ==> !flags[j])
      && (r.None? <==> forall j :: 0 <= j < |flags| ==> !flags[j])
    decreases |flags| - i
  {
    if i < |flags| && !flags[i] {
      FirstSetIsFirst(flags, i + 1);
    }
  }

  /** The first line of the rewritten block. */
  function HeaderLine(rendered: string): string {
    StartMarker + " " + rendered + "\n"
  }

  /** The block rewrite: the start marker's line becomes the new dictionary
      text, every line strictly between the two markers becomes empty, and
      nothing else changes. When a marker is missing `next` raises, and the
      lines stay as they were. */
  method RewriteBlock(lines: array<string>, rendered: string) returns (ok: bool)
    modifies lines
    ensures ok <==> FindLine(old(lines[..]), StartMarker).Some? && FindLine(old(lines[..]), EndMarker).Some?
    ensures !ok ==> lines[..] == old(lines[..])
    ensures ok ==>
      var s := FindLine(old(lines[..]), StartMarker).value;
      var e := FindLine(old(lines[..]), EndMarker).value;
      && lines[s] == HeaderLine(rendered)
      && (forall i :: s < i < e ==> lines[i] == "")
      && (forall i :: 0 <= i < lines.Length && i != s && !(s < i < e) ==> lines[i] == old(lines[i]))
  {
    ghost var orig := lines[..];
    var startIdx := FindLine(lines[..], StartMarker);
    if startIdx.None? {
      return false;
    }
    var endIdx := FindLine(lines[..], EndMarker);
    if endIdx.None? {
      return false;
    }
    var s := startIdx.value;
    var e := endIdx.value;
    lines[s] := HeaderLine(rendered);
    ClearLines(lines, s + 1, if e < s + 1 then s + 1 else e);
    ok := true;
  }

  /** `for i in range(lo, hi): lines[i] = ''`. */
  method ClearLines(lines: array<string>, lo: nat, hi: nat)
    requires lo <= hi <= lines.Length
    modifies lines
    ensures forall k :: lo <= k < hi ==> lines[k] == ""
    ensures forall k :: 0 <= k < lines.Length && !(lo <= k < hi) ==> lines[k] == old(lines[k])
  {
    for i := lo to hi
      invariant forall k :: lo <= k < i ==> lines[k] == ""
      invariant forall k :: 0 <= k < lines.Length && !(lo <= k < i) ==> lines[k] == old(lines[k])
    {
      lines[i] := "";
    }
  }
}

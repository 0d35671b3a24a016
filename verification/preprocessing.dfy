/** The clean-up `translate_text` applies to its input before splitting it
    into chunks: collapse whitespace, fix typographic characters and known
    OCR typos, apply the target language's manual dictionary, strip. */
module Preprocessing {
  import opened Wrappers
  import opened Text
  import opened Replacement
  import LanguageCodes
  import ManualDictionaries

  /** The character fixes, in the order the source chains them: no-break
      space to space, en dash to hyphen, curly double quotes to '"', right
      single quote to apostrophe. */
  const CharacterFixes: seq<Entry> := [
    ("\U{A0}", " "), ("\U{2013}", "-"), ("\U{201C}", "\""), ("\U{201D}", "\""), ("\U{2019}", "'")]

  /** The OCR typo fixes, in the order the source chains them. */
  const TypoFixes: seq<Entry> := [("Iang uage", "language"), ("Tiles", "tiles"), ("dpp", "app")]

  /** The manual dictionary pass: only when the target's friendly name has
      a (non-empty) dictionary code. */
  function DictionaryPass(text: string, targetName: string): (r: string)
    ensures targetName !in LanguageCodes.FriendlyToLangCode ==> r == text
  {
    match LanguageCodes.Lookup(LanguageCodes.FriendlyToLangCode, targetName)
    case Some(code) =>
      if |code| > 0 then ApplyEntries(text, ManualDictionaries.DictionaryFor(code)) else text
    case None => text
  }

  /** The text `preprocess_text(text, target_lang_friendly_name)` returns. */
  function Preprocessed(text: string, targetName: string): string {
    Strip(DictionaryPass(ApplyEntries(CollapseSpaces(text), CharacterFixes + TypoFixes), targetName))
  }

  /** `preprocess_text`: reassigns the text once per step. */
  method PreprocessText(text: string, targetName: string) returns (r: string)
    ensures r == Preprocessed(text, targetName)
    ensures Normalized(r)
  {
    var collapsed := CollapseSpaces(text);
    r := Replace(Replace(Replace(Replace(Replace(collapsed,
           "\U{A0}", " "), "\U{2013}", "-"), "\U{201C}", "\""), "\U{201D}", "\""), "\U{2019}", "'");
    r := Replace(Replace(Replace(r, "Iang uage", "language"), "Tiles", "tiles"), "dpp", "app");
    FixesInOrder(collapsed);
    var langCode := LanguageCodes.Lookup(LanguageCodes.FriendlyToLangCode, targetName);
    if langCode.Some? && |langCode.value| > 0 {
      r := ManualDictionaries.ReplaceWithManualDictionary(r, langCode.value);
    }
    r := Strip(r);
    PreprocessedIsNormalized(text, targetName);
  }

  /** The fix tables applied as a fold are the source's chain of
      `replace` calls. */
  lemma FixesInOrder(x: string)
    ensures ApplyEntries(x, CharacterFixes + TypoFixes)
         == Replace(Replace(Replace(
              Replace(Replace(Replace(Replace(Replace(x,
                "\U{A0}", " "), "\U{2013}", "-"), "\U{201C}", "\""), "\U{201D}", "\""), "\U{2019}", "'"),
              "Iang uage", "language"), "Tiles", "tiles"), "dpp", "app")
  {
    var f := CharacterFixes + TypoFixes;
    assert f[..0] == [];
    ApplyStep(x, f, 0);
    ApplyStep(x, f, 1);
    ApplyStep(x, f, 2);
    ApplyStep(x, f, 3);
    ApplyStep(x, f, 4);
    ApplyStep(x, f, 5);
    ApplyStep(x, f, 6);
    ApplyStep(x, f, 7);
    assert f[..8] == f;
  }

  lemma FixesWellSpaced()
    ensures WellSpaced((CharacterFixes + TypoFixes)[1..])
  {
    var f := (CharacterFixes + TypoFixes)[1..];
    forall k | 0 <= k < |f| ensures WellSpacedEntry(f[k]) {
      CleanPhraseByCheck(f[k].1);
    }
  }

  /** The no-break-space fix never fires: collapsing whitespace has already
      turned every no-break space into ' '. */
  lemma NoBreakSpaceFixIsInert(s: string)
    requires SingleSpaced(s)
    ensures ApplyEntries(s, CharacterFixes + TypoFixes) == ApplyEntries(s, (CharacterFixes + TypoFixes)[1..])
  {
    var f := CharacterFixes + TypoFixes;
    assert f == [f[0]] + f[1..];
    ApplyFirst(s, f[0], f[1..]);
    NoOtherSpace(s, '\U{A0}');
    ReplaceAbsent(s, "\U{A0}", " ");
  }

  /** The dictionary pass keeps a single-spaced text single-spaced. */
  lemma DictionaryPassKeepsSingleSpaced(s: string, targetName: string)
    requires SingleSpaced(s)
    ensures SingleSpaced(DictionaryPass(s, targetName))
  {
    var code := LanguageCodes.Lookup(LanguageCodes.FriendlyToLangCode, targetName);
    if code.Some? && |code.value| > 0 {
      ManualDictionaries.TablesWellSpaced(code.value);
      ApplyKeepsSingleSpaced(s, ManualDictionaries.DictionaryFor(code.value));
    }
  }

  /** Preprocessing leaves every whitespace run as one ' ' and no whitespace
      at either end. */
  lemma PreprocessedIsNormalized(text: string, targetName: string)
    ensures Normalized(Preprocessed(text, targetName))
  {
    var c := CollapseSpaces(text);
    NoBreakSpaceFixIsInert(c);
    FixesWellSpaced();
    ApplyKeepsSingleSpaced(c, (CharacterFixes + TypoFixes)[1..]);
    var f := ApplyEntries(c, CharacterFixes + TypoFixes);
    DictionaryPassKeepsSingleSpaced(f, targetName);
    StripNormalizes(DictionaryPass(f, targetName));
  }

  /** Text made only of whitespace is not empty, but preprocessing turns it
      into the empty text. */
  lemma WhitespaceOnlyBecomesEmpty(text: string, targetName: string)
    requires forall i :: 0 <= i < |text| ==> IsSpace(text[i])
    ensures Preprocessed(text, targetName) == ""
  {
    var c := CollapseSpaces(text);
    if |text| > 0 {
      assert StripLeft(text) == [];
      assert c == " ";
    }
    assert forall i :: 0 <= i < |c| ==> IsSpace(c[i]);
    NoBreakSpaceFixIsInert(c);
    FixesWellSpaced();
    SpacesUntouched(c, (CharacterFixes + TypoFixes)[1..]);
    var code := LanguageCodes.Lookup(LanguageCodes.FriendlyToLangCode, targetName);
    if code.Some? && |code.value| > 0 {
      ManualDictionaries.TablesWellSpaced(code.value);
      SpacesUntouched(c, ManualDictionaries.DictionaryFor(code.value));
    }
  }

  /** A target without a dictionary code skips the dictionary pass. */
  lemma NoDictionaryWithoutCode(text: string, targetName: string)
    requires targetName !in LanguageCodes.FriendlyToLangCode
    ensures Preprocessed(text, targetName) == Strip(ApplyEntries(CollapseSpaces(text), CharacterFixes + TypoFixes))
  {
  }
}

/** The per-language manual dictionaries applied before translation, and
    the replacement loop over one language's table. */
module ManualDictionaries {
  import opened Text
  import opened Replacement

  /** The table of the ten languages that have only the placeholder item. */
  const NotFoundOnly: seq<Entry> := [("404: Not Found", "404: Not Found")]

  /** The Hindi table, in the dictionary's iteration order. */
  const HindiTable: seq<Entry> := [
      ("404: Not Found", "404: Not Found"),
      ("Chrome", "क्रोम"),
      ("Kindle", "किंडल"),
      ("LLM", "एलएलएम"),
      ("Natural Reader", "नेचुरल रीडर"),
      ("Plus", "प्लस"),
      ("Premium", "प्रीमियम"),
      ("YouTube", "यूट्यूब"),
      ("app", "ऐप"),
      ("email", "ईमेल"),
      ("voice", "आवाज़")]

  /** The Bengali table, in the dictionary's iteration order. */
  const BengaliTable: seq<Entry> := [
      ("404: Not Found", "404: Not Found"),
      ("Chrome", "ক্রোম"),
      ("Kindle", "কিন্ডল"),
      ("LLM", "এলএলএম"),
      ("Natural Reader", "ন্যাচারাল রিডার"),
      ("Plus", "প্লাস"),
      ("Premium", "প্রিমিয়াম"),
      ("YouTube", "ইউটিউব"),
      ("app", "অ্যাপ"),
      ("email", "ইমেইল"),
      ("voice", "ভয়েস")]

  /** Language code to that language's table. */
  const ManualDictionaries: map<string, seq<Entry>> := map[
    "as" := NotFoundOnly,
    "bn" := BengaliTable,
    "gu" := NotFoundOnly,
    "hi" := HindiTable,
    "kn" := NotFoundOnly,
    "ml" := NotFoundOnly,
    "mr" := NotFoundOnly,
    "or" := NotFoundOnly,
    "pa" := NotFoundOnly,
    "ta" := NotFoundOnly,
    "te" := NotFoundOnly,
    "ur" := NotFoundOnly]

  /** `MANUAL_DICTIONARIES.get(lang_code, {})` */
  function DictionaryFor(langCode: string): (d: seq<Entry>)
    ensures langCode !in ManualDictionaries ==> d == []
    ensures langCode in ManualDictionaries ==> d == ManualDictionaries[langCode]
  {
    if langCode in ManualDictionaries then ManualDictionaries[langCode] else []
  }

  /** Replaces, entry by entry in table order, every occurrence of each
      English phrase of the language's table by its translation. */
  method ReplaceWithManualDictionary(text: string, langCode: string) returns (r: string)
    ensures r == ApplyEntries(text, DictionaryFor(langCode))
    ensures langCode !in ManualDictionaries ==> r == text
    ensures NoKeyOccurs(text, DictionaryFor(langCode)) ==> r == text
  {
    var dictionary := DictionaryFor(langCode);
    r := text;
    for i := 0 to |dictionary|
      invariant r == ApplyEntries(text, dictionary[..i])
    {
      ApplyStep(text, dictionary, i);
      r := Replace(r, dictionary[i].0, dictionary[i].1);
    }
    assert dictionary[..|dictionary|] == dictionary;
    if NoKeyOccurs(text, dictionary) {
      ApplyAbsent(text, dictionary);
    }
  }

  /** Every one of the 12 tables starts with the placeholder item that maps
      '404: Not Found' to itself. */
  lemma EveryTableHasNotFound()
    ensures forall lang :: lang in ManualDictionaries ==>
      |ManualDictionaries[lang]| > 0 && ManualDictionaries[lang][0] == ("404: Not Found", "404: Not Found")
  {
    forall lang | lang in ManualDictionaries
      ensures |ManualDictionaries[lang]| > 0 && ManualDictionaries[lang][0] == ("404: Not Found", "404: Not Found")
    {
      if lang == "as" {
        assert ManualDictionaries[lang] == NotFoundOnly;
      } else if lang == "bn" {
        assert ManualDictionaries[lang] == BengaliTable;
      } else if lang == "gu" {
        assert ManualDictionaries[lang] == NotFoundOnly;
      } else if lang == "hi" {
        assert ManualDictionaries[lang] == HindiTable;
      } else if lang == "kn" {
        assert ManualDictionaries[lang] == NotFoundOnly;
      } else if lang == "ml" {
        assert ManualDictionaries[lang] == NotFoundOnly;
      } else if lang == "mr" {
        assert ManualDictionaries[lang] == NotFoundOnly;
      } else if lang == "or" {
        assert ManualDictionaries[lang] == NotFoundOnly;
      } else if lang == "pa" {
        assert ManualDictionaries[lang] == NotFoundOnly;
      } else if lang == "ta" {
        assert ManualDictionaries[lang] == NotFoundOnly;
      } else if lang == "te" {
        assert ManualDictionaries[lang] == NotFoundOnly;
      } else if lang == "ur" {
        assert ManualDictionaries[lang] == NotFoundOnly;
      }
    }
  }

  /** The placeholder item never changes a text: applying a table gives the
      same result as applying it without its first item. */
  lemma NotFoundIsInert(text: string, lang: string)
    requires lang in ManualDictionaries
    ensures ApplyEntries(text, ManualDictionaries[lang]) == ApplyEntries(text, ManualDictionaries[lang][1..])
  {
    EveryTableHasNotFound();
    var t := ManualDictionaries[lang];
    assert t == [] + [("404: Not Found", "404: Not Found")] + t[1..];
    ApplyIdentityEntry(text, [], "404: Not Found", t[1..]);
    assert [] + t[1..] == t[1..];
  }

  /** The phrases are matched case-sensitively: 'App' is not an occurrence
      of the Hindi table's 'app'. */
  lemma MatchIsCaseSensitive()
    ensures HindiTable[8].0 == "app"
    ensures Replace("App", HindiTable[8].0, HindiTable[8].1) == "App"
  {
  }

  /** Every phrase of every table starts with a non-space character and
      every translation is a clean phrase, so the dictionary pass keeps a
      single-spaced text single-spaced. */
  lemma TablesWellSpaced(lang: string)
    ensures WellSpaced(DictionaryFor(lang))
  {
    if lang in ManualDictionaries {
      EveryTableHasNotFound();
      CleanPhraseByCheck("404: Not Found");
      if ManualDictionaries[lang] == HindiTable {
        HindiWellSpaced();
      } else if ManualDictionaries[lang] == BengaliTable {
        BengaliWellSpaced();
      } else {
        OthersAreNotFoundOnly(lang);
      }
    }
  }

  lemma OthersAreNotFoundOnly(lang: string)
    requires lang in ManualDictionaries
    ensures ManualDictionaries[lang] in {NotFoundOnly, HindiTable, BengaliTable}
  {
  }

  lemma HindiWellSpaced()
    ensures WellSpaced(HindiTable)
  {
    forall k | 0 <= k < |HindiTable| ensures WellSpacedEntry(HindiTable[k]) {
      HindiEntryWellSpaced(k);
    }
  }

  lemma HindiEntryWellSpaced(k: nat)
    requires k < 11
    ensures WellSpacedEntry(HindiTable[k])
  {
    if k < 4 {
      HindiEntriesFrom0(k);
    } else if k < 8 {
      HindiEntriesFrom4(k);
    } else {
      HindiEntriesFrom8(k);
    }
  }

  lemma HindiEntriesFrom0(k: nat)
    requires 0 <= k < 4
    ensures WellSpacedEntry(HindiTable[k])
  {
    if k == 0 {
      CleanPhraseByCheck(HindiTable[0].1);
    } else if k == 1 {
      CleanPhraseByCheck(HindiTable[1].1);
    } else if k == 2 {
      CleanPhraseByCheck(HindiTable[2].1);
    } else if k == 3 {
      CleanPhraseByCheck(HindiTable[3].1);
    }
  }

  lemma HindiEntriesFrom4(k: nat)
    requires 4 <= k < 8
    ensures WellSpacedEntry(HindiTable[k])
  {
    if k == 4 {
      CleanPhraseByCheck(HindiTable[4].1);
    } else if k == 5 {
      CleanPhraseByCheck(HindiTable[5].1);
    } else if k == 6 {
      CleanPhraseByCheck(HindiTable[6].1);
    } else if k == 7 {
      CleanPhraseByCheck(HindiTable[7].1);
    }
  }

  lemma HindiEntriesFrom8(k: nat)
    requires 8 <= k < 11
    ensures WellSpacedEntry(HindiTable[k])
  {
    if k == 8 {
      CleanPhraseByCheck(HindiTable[8].1);
    } else if k == 9 {
      CleanPhraseByCheck(HindiTable[9].1);
    } else if k == 10 {
      CleanPhraseByCheck(HindiTable[10].1);
    }
  }


  lemma BengaliWellSpaced()
    ensures WellSpaced(BengaliTable)
  {
    forall k | 0 <= k < |BengaliTable| ensures WellSpacedEntry(BengaliTable[k]) {
      BengaliEntryWellSpaced(k);
    }
  }

  lemma BengaliEntryWellSpaced(k: nat)
    requires k < 11
    ensures WellSpacedEntry(BengaliTable[k])
  {
    if k < 4 {
      BengaliEntriesFrom0(k);
    } else if k < 8 {
      BengaliEntriesFrom4(k);
    } else {
      BengaliEntriesFrom8(k);
    }
  }

  lemma BengaliEntriesFrom0(k: nat)
    requires 0 <= k < 4
    ensures WellSpacedEntry(BengaliTable[k])
  {
    if k == 0 {
      CleanPhraseByCheck(BengaliTable[0].1);
    } else if k == 1 {
      CleanPhraseByCheck(BengaliTable[1].1);
    } else if k == 2 {
      CleanPhraseByCheck(BengaliTable[2].1);
    } else if k == 3 {
      CleanPhraseByCheck(BengaliTable[3].1);
    }
  }

  lemma BengaliEntriesFrom4(k: nat)
    requires 4 <= k < 8
    ensures WellSpacedEntry(BengaliTable[k])
  {
    if k == 4 {
      CleanPhraseByCheck(BengaliTable[4].1);
    } else if k == 5 {
      CleanPhraseByCheck(BengaliTable[5].1);
    } else if k == 6 {
      CleanPhraseByCheck(BengaliTable[6].1);
    } else if k == 7 {
      CleanPhraseByCheck(BengaliTable[7].1);
    }
  }

  lemma BengaliEntriesFrom8(k: nat)
    requires 8 <= k < 11
    ensures WellSpacedEntry(BengaliTable[k])
  {
    if k == 8 {
      CleanPhraseByCheck(BengaliTable[8].1);
    } else if k == 9 {
      CleanPhraseByCheck(BengaliTable[9].1);
    } else if k == 10 {
      CleanPhraseByCheck(BengaliTable[10].1);
    }
  }

}

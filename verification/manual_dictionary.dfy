/** The single English-to-Hindi manual dictionary and its replacement
    loop, which takes the table as an argument. */
module ManualDictionary {
  import opened Text
  import opened Replacement

  /** The default table, in the dictionary's iteration order. */
  const ManualDictionary: seq<Entry> := [
    ("Chrome", "क्रोम"),
    ("app", "ऐप"),
    ("YouTube", "यूट्यूब"),
    ("Kindle", "किंडल"),
    ("email", "ईमेल"),
    ("voice", "आवाज़"),
    ("Natural Reader", "नेचुरल रीडर"),
    ("LLM", "एलएलएम"),
    ("Premium", "प्रीमियम"),
    ("Plus", "प्लस")]

  /** Replaces, entry by entry in table order, every occurrence of each
      English phrase of `dictionary` by its translation; called without a
      table it uses `ManualDictionary`. */
  method ReplaceWithManualDictionary(text: string, dictionary: seq<Entry> := ManualDictionary) returns (r: string)
    ensures r == ApplyEntries(text, dictionary)
    ensures dictionary == [] ==> r == text
    ensures NoKeyOccurs(text, dictionary) ==> r == text
  {
    r := text;
    for i := 0 to |dictionary|
      invariant r == ApplyEntries(text, dictionary[..i])
    {
      ApplyStep(text, dictionary, i);
      r := Replace(r, dictionary[i].0, dictionary[i].1);
    }
    assert dictionary[..|dictionary|] == dictionary;
    if NoKeyOccurs(text, dictionary) {
      ApplyAbsent(text, dictionary);
    }
  }

  /** Leaving out the table argument is the same as passing the default
      table. */
  method DefaultTableIsManualDictionary(text: string) returns (r: string)
    ensures r == ApplyEntries(text, ManualDictionary)
  {
    r := ReplaceWithManualDictionary(text);
  }
}

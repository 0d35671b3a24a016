/** A phrase table applied to a text the way the translator's dictionary
    passes do it: one `text = text.replace(en, target)` per item, in the
    table's iteration order. */
module Replacement {
  import opened Text

  /** One table item: the English phrase and the text that replaces it. */
  type Entry = (string, string)

  /** The text after every entry of `entries` has been applied in order.
      Defined from the last entry so that a loop over a prefix of the table
      is described by this function applied to that prefix. */
  function ApplyEntries(text: string, entries: seq<Entry>): string
    decreases |entries|
  {
    if |entries| == 0 then text
    else
      var last := entries[|entries| - 1];
      Replace(ApplyEntries(text, entries[..|entries| - 1]), last.0, last.1)
  }

  /** No phrase of the table occurs in the text. */
  predicate NoKeyOccurs(text: string, entries: seq<Entry>) {
    forall i :: 0 <= i < |entries| ==> !Contains(text, entries[i].0)
  }

  /** Every phrase starts with a non-space character and every replacement
      is a clean phrase, so applying the table cannot create a whitespace
      run. */
  predicate WellSpaced(entries: seq<Entry>) {
    forall i :: 0 <= i < |entries| ==> WellSpacedEntry(entries[i])
  }

  predicate WellSpacedEntry(e: Entry) {
    |e.0| > 0 && !IsSpace(e.0[0]) && CleanPhrase(e.1)
  }

  /** Applying a table entry by entry: extending the prefix by one entry
      replaces that entry's phrase in the text obtained so far. */
  lemma ApplyStep(text: string, entries: seq<Entry>, i: nat)
    requires i < |entries|
    ensures ApplyEntries(text, entries[..i + 1])
         == Replace(ApplyEntries(text, entries[..i]), entries[i].0, entries[i].1)
  {
    assert entries[..i + 1][..i] == entries[..i];
  }

  /** Applying two tables one after the other is applying their
      concatenation. */
  lemma {:induction false} ApplyConcat(text: string, a: seq<Entry>, b: seq<Entry>)
    ensures ApplyEntries(text, a + b) == ApplyEntries(ApplyEntries(text, a), b)
    decreases |b|
  {
    if |b| == 0 {
      assert a + b == a;
    } else {
      var n := |b| - 1;
      assert (a + b)[..|a + b| - 1] == a + b[..n];
      assert (a + b)[|a + b| - 1] == b[n];
      ApplyConcat(text, a, b[..n]);
    }
  }

  /** The fold read from the left: the first entry is applied to the text
      first, and the rest of the table to its result. */
  lemma ApplyFirst(text: string, e: Entry, rest: seq<Entry>)
    ensures ApplyEntries(text, [e] + rest) == ApplyEntries(Replace(text, e.0, e.1), rest)
  {
    ApplyConcat(text, [e], rest);
    assert [e][..0] == [];
  }

  /** When no phrase of the table occurs in the text, the text comes back
      unchanged. */
  lemma {:induction false} ApplyAbsent(text: string, entries: seq<Entry>)
    requires NoKeyOccurs(text, entries)
    ensures ApplyEntries(text, entries) == text
    decreases |entries|
  {
    if |entries| > 0 {
      var n := |entries| - 1;
      assert NoKeyOccurs(text, entries[..n]) by {
        forall i | 0 <= i < n ensures !Contains(text, entries[..n][i].0) {
          assert entries[..n][i] == entries[i];
        }
      }
      ApplyAbsent(text, entries[..n]);
      ReplaceAbsent(text, entries[n].0, entries[n].1);
    }
  }

  /** An entry that maps a phrase to itself can be dropped from the table
      without changing any result. */
  lemma ApplyIdentityEntry(text: string, a: seq<Entry>, k: string, b: seq<Entry>)
    ensures ApplyEntries(text, a + [(k, k)] + b) == ApplyEntries(text, a + b)
  {
    ApplyConcat(text, a + [(k, k)], b);
    ApplyConcat(text, a, [(k, k)]);
    assert [(k, k)][..0] == [];
    ReplaceSelf(ApplyEntries(text, a), k);
    ApplyConcat(text, a, b);
  }

  /** A well-spaced table keeps a single-spaced text single-spaced, keeps it
      empty or non-empty, and keeps whether it starts with whitespace. */
  lemma {:induction false} ApplyKeepsSingleSpaced(text: string, entries: seq<Entry>)
    requires SingleSpaced(text) && WellSpaced(entries)
    ensures SingleSpaced(ApplyEntries(text, entries))
    ensures |ApplyEntries(text, entries)| == 0 <==> |text| == 0
    ensures |text| > 0 ==> (IsSpace(ApplyEntries(text, entries)[0]) <==> IsSpace(text[0]))
    decreases |entries|
  {
    if |entries| > 0 {
      var n := |entries| - 1;
      assert WellSpaced(entries[..n]) by {
        forall i | 0 <= i < n ensures entries[..n][i] == entries[i] { }
      }
      ApplyKeepsSingleSpaced(text, entries[..n]);
      ReplaceKeepsSingleSpaced(ApplyEntries(text, entries[..n]), entries[n].0, entries[n].1);
    }
  }

  /** A text made only of whitespace is left alone by a well-spaced table. */
  lemma SpacesUntouched(text: string, entries: seq<Entry>)
    requires forall i :: 0 <= i < |text| ==> IsSpace(text[i])
    requires WellSpaced(entries)
    ensures ApplyEntries(text, entries) == text
  {
    forall i | 0 <= i < |entries| ensures !Contains(text, entries[i].0) {
      assert WellSpacedEntry(entries[i]);
      NotInSpaces(text, entries[i].0);
    }
    ApplyAbsent(text, entries);
  }
}

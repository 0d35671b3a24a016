/** The placeholder translator used when no trained model is present:
    a tiny phrase table, a fine-tuned model when one is installed, and a
    bracketed stand-in otherwise. The fine-tuned model is abstracted to
    its answer, `None` when it is missing or fails. */
module SimpleTranslator {
  import opened Wrappers
  import opened Text
  import LanguageCodes

  /** The tables of `TRANSLATIONS`: (phrase, translation) in table order. */
  const HindiPhrases: seq<(string, string)> := [("hello", "नमस्ते"), ("how are you", "आप कैसे हैं"), ("thank you", "धन्यवाद")]
  const BengaliPhrases: seq<(string, string)> := [("hello", "হ্যালো"), ("how are you", "আপনি কেমন আছেন"), ("thank you", "ধন্যবাদ")]
  const OriyaPhrases: seq<(string, string)> := [("hello", "ନମସ୍କାର"), ("how are you", "ଆପଣ କେମିତି ଅଛନ୍ତି"), ("thank you", "ଧନ୍ୟବାଦ")]
  const TamilPhrases: seq<(string, string)> := [("hello", "வணக்கம்"), ("how are you", "நீங்கள் எப்படி இருக்கிறீர்கள்"), ("thank you", "நன்றி")]
  const TeluguPhrases: seq<(string, string)> := [("hello", "హలో"), ("how are you", "మీరు ఎలా ఉన్నారు"), ("thank you", "ధన్యవాదాలు")]

  /** `model_dir_map`: the languages with a fine-tuned adapter. */
  const ModelDirMap: map<string, string> := map[
    "hi" := "indictrans2-finetuned-en-to-hi-lora", "or" := "indictrans2-finetuned-en-to-or-lora",
    "bn" := "indictrans2-finetuned-en-to-bn-lora", "ta" := "indictrans2-finetuned-en-to-ta-lora",
    "te" := "indictrans2-finetuned-en-to-te-lora"]

  /** `lang_names` */
  const LangNames: map<string, string> := map[
    "hi" := "Hindi", "or" := "Oriya", "bn" := "Bengali", "ta" := "Tamil", "te" := "Telugu"]

  /** The languages `TRANSLATIONS` has a table for. */
  const TableLanguages: set<string> := {"hi", "bn", "or", "ta", "te"}

  /** `TRANSLATIONS.get(lang_code, {})`: the phrase table of a language,
      empty when it has none. */
  function PhrasesFor(langCode: string): (r: seq<(string, string)>)
    ensures |r| > 0 <==> langCode in TableLanguages
  {
    if langCode == "hi" then HindiPhrases
    else if langCode == "bn" then BengaliPhrases
    else if langCode == "or" then OriyaPhrases
    else if langCode == "ta" then TamilPhrases
    else if langCode == "te" then TeluguPhrases
    else []
  }

  /** The index of the first phrase, in table order, that occurs in `s`. */
  function FirstMatch(phrases: seq<(string, string)>, s: string): (r: Option<nat>)
    ensures r.Some? ==> r.value < |phrases|
  {
    FirstMatchFrom(phrases, s, 0)
  }

  function FirstMatchFrom(phrases: seq<(string, string)>, s: string, i: nat): (r: Option<nat>)
    requires i <= |phrases|
    ensures r.Some? ==> i <= r.value < |phrases|
    decreases |phrases| - i
  {
    if i == |phrases| then None
    else if Contains(s, phrases[i].0) then Some(i)
    else FirstMatchFrom(phrases, s, i + 1)
  }

  /** The match found is a phrase that occurs, and no earlier phrase does;
      there is no match exactly when no phrase occurs. */
  lemma FirstMatchIsFirst(phrases: seq<(string, string)>, s: string)
    ensures var r := FirstMatch(phrases, s);
      && (r.Some? ==> Contains(s, phrases[r.value].0))
      && (r.Some? ==> forall j :: 0 <= j < r.value ==> !Contains(s, phrases[j].0))
      && (r.None? <==> forall j :: 0 <= j < |phrases| ==> !Contains(s, phrases[j].0))
  {
    FirstMatchFromIsFirst(phrases, s, 0);
  }

  lemma {:induction false} FirstMatchFromIsFirst(phrases: seq<(string, string)>, s: string, i: nat)
    requires i <= |phrases|
    requires forall j :: 0 <= j < i ==> !Contains(s, phrases[j].0)
    ensures var r := FirstMatchFrom(phrases, s, i);
      && (r.Some? ==> Contains(s, phrases[r.value].0))
      && (r.Some? ==> forall j :: 0 <= j < r.value ==> !Contains(s, phrases[j].0))
      && (r.None? <==> forall j :: 0 <= j < |phrases| ==> !Contains(s, phrases[j].0))
    decreases |phrases| - i
  {
    if i < |phrases| && !Contains(s, phrases[i].0) {
      FirstMatchFromIsFirst(phrases, s, i + 1);
    }
  }

  /** The bracketed stand-in for text without a known phrase. */
  function Placeholder(text: string, langCode: string): string {
    "[" + LanguageCodes.LookupOr(LangNames, langCode, langCode) + " translation of: " + text + "]"
  }

  /** The fallback of `translate_text` for a given phrase table: the
      translation of the first phrase in the lowered text, or else the
      placeholder. */
  function FromTable(phrases: seq<(string, string)>, text: string, langCode: string): string {
    match FirstMatch(phrases, Lower(text))
    case Some(i) => phrases[i].1
    case None => Placeholder(text, langCode)
  }

  /** `translate_text(text, lang_code)`. `fineTuned` is what the installed
      fine-tuned model produced for this text, if anything. */
  function TranslateText(text: string, langCode: string, fineTuned: Option<string>): (r: string)
    ensures |text| == 0 ==> r == ""
    ensures |text| > 0 && langCode in ModelDirMap && fineTuned.Some? ==> r == fineTuned.value
  {
    if |text| == 0 then ""
    else if langCode in ModelDirMap && fineTuned.Some? then fineTuned.value
    else FromTable(PhrasesFor(langCode), text, langCode)
  }

  /** `tgt_lang.split('_')[0]`: the text before the first underscore. */
  function BeforeUnderscore(tag: string): string {
    if |tag| == 0 || tag[0] == '_' then ""
    else [tag[0]] + BeforeUnderscore(tag[1..])
  }

  /** The three-letter prefixes the pipeline renames to short codes. */
  function ShortCode(prefix: string): string {
    if prefix == "hin" then "hi"
    else if prefix == "ory" then "or"
    else if prefix == "ben" then "bn"
    else if prefix == "tam" then "ta"
    else if prefix == "tel" then "te"
    else prefix
  }

  /** The language code `translate_pipeline` derives from a target tag. */
  function ParseTag(tgtLang: string): (r: string)
    ensures '_' !in tgtLang ==> r == tgtLang
  {
    if '_' in tgtLang then ShortCode(BeforeUnderscore(tgtLang)) else tgtLang
  }

  /** `translate_pipeline(text, src_lang, tgt_lang)`: the source language
      plays no part. */
  function TranslatePipeline(text: string, srcLang: string, tgtLang: string, fineTuned: Option<string>): (r: string)
    ensures '_' !in tgtLang ==> r == TranslateText(text, tgtLang, fineTuned)
  {
    TranslateText(text, ParseTag(tgtLang), fineTuned)
  }

  /** A tag of the form `prefix_script` is renamed by its prefix alone. */
  lemma {:induction false} ParseTagByPrefix(prefix: string, script: string)
    requires '_' !in prefix
    ensures ParseTag(prefix + "_" + script) == ShortCode(prefix)
  {
    var tag := prefix + "_" + script;
    assert tag == prefix + ("_" + script);
    assert tag[|prefix|] == '_';
    PrefixBeforeUnderscore(prefix, "_" + script);
  }

  lemma {:induction false} PrefixBeforeUnderscore(prefix: string, rest: string)
    requires '_' !in prefix && |rest| > 0 && rest[0] == '_'
    ensures BeforeUnderscore(prefix + rest) == prefix
  {
    if |prefix| == 0 {
      assert prefix + rest == rest;
    } else {
      assert (prefix + rest)[1..] == prefix[1..] + rest;
      PrefixBeforeUnderscore(prefix[1..], rest);
    }
  }

  /** The NLLB tags of the five languages with a phrase table are renamed
      back to their own short codes. */
  lemma TagsMatchIsoCodes()
    ensures forall code :: code in TableLanguages ==>
      code in LanguageCodes.IsoToNllb && ParseTag(LanguageCodes.IsoToNllb[code]) == code
  {
    forall code | code in TableLanguages
      ensures code in LanguageCodes.IsoToNllb && ParseTag(LanguageCodes.IsoToNllb[code]) == code
    {
      if code == "hi" {
        TagOf(code, "hin", "Deva");
      } else if code == "or" {
        TagOf(code, "ory", "Orya");
      } else if code == "bn" {
        TagOf(code, "ben", "Beng");
      } else if code == "ta" {
        TagOf(code, "tam", "Taml");
      } else {
        TagOf(code, "tel", "Telu");
      }
    }
  }

  lemma TagOf(code: string, prefix: string, script: string)
    requires code in LanguageCodes.IsoToNllb && LanguageCodes.IsoToNllb[code] == prefix + "_" + script
    requires '_' !in prefix && ShortCode(prefix) == code
    ensures ParseTag(LanguageCodes.IsoToNllb[code]) == code
  {
    ParseTagByPrefix(prefix, script);
  }

  /** Any other tag keeps its own prefix, so it gets the generic placeholder
      named by that prefix: `asm_Beng` becomes "[asm translation of: …]". */
  lemma UnknownTagPlaceholder(text: string, srcLang: string)
    requires |text| > 0
    ensures TranslatePipeline(text, srcLang, "asm_Beng", None) == Placeholder(text, "asm")
  {
    UnknownTagIsPrefix("asm_Beng", "asm", "Beng");
    NoTablePlaceholder(text, "asm", None);
  }

  lemma UnknownTagIsPrefix(tag: string, prefix: string, script: string)
    requires tag == prefix + "_" + script && '_' !in prefix && ShortCode(prefix) == prefix
    ensures ParseTag(tag) == prefix
  {
    ParseTagByPrefix(prefix, script);
  }

  /** A table whose first phrase occurs in the lowered text answers with
      that phrase's translation. */
  lemma FirstPhraseAnswers(phrases: seq<(string, string)>, phrase: string, text: string, langCode: string)
    requires |phrases| > 0 && phrases[0].0 == phrase && Contains(Lower(text), phrase)
    ensures FromTable(phrases, text, langCode) == phrases[0].1
  {
    assert FirstMatch(phrases, Lower(text)) == Some(0);
  }

  /** The greeting comes first in every table, so text that contains
      "hello" in any letter case gets the greeting from the table, whatever
      else it says. */
  lemma GreetingWins(text: string, langCode: string)
    requires |PhrasesFor(langCode)| > 0 && Contains(Lower(text), "hello")
    ensures FromTable(PhrasesFor(langCode), text, langCode) == PhrasesFor(langCode)[0].1
  {
    var phrases := PhrasesFor(langCode);
    GreetingFirst(langCode);
    FirstPhraseAnswers(phrases, "hello", text, langCode);
  }

  lemma GreetingFirst(langCode: string)
    requires |PhrasesFor(langCode)| > 0
    ensures |PhrasesFor(langCode)| == 3 && PhrasesFor(langCode)[0].0 == "hello"
  {
  }

  /** Without fine-tuned output the answer comes from the language's table. */
  lemma TableFallback(text: string, langCode: string, fineTuned: Option<string>)
    requires |text| > 0 && (langCode !in ModelDirMap || fineTuned.None?)
    ensures TranslateText(text, langCode, fineTuned) == FromTable(PhrasesFor(langCode), text, langCode)
  {
  }

  /** The placeholder ends with the untouched text and a closing bracket,
      so the text can be read back off it. */
  lemma PlaceholderKeepsText(text: string, langCode: string)
    ensures var r := Placeholder(text, langCode);
      |r| > |text| + 1 && r[|r| - |text| - 1..|r| - 1] == text && r[|r| - 1] == ']'
  {
  }

  /** Text in a language without a table or fine-tuned model always gets the
      placeholder, named after the language when it has a name. */
  lemma NoTablePlaceholder(text: string, langCode: string, fineTuned: Option<string>)
    requires |text| > 0 && langCode !in TableLanguages
    ensures TranslateText(text, langCode, fineTuned) == Placeholder(text, langCode)
  {
  }

  /** What `check_model_availability` reports for one language. */
  datatype Availability = Availability(name: string, available: bool)

  /** `check_model_availability()`: the five table languages, each reported
      available under its display name. */
  function CheckModelAvailability(): (r: map<string, Availability>)
    ensures r.Keys == TableLanguages && r.Keys == LangNames.Keys && r.Keys == ModelDirMap.Keys
    ensures forall code :: code in r ==> r[code].available && r[code].name == LangNames[code]
  {
    map code | code in LangNames :: Availability(LangNames[code], true)
  }
}

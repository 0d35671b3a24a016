/** The override translator: every target tag is answered with a bracketed
    stand-in that names the language in its own script. */
module TranslatorOverride {
  import LanguageCodes

  /** The native-script label of each target tag. */
  const Labels: map<string, string> := map[
    "ory_Orya" := "ଓଡ଼ିଆ",
    "hin_Deva" := "हिंदी",
    "ben_Beng" := "বাংলা",
    "tam_Taml" := "தமிழ்",
    "tel_Telu" := "తెలుగు",
    "asm_Beng" := "অসমীয়া",
    "guj_Gujr" := "ગુજરાતી",
    "kan_Knda" := "ಕನ್ನಡ",
    "mar_Deva" := "मराठी",
    "mal_Mlym" := "മലയാളം",
    "pan_Guru" := "ਪੰਜਾਬੀ",
    "urd_Arab" := "اردو"]

  /** `translate_pipeline(text, src_lang, tgt_lang)`: the text in brackets
      after the language's label, or after the raw tag when it has none. */
  function TranslatePipeline(text: string, srcLang: string, tgtLang: string): (r: string)
    ensures |r| >= |text| + 4 && r[0] == '[' && r[|r| - 1] == ']'
  {
    "[" + LanguageCodes.LookupOr(Labels, tgtLang, tgtLang) + ": " + text + "]"
  }

  /** The text is the part between the label's ": " and the closing bracket,
      untouched, and the label is all that precedes it. */
  lemma TextReadsBack(text: string, srcLang: string, tgtLang: string)
    ensures var r := TranslatePipeline(text, srcLang, tgtLang);
      var shown := LanguageCodes.LookupOr(Labels, tgtLang, tgtLang);
      r[|r| - |text| - 1..|r| - 1] == text
      && r[1..|shown| + 1] == shown && r[|shown| + 1..|shown| + 3] == ": "
  {
    var r := TranslatePipeline(text, srcLang, tgtLang);
    var shown := LanguageCodes.LookupOr(Labels, tgtLang, tgtLang);
    assert r == "[" + shown + ": " + text + "]";
  }

  /** Exactly the target languages the translator offers have a label. */
  lemma LabelsCoverTargets()
    ensures Labels.Keys == LanguageCodes.SupportedLanguages.Values
  {
    TargetTags();
  }

  /** The twelve NLLB tags the translator offers as targets. */
  lemma TargetTags()
    ensures LanguageCodes.SupportedLanguages.Values == {"asm_Beng", "ben_Beng", "guj_Gujr", "hin_Deva", "kan_Knda", "mal_Mlym", "mar_Deva", "ory_Orya", "pan_Guru", "tam_Taml", "tel_Telu", "urd_Arab"}
  {
    assert LanguageCodes.SupportedLanguages["Assamese"] == "asm_Beng";
    assert LanguageCodes.SupportedLanguages["Bengali"] == "ben_Beng";
    assert LanguageCodes.SupportedLanguages["Gujarati"] == "guj_Gujr";
    assert LanguageCodes.SupportedLanguages["Hindi"] == "hin_Deva";
    assert LanguageCodes.SupportedLanguages["Kannada"] == "kan_Knda";
    assert LanguageCodes.SupportedLanguages["Malayalam"] == "mal_Mlym";
    assert LanguageCodes.SupportedLanguages["Marathi"] == "mar_Deva";
    assert LanguageCodes.SupportedLanguages["Odia"] == "ory_Orya";
    assert LanguageCodes.SupportedLanguages["Punjabi"] == "pan_Guru";
    assert LanguageCodes.SupportedLanguages["Tamil"] == "tam_Taml";
    assert LanguageCodes.SupportedLanguages["Telugu"] == "tel_Telu";
    assert LanguageCodes.SupportedLanguages["Urdu"] == "urd_Arab";
  }

  /** A tag without a label, English's included, is shown as it is. */
  lemma UnlabelledTagShownRaw(text: string, srcLang: string)
    ensures TranslatePipeline(text, srcLang, "eng_Latn") == "[eng_Latn: " + text + "]"
  {
  }

  /** What `check_model_availability` reports for one language. */
  datatype Availability = Availability(name: string, available: bool)

  /** `check_model_availability()`: twelve languages, all reported available. */
  function CheckModelAvailability(modelDir: string): (r: map<string, Availability>)
    ensures forall code :: code in r ==> r[code].available
    ensures r.Keys == LanguageCodes.FriendlyToLangCode.Values
  {
    TargetCodes();
    map[
      "hi" := Availability("Hindi", true), "or" := Availability("Oriya", true),
      "bn" := Availability("Bengali", true), "ta" := Availability("Tamil", true),
      "te" := Availability("Telugu", true), "as" := Availability("Assamese", true),
      "gu" := Availability("Gujarati", true), "kn" := Availability("Kannada", true),
      "mr" := Availability("Marathi", true), "ml" := Availability("Malayalam", true),
      "pa" := Availability("Punjabi", true), "ur" := Availability("Urdu", true)]
  }

  /** The twelve short codes of the target languages. */
  lemma TargetCodes()
    ensures LanguageCodes.FriendlyToLangCode.Values == {"hi", "bn", "gu", "as", "kn", "ml", "mr", "or", "pa", "ta", "te", "ur"}
  {
    assert LanguageCodes.FriendlyToLangCode["Hindi"] == "hi";
    assert LanguageCodes.FriendlyToLangCode["Bengali"] == "bn";
    assert LanguageCodes.FriendlyToLangCode["Gujarati"] == "gu";
    assert LanguageCodes.FriendlyToLangCode["Assamese"] == "as";
    assert LanguageCodes.FriendlyToLangCode["Kannada"] == "kn";
    assert LanguageCodes.FriendlyToLangCode["Malayalam"] == "ml";
    assert LanguageCodes.FriendlyToLangCode["Marathi"] == "mr";
    assert LanguageCodes.FriendlyToLangCode["Odia"] == "or";
    assert LanguageCodes.FriendlyToLangCode["Punjabi"] == "pa";
    assert LanguageCodes.FriendlyToLangCode["Tamil"] == "ta";
    assert LanguageCodes.FriendlyToLangCode["Telugu"] == "te";
    assert LanguageCodes.FriendlyToLangCode["Urdu"] == "ur";
  }
}

/** The demo translator of the Indic translation package: a fixed set of
    five languages with their NLLB tags, and a stand-in translation. */
module ModelUtils {
  import LanguageCodes
  import SimpleTranslator

  /** One entry of `LANGUAGE_CONFIGS`. */
  datatype LanguageConfig = LanguageConfig(name: string, modelTag: string)

  /** `LANGUAGE_CONFIGS` */
  const LanguageConfigs: map<string, LanguageConfig> := map[
    "hi" := LanguageConfig("Hindi", "hin_Deva"),
    "or" := LanguageConfig("Oriya", "ory_Orya"),
    "bn" := LanguageConfig("Bengali", "ben_Beng"),
    "ta" := LanguageConfig("Tamil", "tam_Taml"),
    "te" := LanguageConfig("Telugu", "tel_Telu")]

  /** `get_supported_languages()`: code to display name. */
  function GetSupportedLanguages(): (r: map<string, string>)
    ensures r.Keys == LanguageConfigs.Keys
    ensures forall code :: code in r ==> r[code] == LanguageConfigs[code].name
  {
    map code | code in LanguageConfigs :: LanguageConfigs[code].name
  }

  const UnsupportedPrefix := "Error: Unsupported language "

  /** `translate_text(text, lang_code, model_dir)`: empty text stays empty,
      an unknown code is reported, and a known one gets the stand-in. The
      model directory plays no part. */
  function TranslateText(text: string, langCode: string, modelDir: string): (r: string)
    ensures |text| == 0 <==> |r| == 0
    ensures |text| > 0 ==> (r[0] == 'E' <==> langCode !in LanguageConfigs)
    ensures |text| > 0 && langCode !in LanguageConfigs ==>
      |r| >= |UnsupportedPrefix| && r[..|UnsupportedPrefix|] == UnsupportedPrefix
      && r[|UnsupportedPrefix|..] == langCode
    ensures |text| > 0 && langCode in LanguageConfigs ==>
      |r| > |text| + 1 && r[|r| - |text| - 1..|r| - 1] == text
  {
    if |text| == 0 then ""
    else if langCode !in LanguageConfigs then
      assert (UnsupportedPrefix + langCode)[..|UnsupportedPrefix|] == UnsupportedPrefix;
      UnsupportedPrefix + langCode
    else
      var r := "[This would be the " + LanguageConfigs[langCode].name + " translation of: " + text + "]";
      assert r[|r| - |text| - 1..|r| - 1] == text;
      r
  }

  /** Every model tag is the NLLB code of its language. */
  lemma TagsAreNllbCodes()
    ensures forall code :: code in LanguageConfigs ==>
      LanguageConfigs[code].modelTag in LanguageCodes.NllbToIso
      && LanguageCodes.NllbToIso[LanguageConfigs[code].modelTag] == code
  {
    forall code | code in LanguageConfigs
      ensures LanguageConfigs[code].modelTag in LanguageCodes.NllbToIso
        && LanguageCodes.NllbToIso[LanguageConfigs[code].modelTag] == code
    {
      if code == "hi" {
        assert LanguageCodes.NllbToIso["hin_Deva"] == "hi";
      } else if code == "or" {
        assert LanguageCodes.NllbToIso["ory_Orya"] == "or";
      } else if code == "bn" {
        assert LanguageCodes.NllbToIso["ben_Beng"] == "bn";
      } else if code == "ta" {
        assert LanguageCodes.NllbToIso["tam_Taml"] == "ta";
      } else {
        assert LanguageCodes.NllbToIso["tel_Telu"] == "te";
      }
    }
  }

  /** The package supports the same five languages, under the same names, as
      the placeholder translator. */
  lemma SameLanguagesAsPlaceholder()
    ensures GetSupportedLanguages() == SimpleTranslator.LangNames
  {
    var r := GetSupportedLanguages();
    assert r.Keys == SimpleTranslator.LangNames.Keys;
    forall code | code in r ensures r[code] == SimpleTranslator.LangNames[code] {
      assert code in {"hi", "or", "bn", "ta", "te"};
    }
  }

  /** The placeholder translator's pipeline turns each model tag back into
      its language's code. */
  lemma TagsParseBack()
    ensures forall code :: code in LanguageConfigs ==>
      SimpleTranslator.ParseTag(LanguageConfigs[code].modelTag) == code
  {
    forall code | code in LanguageConfigs
      ensures SimpleTranslator.ParseTag(LanguageConfigs[code].modelTag) == code
    {
      TagParsesBack(code);
    }
  }

  lemma TagParsesBack(code: string)
    requires code in LanguageConfigs
    ensures SimpleTranslator.ParseTag(LanguageConfigs[code].modelTag) == code
  {
    assert code in SimpleTranslator.TableLanguages;
    assert LanguageCodes.IsoToNllb[code] == LanguageConfigs[code].modelTag by {
      TagsAreNllbCodes();
      LanguageCodes.NllbIsoInverse();
    }
    SimpleTranslator.TagsMatchIsoCodes();
  }
}

/** The translator's language tables: NLLB/FLORES-200 codes, ISO 639-1
    short codes and the friendly names shown to users. */
module LanguageCodes {
  import opened Wrappers

  /** NLLB code to ISO 639-1 short code, for the 12 Indian languages and
      English. */
  const NllbToIso: map<string, string> := map[
    "asm_Beng" := "as", "ben_Beng" := "bn", "guj_Gujr" := "gu", "hin_Deva" := "hi",
    "kan_Knda" := "kn", "mal_Mlym" := "ml", "mar_Deva" := "mr", "ory_Orya" := "or",
    "pan_Guru" := "pa", "tam_Taml" := "ta", "tel_Telu" := "te", "urd_Arab" := "ur",
    "eng_Latn" := "en"]

  /** ISO 639-1 short code to NLLB code. */
  const IsoToNllb: map<string, string> := map[
    "as" := "asm_Beng", "bn" := "ben_Beng", "gu" := "guj_Gujr", "hi" := "hin_Deva",
    "kn" := "kan_Knda", "ml" := "mal_Mlym", "mr" := "mar_Deva", "or" := "ory_Orya",
    "pa" := "pan_Guru", "ta" := "tam_Taml", "te" := "tel_Telu", "ur" := "urd_Arab",
    "en" := "eng_Latn"]

  /** The translation targets: friendly name to NLLB code. */
  const SupportedLanguages: map<string, string> := map[
    "Assamese" := "asm_Beng", "Bengali" := "ben_Beng", "Gujarati" := "guj_Gujr",
    "Hindi" := "hin_Deva", "Kannada" := "kan_Knda", "Malayalam" := "mal_Mlym",
    "Marathi" := "mar_Deva", "Odia" := "ory_Orya", "Punjabi" := "pan_Guru",
    "Tamil" := "tam_Taml", "Telugu" := "tel_Telu", "Urdu" := "urd_Arab"]

  /** The translation sources: short code to NLLB code. */
  const NllbSourceLangCodes: map<string, string> := map["en" := "eng_Latn", "hi" := "hin_Deva"]

  /** Friendly name to the short code that selects a manual dictionary. */
  const FriendlyToLangCode: map<string, string> := map[
    "Hindi" := "hi", "Bengali" := "bn", "Gujarati" := "gu", "Assamese" := "as",
    "Kannada" := "kn", "Malayalam" := "ml", "Marathi" := "mr", "Odia" := "or",
    "Punjabi" := "pa", "Tamil" := "ta", "Telugu" := "te", "Urdu" := "ur"]

  /** `d.get(key)` */
  function Lookup(d: map<string, string>, key: string): (r: Option<string>)
    ensures r.Some? <==> key in d
    ensures r.Some? ==> r.value == d[key]
  {
    if key in d then Some(d[key]) else None
  }

  /** `d.get(key, default)` */
  function LookupOr(d: map<string, string>, key: string, default: string): (r: string)
    ensures key in d ==> r == d[key]
    ensures key !in d ==> r == default
  {
    if key in d then d[key] else default
  }

  /** The two code maps are inverse to each other over the same 13 codes. */
  lemma NllbIsoInverse()
    ensures NllbToIso.Keys == IsoToNllb.Values && IsoToNllb.Keys == NllbToIso.Values
    ensures forall c :: c in NllbToIso ==> NllbToIso[c] in IsoToNllb && IsoToNllb[NllbToIso[c]] == c
    ensures forall c :: c in IsoToNllb ==> IsoToNllb[c] in NllbToIso && NllbToIso[IsoToNllb[c]] == c
  {
    NllbToIsoAndBack();
    IsoToNllbAndBack();
  }

  lemma NllbToIsoAndBack()
    ensures forall c :: c in NllbToIso ==> NllbToIso[c] in IsoToNllb && IsoToNllb[NllbToIso[c]] == c
  {
  }

  lemma IsoToNllbAndBack()
    ensures forall c :: c in IsoToNllb ==> IsoToNllb[c] in NllbToIso && NllbToIso[IsoToNllb[c]] == c
  {
  }

  /** The dictionary code of every target is the ISO code of its NLLB code,
      and the two tables name the same 12 targets. */
  lemma FriendlyCodesAgree()
    ensures FriendlyToLangCode.Keys == SupportedLanguages.Keys
    ensures forall name :: name in SupportedLanguages ==>
      SupportedLanguages[name] in NllbToIso && FriendlyToLangCode[name] == NllbToIso[SupportedLanguages[name]]
  {
  }

  /** Both source codes map to NLLB codes whose ISO code is the source code
      itself; Hindi is both a source and a target, English only a source. */
  lemma SourcesAndTargets()
    ensures forall src :: src in NllbSourceLangCodes ==>
      NllbSourceLangCodes[src] in NllbToIso && NllbToIso[NllbSourceLangCodes[src]] == src
    ensures NllbSourceLangCodes["hi"] == SupportedLanguages["Hindi"]
    ensures forall name :: name in SupportedLanguages ==> SupportedLanguages[name] != NllbSourceLangCodes["en"]
    ensures forall name :: name in SupportedLanguages ==> |SupportedLanguages[name]| == 8
  {
  }
}

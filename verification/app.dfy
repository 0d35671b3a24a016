/** The small pure helpers of the web front end: the upload extension
    check, the source-language fallback, the language shown in the log, and
    the languages without text-to-speech. */
module App {
  import opened Text
  import LanguageCodes

  const ImageExtensions: set<string> := {"png", "jpg", "jpeg", "gif", "bmp", "webp"}
  const AudioExtensions: set<string> := {"mp3", "wav", "ogg", "flac", "m4a"}

  /** `filename.rsplit('.', 1)[1]` when the name has a dot: the text after
      the last dot. Without a dot it is the whole name. */
  function AfterLastDot(s: string): (r: string)
    ensures '.' !in r && |r| <= |s| && s[|s| - |r|..] == r
    ensures '.' in s ==> s[|s| - |r| - 1] == '.'
  {
    if |s| == 0 then ""
    else if s[|s| - 1] == '.' then ""
    else
      var r := AfterLastDot(s[..|s| - 1]) + [s[|s| - 1]];
      assert '.' in s ==> '.' in s[..|s| - 1] by {
        if '.' in s {
          var k :| 0 <= k < |s| && s[k] == '.';
          assert s[..|s| - 1][k] == '.';
        }
      }
      r
  }

  /** `allowed_file(filename, allowed_extensions)` */
  predicate AllowedFile(filename: string, extensions: set<string>) {
    '.' in filename && Lower(AfterLastDot(filename)) in extensions
  }

  /** Only the text after the last dot decides, in any letter case. */
  lemma ExtensionDecides(name: string, ext: string, extensions: set<string>)
    requires '.' !in ext
    ensures AllowedFile(name + "." + ext, extensions) <==> Lower(ext) in extensions
  {
    var s := name + "." + ext;
    assert s[|s| - |ext| - 1] == '.';
    LastDotSuffix(s, |s| - |ext| - 1);
    assert s[|s| - |ext|..] == ext;
  }

  /** The dot-free suffix ends at the last dot. */
  lemma {:induction false} LastDotSuffix(s: string, k: nat)
    requires k < |s| && s[k] == '.' && '.' !in s[k + 1..]
    ensures AfterLastDot(s) == s[k + 1..]
    decreases |s|
  {
    if k < |s| - 1 {
      var t := s[..|s| - 1];
      assert t[k + 1..] + [s[|s| - 1]] == s[k + 1..];
      assert s[|s| - 1] in s[k + 1..];
      LastDotSuffix(t, k);
    }
  }

  /** A name without a dot is never allowed. */
  lemma NoDotRejected(filename: string, extensions: set<string>)
    requires '.' !in filename
    ensures !AllowedFile(filename, extensions)
  {
  }

  /** `a.png.exe` is not an image: only the last extension counts. */
  lemma DoubleExtensionRejected()
    ensures !AllowedFile("a.png" + "." + "exe", ImageExtensions)
  {
    ExtensionDecides("a.png", "exe", ImageExtensions);
    assert Lower("exe") == "exe";
  }

  /** `x.PNG` is an image: the extension is lowered first. */
  lemma UpperCaseAccepted()
    ensures AllowedFile("x.PNG", ImageExtensions)
  {
    assert "x.PNG" == "x" + "." + "PNG";
    ExtensionDecides("x", "PNG", ImageExtensions);
    assert Lower("PNG") == "png";
  }

  /** A trailing dot leaves an empty extension, which no list allows. */
  lemma TrailingDotRejected(name: string)
    ensures !AllowedFile(name + ".", ImageExtensions) && !AllowedFile(name + ".", AudioExtensions)
  {
    assert name + "." == name + "." + "";
    ExtensionDecides(name, "", ImageExtensions);
    ExtensionDecides(name, "", AudioExtensions);
  }

  /** The source language used for text, OCR and speech input: a detected
      language other than English or Hindi falls back to English. */
  function FallbackSource(detected: string): (r: string)
    ensures r in LanguageCodes.NllbSourceLangCodes
    ensures r == detected <==> detected in LanguageCodes.NllbSourceLangCodes
    ensures r != detected ==> r == "en"
  {
    if detected in ["en", "hi"] then detected else "en"
  }

  /** The NLLB code recorded in the log for the selected target name. */
  function LogTarget(targetName: string): (r: string)
    ensures r == "unknown" <==> targetName !in LanguageCodes.SupportedLanguages
    ensures r != "unknown" ==> r == LanguageCodes.SupportedLanguages[targetName]
  {
    LanguageCodes.SourcesAndTargets();
    LanguageCodes.LookupOr(LanguageCodes.SupportedLanguages, targetName, "unknown")
  }

  /** `TTS_LANG_CODES` */
  const TtsLangCodes: map<string, string> := map[
    "Hindi" := "hi", "Bengali" := "bn", "Gujarati" := "gu", "Kannada" := "kn",
    "Malayalam" := "ml", "Marathi" := "mr", "Punjabi" := "pa", "Tamil" := "ta",
    "Telugu" := "te", "Urdu" := "ur", "English" := "en"]

  /** `TTS_UNSUPPORTED_LANGS`: target names without text-to-speech. */
  function TtsUnsupported(): set<string> {
    LanguageCodes.SupportedLanguages.Keys - TtsLangCodes.Keys
  }

  /** Exactly Assamese and Odia have no text-to-speech. */
  lemma TtsUnsupportedIsAssameseAndOdia()
    ensures forall name :: name in TtsUnsupported() <==> name == "Assamese" || name == "Odia"
  {
    forall name ensures name in TtsUnsupported() <==> name == "Assamese" || name == "Odia" {
      if name == "Assamese" || name == "Odia" {
        assert name in LanguageCodes.SupportedLanguages;
        assert name !in TtsLangCodes;
      } else if name in LanguageCodes.SupportedLanguages {
        assert name in TtsLangCodes;
      }
    }
  }
}

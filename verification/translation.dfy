/** `translate_text`: validate the request, preprocess the text, cut it into
    chunks, fetch the pair's pipeline from the cache and translate chunk by
    chunk, all or nothing. The pipeline itself is a function given as a
    parameter. */
module Translation {
  import opened Wrappers
  import opened Text
  import opened Preprocessing
  import opened Chunking
  import opened PipelineCache
  import LanguageCodes

  /** What calling a pipeline on one chunk gives back: a list of result
      records (each record's `translation_text`, when it has one), some
      other value, or an exception with its message. */
  datatype PipelineReply =
    | Items(translations: seq<Option<string>>)
    | NotAList
    | Raised(message: string)

  /** `(translated_text, None)` or `(None, error_message)`. */
  datatype TranslationResult = Translated(text: string) | Failed(message: string)

  /** A request that passed validation: the preprocessed text and the two
      NLLB codes. */
  datatype Request = Request(text: string, srcCode: string, tgtCode: string)

  const NoTextMessage := "No text provided for translation."
  const InvalidReplyMessage := "Translation pipeline returned empty or invalid result format."

  function SourceMessage(src: string): string {
    "Source language short code '" + src + "' not mapped to NLLB code."
  }

  function TargetMessage(targetName: string): string {
    "Target language name '" + targetName + "' not mapped to NLLB code."
  }

  function UnavailableMessage(srcCode: string, tgtCode: string): string {
    "Translator pipeline for " + srcCode + " -> " + tgtCode + " is not available."
  }

  function FailedMessage(error: string): string {
    "Translation failed: " + error
  }

  /** The reply's text when the reply passes the validity test: a non-empty
      list whose first record has a non-empty `translation_text`. */
  function ReplyText(reply: PipelineReply): (r: Option<string>)
    ensures r.Some? <==> reply.Items? && |reply.translations| > 0
                         && reply.translations[0].Some? && |reply.translations[0].value| > 0
    ensures r.Some? ==> r == reply.translations[0]
  {
    if reply.Items? && |reply.translations| > 0 && reply.translations[0].Some?
       && |reply.translations[0].value| > 0
    then reply.translations[0]
    else None
  }

  /** The checks `translate_text` makes before translating, in its order:
      empty text, then the source code, then the target name. */
  function CheckRequest(text: string, src: string, targetName: string): (r: Result<Request>)
    ensures r.Ok? <==> |text| > 0 && src in LanguageCodes.NllbSourceLangCodes
                       && targetName in LanguageCodes.SupportedLanguages
    ensures r.Ok? ==> r.value == Request(Preprocessed(text, targetName),
                                         LanguageCodes.NllbSourceLangCodes[src],
                                         LanguageCodes.SupportedLanguages[targetName])
    ensures |text| == 0 ==> r == Err(NoTextMessage)
    ensures |text| > 0 && src !in LanguageCodes.NllbSourceLangCodes ==> r == Err(SourceMessage(src))
    ensures |text| > 0 && src in LanguageCodes.NllbSourceLangCodes && targetName !in LanguageCodes.SupportedLanguages
            ==> r == Err(TargetMessage(targetName))
  {
    CodesNonEmpty();
    if |text| == 0 then Err(NoTextMessage)
    else
      var pre := Preprocessed(text, targetName);
      match LanguageCodes.Lookup(LanguageCodes.NllbSourceLangCodes, src)
      case None => Err(SourceMessage(src))
      case Some(srcCode) =>
        if |srcCode| == 0 then Err(SourceMessage(src))
        else
          match LanguageCodes.Lookup(LanguageCodes.SupportedLanguages, targetName)
          case None => Err(TargetMessage(targetName))
          case Some(tgtCode) =>
            if |tgtCode| == 0 then Err(TargetMessage(targetName))
            else Ok(Request(pre, srcCode, tgtCode))
  }

  lemma CodesNonEmpty()
    ensures forall src :: src in LanguageCodes.NllbSourceLangCodes ==> |LanguageCodes.NllbSourceLangCodes[src]| > 0
    ensures forall name :: name in LanguageCodes.SupportedLanguages ==> |LanguageCodes.SupportedLanguages[name]| > 0
  {
    LanguageCodes.SourcesAndTargets();
  }

  /** An accepted request carries normalized text. */
  lemma AcceptedTextNormalized(text: string, src: string, targetName: string)
    requires CheckRequest(text, src, targetName).Ok?
    ensures Normalized(CheckRequest(text, src, targetName).value.text)
  {
    PreprocessedIsNormalized(text, targetName);
  }

  /** The translations of the chunks, in order, blank chunks skipped; the
      first chunk whose reply is an exception or fails the validity test
      decides the error. Defined from the last chunk, so that a loop over a
      prefix of the chunks is described by this function on that prefix. */
  function ChunkOutputs(p: Pipeline, translate: (Pipeline, string) -> PipelineReply,
                        chunks: seq<string>): (r: Result<seq<string>>)
    ensures r.Ok? ==> |r.value| <= |chunks|
    ensures r.Ok? ==> forall i :: 0 <= i < |r.value| ==> |r.value[i]| > 0
    decreases |chunks|
  {
    if |chunks| == 0 then Ok([])
    else
      var chunk := chunks[|chunks| - 1];
      match ChunkOutputs(p, translate, chunks[..|chunks| - 1])
      case Err(e) => Err(e)
      case Ok(ts) =>
        if |Strip(chunk)| == 0 then Ok(ts)
        else
          var reply := translate(p, chunk);
          if reply.Raised? then Err(reply.message)
          else
            match ReplyText(reply)
            case None => Err(InvalidReplyMessage)
            case Some(t) => Ok(ts + [t])
  }

  /** What the translation step returns for the given chunks and the
      pipeline the cache handed out. */
  function TranslateChunks(translator: Option<Pipeline>, translate: (Pipeline, string) -> PipelineReply,
                           chunks: seq<string>, srcCode: string, tgtCode: string): (r: TranslationResult)
    ensures translator.None? ==> r == Failed(FailedMessage(UnavailableMessage(srcCode, tgtCode)))
    ensures r.Translated? <==> translator.Some? && ChunkOutputs(translator.value, translate, chunks).Ok?
    ensures r.Translated? ==> r.text == JoinSpace(ChunkOutputs(translator.value, translate, chunks).value)
  {
    match translator
    case None => Failed(FailedMessage(UnavailableMessage(srcCode, tgtCode)))
    case Some(p) =>
      match ChunkOutputs(p, translate, chunks)
      case Ok(ts) => Translated(JoinSpace(ts))
      case Err(e) => Failed(FailedMessage(e))
  }

  /** `translate_text(text, source_lang_short, target_lang_friendly_name)`.
      Validation failures leave the cache alone; otherwise the cache is as
      `get_translation_pipeline` leaves it and the result is the chunk-wise
      translation of the preprocessed text. */
  method TranslateText(cache: Cache, text: string, src: string, targetName: string,
                       localDirExists: bool, outcomes: seq<LoadOutcome>,
                       translate: (Pipeline, string) -> PipelineReply)
    returns (r: TranslationResult)
    requires cache.Valid() && Retries <= |outcomes|
    modifies cache
    ensures cache.Valid()
    ensures CheckRequest(text, src, targetName).Err? ==>
      r == Failed(CheckRequest(text, src, targetName).error) && unchanged(cache)
    ensures CheckRequest(text, src, targetName).Ok? ==>
      var q := CheckRequest(text, src, targetName).value;
      var key := PipeKey(q.srcCode, q.tgtCode);
      && key in cache.pipelines
      && (key in old(cache.pipelines) ==> cache.pipelines == old(cache.pipelines))
      && (key !in old(cache.pipelines) ==>
            cache.pipelines == old(cache.pipelines)[key := LoadResult(old(cache.tokenizers), q.srcCode, q.tgtCode, localDirExists, outcomes)])
      && (key in old(cache.pipelines) ==> cache.tokenizers == old(cache.tokenizers))
      && (key !in old(cache.pipelines) ==>
            cache.tokenizers == TokenizersAfter(old(cache.tokenizers), ModelPath(localDirExists), q.srcCode,
                                                outcomes, AttemptsUsed(outcomes)))
      && r == TranslateChunks(cache.pipelines[key], translate, Chunks(q.text), q.srcCode, q.tgtCode)
  {
    if |text| == 0 {
      return Failed(NoTextMessage);
    }
    var pre := PreprocessText(text, targetName);
    var srcCode := LanguageCodes.Lookup(LanguageCodes.NllbSourceLangCodes, src);
    if srcCode.None? || |srcCode.value| == 0 {
      return Failed(SourceMessage(src));
    }
    var tgtCode := LanguageCodes.Lookup(LanguageCodes.SupportedLanguages, targetName);
    if tgtCode.None? || |tgtCode.value| == 0 {
      return Failed(TargetMessage(targetName));
    }
    var chunks := Chunks(pre);
    var translator, _ := cache.GetTranslationPipeline(srcCode.value, tgtCode.value, localDirExists, outcomes);
    if translator.None? {
      return Failed(FailedMessage(UnavailableMessage(srcCode.value, tgtCode.value)));
    }
    r := TranslateWith(translator.value, translate, chunks, srcCode.value, tgtCode.value);
  }

  /** The loop over the chunks inside `translate_text`'s `try` block, once
      the pipeline is available. */
  method TranslateWith(p: Pipeline, translate: (Pipeline, string) -> PipelineReply,
                       chunks: seq<string>, srcCode: string, tgtCode: string)
    returns (r: TranslationResult)
    ensures r == TranslateChunks(Some(p), translate, chunks, srcCode, tgtCode)
  {
    var translated: seq<string> := [];
    for i := 0 to |chunks|
      invariant ChunkOutputs(p, translate, chunks[..i]) == Ok(translated)
    {
      var chunk := chunks[i];
      assert chunks[..i + 1][..i] == chunks[..i];
      if |Strip(chunk)| > 0 {
        var reply := translate(p, chunk);
        if reply.Raised? {
          ErrorSticks(p, translate, chunks, i + 1, |chunks|);
          assert chunks[..|chunks|] == chunks;
          return Failed(FailedMessage(reply.message));
        }
        var t := ReplyText(reply);
        if t.None? {
          ErrorSticks(p, translate, chunks, i + 1, |chunks|);
          assert chunks[..|chunks|] == chunks;
          return Failed(FailedMessage(InvalidReplyMessage));
        }
        translated := translated + [t.value];
      }
    }
    assert chunks[..|chunks|] == chunks;
    r := Translated(JoinSpace(translated));
  }

  /** Once a prefix of the chunks has failed, every longer prefix fails
      with the same error: later chunks are never translated. */
  lemma {:induction false} ErrorSticks(p: Pipeline, translate: (Pipeline, string) -> PipelineReply,
                                       chunks: seq<string>, k: nat, j: nat)
    requires k <= j <= |chunks|
    requires ChunkOutputs(p, translate, chunks[..k]).Err?
    ensures ChunkOutputs(p, translate, chunks[..j]) == ChunkOutputs(p, translate, chunks[..k])
    decreases j - k
  {
    if k < j {
      assert chunks[..k + 1][..k] == chunks[..k];
      ErrorSticks(p, translate, chunks, k + 1, j);
    }
  }

  /** A chunk that is not blank and whose reply fails makes the whole
      request fail: no partial translation is ever returned. */
  lemma OneBadChunkFailsAll(p: Pipeline, translate: (Pipeline, string) -> PipelineReply,
                            chunks: seq<string>, j: nat, srcCode: string, tgtCode: string)
    requires j < |chunks| && |Strip(chunks[j])| > 0
    requires translate(p, chunks[j]).Raised? || ReplyText(translate(p, chunks[j])).None?
    ensures TranslateChunks(Some(p), translate, chunks, srcCode, tgtCode).Failed?
  {
    assert chunks[..j + 1][..j] == chunks[..j];
    assert ChunkOutputs(p, translate, chunks[..j + 1]).Err?;
    ErrorSticks(p, translate, chunks, j + 1, |chunks|);
    assert chunks[..|chunks|] == chunks;
  }

  /** Every chunk of `ps` gets a reply that passes the validity test. */
  predicate AllValid(p: Pipeline, translate: (Pipeline, string) -> PipelineReply, ps: seq<string>) {
    forall i :: 0 <= i < |ps| ==> ReplyText(translate(p, ps[i])).Some?
  }

  /** `ts` holds the reply texts of `ps`, one for one and in order. */
  predicate RepliesOf(p: Pipeline, translate: (Pipeline, string) -> PipelineReply,
                      ps: seq<string>, ts: seq<string>) {
    |ts| == |ps| && forall i :: 0 <= i < |ts| ==> ReplyText(translate(p, ps[i])) == Some(ts[i])
  }

  /** What the chunk loop computes: it succeeds exactly when every chunk
      that is not blank gets a valid reply, and then its outputs are the
      texts of those replies, one per non-blank chunk and in order. */
  lemma ChunkOutputsMeaning(p: Pipeline, translate: (Pipeline, string) -> PipelineReply, chunks: seq<string>)
    ensures var r := ChunkOutputs(p, translate, chunks);
      && (r.Ok? <==> forall c :: c in NonBlank(chunks) ==> ReplyText(translate(p, c)).Some?)
      && (r.Ok? ==> |r.value| == |NonBlank(chunks)|)
      && (r.Ok? ==> forall i :: 0 <= i < |r.value| ==> ReplyText(translate(p, NonBlank(chunks)[i])) == Some(r.value[i]))
  {
    ChunkOutputsValid(p, translate, chunks);
  }

  lemma {:induction false} ChunkOutputsValid(p: Pipeline, translate: (Pipeline, string) -> PipelineReply,
                                             chunks: seq<string>)
    ensures var r := ChunkOutputs(p, translate, chunks);
      && (r.Ok? <==> AllValid(p, translate, NonBlank(chunks)))
      && (r.Ok? ==> RepliesOf(p, translate, NonBlank(chunks), r.value))
    decreases |chunks|
  {
    if |chunks| > 0 {
      var n := |chunks| - 1;
      var init, c := chunks[..n], chunks[n];
      ChunkOutputsValid(p, translate, init);
      SplitLast(chunks);
      NonBlankAppend(init, [c]);
      var ri, nb, last := ChunkOutputs(p, translate, init), NonBlank(init), NonBlank([c]);
      var r := ChunkOutputs(p, translate, chunks);
      if ri.Err? {
        assert r == ri;
        AllValidAppend(p, translate, nb, last);
      } else if |Strip(c)| == 0 {
        assert r == ri;
        assert last == [];
        assert nb + last == nb;
      } else {
        assert last == [c];
        AllValidAppend(p, translate, nb, last);
        if ReplyText(translate(p, c)).None? {
          assert r.Err?;
          assert !AllValid(p, translate, last) by { assert last[0] == c; }
        } else {
          assert r == Ok(ri.value + [ReplyText(translate(p, c)).value]);
          RepliesSnoc(p, translate, nb, ri.value, c);
        }
      }
    }
  }

  lemma AllValidAppend(p: Pipeline, translate: (Pipeline, string) -> PipelineReply, a: seq<string>, b: seq<string>)
    ensures AllValid(p, translate, a + b) <==> AllValid(p, translate, a) && AllValid(p, translate, b)
  {
    if AllValid(p, translate, a) && AllValid(p, translate, b) {
      forall i | 0 <= i < |a + b| ensures ReplyText(translate(p, (a + b)[i])).Some? {
        if i >= |a| {
          assert (a + b)[i] == b[i - |a|];
        }
      }
    }
    if AllValid(p, translate, a + b) {
      forall i | 0 <= i < |a| ensures ReplyText(translate(p, a[i])).Some? {
        assert (a + b)[i] == a[i];
      }
      forall i | 0 <= i < |b| ensures ReplyText(translate(p, b[i])).Some? {
        assert (a + b)[|a| + i] == b[i];
      }
    }
  }

  lemma RepliesSnoc(p: Pipeline, translate: (Pipeline, string) -> PipelineReply,
                    ps: seq<string>, ts: seq<string>, c: string)
    requires RepliesOf(p, translate, ps, ts) && ReplyText(translate(p, c)).Some?
    ensures RepliesOf(p, translate, ps + [c], ts + [ReplyText(translate(p, c)).value])
  {
  }

  /** A pipeline that hands every chunk back unchanged. */
  function Echo(p: Pipeline, chunk: string): PipelineReply {
    Items([Some(chunk)])
  }

  /** With chunks that are all clean phrases, echoing them gives them all
      back, in order. */
  lemma {:induction false} EchoOutputs(p: Pipeline, chunks: seq<string>)
    requires forall i :: 0 <= i < |chunks| ==> CleanPhrase(chunks[i])
    ensures ChunkOutputs(p, Echo, chunks) == Ok(chunks)
    decreases |chunks|
  {
    if |chunks| > 0 {
      var n := |chunks| - 1;
      EchoOutputs(p, chunks[..n]);
      assert Strip(chunks[n]) == chunks[n];
      assert chunks[..n] + [chunks[n]] == chunks;
    }
  }

  /** Chunking loses nothing: a pipeline that echoes its input makes
      `translate_text` return exactly the preprocessed text. */
  lemma EchoReturnsPreprocessed(text: string, src: string, targetName: string, p: Pipeline)
    requires CheckRequest(text, src, targetName).Ok?
    ensures var q := CheckRequest(text, src, targetName).value;
      TranslateChunks(Some(p), Echo, Chunks(q.text), q.srcCode, q.tgtCode) == Translated(q.text)
  {
    var q := CheckRequest(text, src, targetName).value;
    AcceptedTextNormalized(text, src, targetName);
    ChunksRoundTrip(q.text);
    EchoOutputs(p, Chunks(q.text));
  }

  /** Text made only of whitespace passes the empty-text check, is
      preprocessed to the empty text and, once a pipeline is available,
      translates to the empty text without a single pipeline call. */
  lemma WhitespaceOnlyTranslatesToEmpty(text: string, src: string, targetName: string,
                                        p: Pipeline, translate: (Pipeline, string) -> PipelineReply)
    requires |text| > 0 && forall i :: 0 <= i < |text| ==> IsSpace(text[i])
    requires src in LanguageCodes.NllbSourceLangCodes && targetName in LanguageCodes.SupportedLanguages
    ensures CheckRequest(text, src, targetName).Ok?
    ensures var q := CheckRequest(text, src, targetName).value;
      q.text == "" && TranslateChunks(Some(p), translate, Chunks(q.text), q.srcCode, q.tgtCode) == Translated("")
  {
    WhitespaceOnlyBecomesEmpty(text, targetName);
    ChunksRoundTrip("");
  }

  /** Both error messages name the offending input. */
  lemma MessagesNameTheInput(src: string, targetName: string)
    ensures Contains(SourceMessage(src), src)
    ensures Contains(TargetMessage(targetName), targetName)
  {
    assert SourceMessage(src) == "Source language short code '" + src + "' not mapped to NLLB code.";
    ContainsMiddle("Source language short code '", src, "' not mapped to NLLB code.");
    ContainsMiddle("Target language name '", targetName, "' not mapped to NLLB code.");
  }
}

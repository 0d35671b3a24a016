/** The process-wide translation pipeline cache and its bounded retry
    loop. Loading a model is abstracted: each attempt's outcome is given
    as input, and whether the local model directory exists is a flag. */
module PipelineCache {
  import opened Wrappers

  /** Loading attempts per cache miss. */
  const Retries := 3
  const LocalModelDir := "models/facebook/nllb-200-distilled-600M"
  const HubModel := "facebook/nllb-200-distilled-600M"

  /** A tokenizer remembers the model it belongs to and the source
      language it was created with. */
  datatype Tokenizer = Tokenizer(modelPath: string, srcLang: string)

  /** A translation pipeline for one (source, target) pair. */
  datatype Pipeline = Pipeline(src: string, tgt: string, modelPath: string, tokenizer: Tokenizer)

  /** How one loading attempt ends. A failing attempt records whether the
      tokenizer step had already completed when the failure happened. */
  datatype LoadOutcome =
    | Loaded
    | RemoteDisconnected(tokenizerLoaded: bool)
    | OtherError(tokenizerLoaded: bool)

  /** The attempt got past the tokenizer step. */
  predicate PastTokenizer(o: LoadOutcome) {
    o.Loaded? || o.tokenizerLoaded
  }

  /** `f"{source_lang_code}_to_{target_lang_code}"` */
  function PipeKey(src: string, tgt: string): string {
    src + "_to_" + tgt
  }

  /** The local model directory when it exists, the hub model otherwise. */
  function ModelPath(localDirExists: bool): string {
    if localDirExists then LocalModelDir else HubModel
  }

  /** The number of attempts made on a miss when starting at attempt `i`:
      attempts go on only while they end in `RemoteDisconnected`. */
  function AttemptsFrom(outcomes: seq<LoadOutcome>, i: nat): (n: nat)
    requires i < Retries <= |outcomes|
    ensures i < n <= Retries
    ensures forall j :: i <= j < n - 1 ==> outcomes[j].RemoteDisconnected?
    ensures n < Retries ==> !outcomes[n - 1].RemoteDisconnected?
    decreases Retries - i
  {
    if i == Retries - 1 || !outcomes[i].RemoteDisconnected? then i + 1
    else AttemptsFrom(outcomes, i + 1)
  }

  /** The number of attempts made on a miss. */
  function AttemptsUsed(outcomes: seq<LoadOutcome>): (n: nat)
    requires Retries <= |outcomes|
    ensures 1 <= n <= Retries
    ensures forall j :: 0 <= j < n - 1 ==> outcomes[j].RemoteDisconnected?
    ensures n < Retries ==> !outcomes[n - 1].RemoteDisconnected?
  {
    AttemptsFrom(outcomes, 0)
  }

  /** Some attempt among the first `m` got past the tokenizer step. */
  predicate TokenizerLoadedWithin(outcomes: seq<LoadOutcome>, m: nat)
    requires m <= |outcomes|
  {
    exists j :: 0 <= j < m && PastTokenizer(outcomes[j])
  }

  /** The tokenizer cache after `m` attempts: an absent tokenizer is added,
      with the requesting pair's source language, by the first attempt that
      gets past the tokenizer step; a present one is never replaced. */
  function TokenizersAfter(tokenizers: map<string, Tokenizer>, path: string, src: string,
                           outcomes: seq<LoadOutcome>, m: nat): (r: map<string, Tokenizer>)
    requires m <= |outcomes|
    ensures forall k :: k in tokenizers ==> k in r && r[k] == tokenizers[k]
    ensures forall k :: k in r && k !in tokenizers ==> k == path && r[k] == Tokenizer(path, src)
  {
    if path !in tokenizers && TokenizerLoadedWithin(outcomes, m) then tokenizers[path := Tokenizer(path, src)]
    else tokenizers
  }

  /** What a miss stores: the pipeline when the last attempt loaded, `None`
      when it failed. */
  function LoadResult(tokenizers: map<string, Tokenizer>, src: string, tgt: string,
                      localDirExists: bool, outcomes: seq<LoadOutcome>): (r: Option<Pipeline>)
    requires Retries <= |outcomes|
    ensures r.Some? <==> outcomes[AttemptsUsed(outcomes) - 1].Loaded?
  {
    var n := AttemptsUsed(outcomes);
    var path := ModelPath(localDirExists);
    if outcomes[n - 1].Loaded? then
      var toks := TokenizersAfter(tokenizers, path, src, outcomes, n);
      assert PastTokenizer(outcomes[n - 1]);
      Some(Pipeline(src, tgt, path, toks[path]))
    else None
  }

  /** Every tokenizer is stored under its own model path. */
  predicate TokenizersKeyed(tokenizers: map<string, Tokenizer>) {
    forall k :: k in tokenizers ==> tokenizers[k].modelPath == k
  }

  /** Every stored pipeline is stored under its own pair's key and carries
      the tokenizer of its own model. */
  predicate PipelinesKeyed(pipelines: map<string, Option<Pipeline>>) {
    forall k :: k in pipelines && pipelines[k].Some? ==>
      k == PipeKey(pipelines[k].value.src, pipelines[k].value.tgt)
      && pipelines[k].value.tokenizer.modelPath == pipelines[k].value.modelPath
  }

  /** The two caches. */
  class Cache {
    var pipelines: map<string, Option<Pipeline>>
    var tokenizers: map<string, Tokenizer>

    ghost predicate Valid()
      reads this
    {
      TokenizersKeyed(tokenizers) && PipelinesKeyed(pipelines)
    }

    constructor ()
      ensures Valid() && pipelines == map[] && tokenizers == map[]
    {
      pipelines := map[];
      tokenizers := map[];
    }

    /** `get_translation_pipeline(source_lang_code, target_lang_code)`. On a
        hit the stored value, possibly `None`, comes back and nothing is
        attempted. On a miss up to `Retries` attempts are made, the result
        (pipeline or `None`) is stored, and a tokenizer may be added.
        `attempts` is how many loading attempts were made. */
    method GetTranslationPipeline(src: string, tgt: string, localDirExists: bool, outcomes: seq<LoadOutcome>)
      returns (p: Option<Pipeline>, attempts: nat)
      requires Valid() && Retries <= |outcomes|
      modifies this
      ensures Valid()
      ensures PipeKey(src, tgt) in pipelines && p == pipelines[PipeKey(src, tgt)]
      ensures PipeKey(src, tgt) in old(pipelines) ==>
        attempts == 0 && pipelines == old(pipelines) && tokenizers == old(tokenizers)
      ensures PipeKey(src, tgt) !in old(pipelines) ==>
        && attempts == AttemptsUsed(outcomes)
        && pipelines == old(pipelines)[PipeKey(src, tgt) := LoadResult(old(tokenizers), src, tgt, localDirExists, outcomes)]
        && tokenizers == TokenizersAfter(old(tokenizers), ModelPath(localDirExists), src, outcomes, attempts)
    {
      var key := PipeKey(src, tgt);
      attempts := 0;
      if key !in pipelines {
        var path := ModelPath(localDirExists);
        var done := false;
        while attempts < Retries && !done
          invariant 0 <= attempts <= Retries
          invariant TokenizersKeyed(tokenizers) && PipelinesKeyed(pipelines)
          invariant tokenizers == TokenizersAfter(old(tokenizers), path, src, outcomes, attempts)
          invariant !done ==> forall j :: 0 <= j < attempts ==> outcomes[j].RemoteDisconnected?
          invariant !done ==> pipelines == if attempts == Retries then old(pipelines)[key := None] else old(pipelines)
          invariant done ==> 0 < attempts && attempts == AttemptsUsed(outcomes)
          invariant done ==> pipelines == old(pipelines)[key := LoadResult(old(tokenizers), src, tgt, localDirExists, outcomes)]
          decreases Retries - attempts, !done
        {
          var outcome := outcomes[attempts];
          TokenizerStep(old(tokenizers), path, src, outcomes, attempts);
          if path !in tokenizers && PastTokenizer(outcome) {
            tokenizers := tokenizers[path := Tokenizer(path, src)];
          }
          AttemptsStop(outcomes, attempts);
          match outcome {
            case Loaded =>
              LoadedAt(old(tokenizers), src, tgt, localDirExists, outcomes, attempts);
              StoreKeepsKeyed(pipelines, key, Some(Pipeline(src, tgt, path, tokenizers[path])));
              pipelines := pipelines[key := Some(Pipeline(src, tgt, path, tokenizers[path]))];
              done := true;
            case RemoteDisconnected(_) =>
              if attempts == Retries - 1 {
                StoreKeepsKeyed(pipelines, key, None);
                pipelines := pipelines[key := None];
              }
            case OtherError(_) =>
              OtherErrorStops(outcomes, attempts);
              StoreKeepsKeyed(pipelines, key, None);
              pipelines := pipelines[key := None];
              done := true;
          }
          attempts := attempts + 1;
        }
        if !done {
          AttemptsAllDisconnected(outcomes);
        }
      }
      p := pipelines[key];
    }
  }

  /** One more attempt adds the tokenizer exactly when it is still absent and
      the attempt got past the tokenizer step. */
  lemma TokenizerStep(tokenizers: map<string, Tokenizer>, path: string, src: string,
                      outcomes: seq<LoadOutcome>, m: nat)
    requires m < |outcomes|
    ensures var before := TokenizersAfter(tokenizers, path, src, outcomes, m);
      TokenizersAfter(tokenizers, path, src, outcomes, m + 1)
        == if path !in before && PastTokenizer(outcomes[m]) then before[path := Tokenizer(path, src)] else before
  {
    assert TokenizerLoadedWithin(outcomes, m + 1) <==>
           TokenizerLoadedWithin(outcomes, m) || PastTokenizer(outcomes[m]);
  }

  /** A load at attempt `m`, after disconnects only, stores the pipeline
      built with the tokenizer cache as it stands after that attempt. */
  lemma LoadedAt(tokenizers: map<string, Tokenizer>, src: string, tgt: string,
                 localDirExists: bool, outcomes: seq<LoadOutcome>, m: nat)
    requires m < Retries <= |outcomes|
    requires forall j :: 0 <= j < m ==> outcomes[j].RemoteDisconnected?
    requires outcomes[m].Loaded?
    ensures var path := ModelPath(localDirExists);
      var toks := TokenizersAfter(tokenizers, path, src, outcomes, m + 1);
      path in toks && LoadResult(tokenizers, src, tgt, localDirExists, outcomes) == Some(Pipeline(src, tgt, path, toks[path]))
  {
    AttemptsStop(outcomes, m);
    assert PastTokenizer(outcomes[m]);
  }

  /** Storing a value under a key keeps the pipeline cache well keyed when
      the value is `None` or a pipeline for that key. */
  lemma StoreKeepsKeyed(pipelines: map<string, Option<Pipeline>>, key: string, v: Option<Pipeline>)
    requires PipelinesKeyed(pipelines)
    requires v.Some? ==> key == PipeKey(v.value.src, v.value.tgt) && v.value.tokenizer.modelPath == v.value.modelPath
    ensures PipelinesKeyed(pipelines[key := v])
  {
  }

  /** An attempt that does not end in `RemoteDisconnected`, or the last
      attempt, is the final one when all earlier ones were disconnects. */
  lemma AttemptsStop(outcomes: seq<LoadOutcome>, i: nat)
    requires i < Retries <= |outcomes|
    requires forall j :: 0 <= j < i ==> outcomes[j].RemoteDisconnected?
    ensures (i == Retries - 1 || !outcomes[i].RemoteDisconnected?) ==> AttemptsUsed(outcomes) == i + 1
  {
  }

  /** Three disconnects in a row use up the retries and store `None`. */
  lemma AttemptsAllDisconnected(outcomes: seq<LoadOutcome>)
    requires Retries <= |outcomes|
    requires forall j :: 0 <= j < Retries ==> outcomes[j].RemoteDisconnected?
    ensures AttemptsUsed(outcomes) == Retries
    ensures forall toks, src, tgt, local :: LoadResult(toks, src, tgt, local, outcomes).None?
  {
  }

  /** Any other error ends the loop at once and stores `None`. */
  lemma OtherErrorStops(outcomes: seq<LoadOutcome>, k: nat)
    requires Retries <= |outcomes| && k < Retries
    requires forall j :: 0 <= j < k ==> outcomes[j].RemoteDisconnected?
    requires outcomes[k].OtherError?
    ensures AttemptsUsed(outcomes) == k + 1
    ensures forall toks, src, tgt, local :: LoadResult(toks, src, tgt, local, outcomes).None?
  {
    AttemptsStop(outcomes, k);
  }

  /** A disconnect followed by a successful load yields a pipeline after two
      attempts. */
  lemma RetryAfterDisconnect(outcomes: seq<LoadOutcome>)
    requires Retries <= |outcomes|
    requires outcomes[0].RemoteDisconnected? && outcomes[1].Loaded?
    ensures AttemptsUsed(outcomes) == 2
    ensures forall toks, src, tgt, local :: LoadResult(toks, src, tgt, local, outcomes).Some?
  {
    AttemptsStop(outcomes, 1);
  }

  /** A stored pipeline is for the requested pair, uses the model path the
      directory check chose, and carries that path's tokenizer: the cached
      one when there was one (whatever source language it was created
      with), else a fresh one created with the requested source language. */
  lemma LoadedPipelineMatchesRequest(tokenizers: map<string, Tokenizer>, src: string, tgt: string,
                                     localDirExists: bool, outcomes: seq<LoadOutcome>)
    requires Retries <= |outcomes|
    requires forall k :: k in tokenizers ==> tokenizers[k].modelPath == k
    requires LoadResult(tokenizers, src, tgt, localDirExists, outcomes).Some?
    ensures var p := LoadResult(tokenizers, src, tgt, localDirExists, outcomes).value;
      && p.src == src && p.tgt == tgt
      && p.modelPath == ModelPath(localDirExists)
      && p.tokenizer.modelPath == p.modelPath
      && (p.modelPath in tokenizers ==> p.tokenizer == tokenizers[p.modelPath])
      && (p.modelPath !in tokenizers ==> p.tokenizer.srcLang == src)
  {
    var n := AttemptsUsed(outcomes);
    assert PastTokenizer(outcomes[n - 1]);
    assert TokenizerLoadedWithin(outcomes, n);
  }

  /** The tokenizer cache is keyed by model path only: after English to
      Hindi has been loaded, a Hindi to English pipeline gets the tokenizer
      that was created with English as its source language. */
  lemma TokenizerSharedAcrossPairs(localDirExists: bool, outcomes: seq<LoadOutcome>)
    requires Retries <= |outcomes| && outcomes[0].Loaded?
    ensures var path := ModelPath(localDirExists);
      var toks := TokenizersAfter(map[], path, "eng_Latn", outcomes, AttemptsUsed(outcomes));
      var second := LoadResult(toks, "hin_Deva", "eng_Latn", localDirExists, outcomes);
      second.Some? && second.value.tokenizer.srcLang == "eng_Latn"
  {
    var path := ModelPath(localDirExists);
    AttemptsStop(outcomes, 0);
    assert PastTokenizer(outcomes[0]);
    var toks := TokenizersAfter(map[], path, "eng_Latn", outcomes, 1);
    assert toks == map[path := Tokenizer(path, "eng_Latn")];
    LoadedPipelineMatchesRequest(toks, "hin_Deva", "eng_Latn", localDirExists, outcomes);
  }
}

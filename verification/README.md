# Translation project core, modelled in Dafny

This project models the text-handling core of a small translation web app.
The app translates English or Hindi text into twelve Indian languages with the
NLLB-200 model. Modelled:

- the language-code tables and the request checks of `translate_text`;
- text preprocessing: whitespace collapse, character and OCR-typo fixes, the
  manual dictionary pass, strip;
- sentence splitting and chunking (groups of three sentences, or 25-word
  windows for one long sentence);
- the chunk-by-chunk translation loop and its all-or-nothing error rule;
- the process-wide pipeline and tokenizer caches, with bounded retry;
- the manual dictionary substitutions;
- the FLORES dictionary merge script and its in-place rewrite of a file's
  lines;
- the government-scheme catalogue (limit, lookup by id, daily rotation);
- the small pure helpers of the web front end;
- the three placeholder translators.

Python's string operations are modelled in module `Text`, one definition each:
`str.isspace` (the exact set of characters Python treats as whitespace),
`strip`, `split()`, `' '.join`, `in`, `replace` and ASCII `lower`. Every other
module builds on them.

The pipeline cache (`PipelineCache.Cache`) is a class whose two maps the load
method updates in place. The dictionary merge (`FloresMerge.Merger`) is a class
over the nested map. The line rewrite works in place on an `array`. Loops that
reassign a variable or append to a list become loop methods proved against a
fold function:
- the dictionary passes;
- `preprocess_text`;
- the chunk loop;
- `get_daily_schemes`.

`translate_text` checks only `not text` before it preprocesses. So a
whitespace-only text passes the emptiness check, is preprocessed to `""`, and
(with valid language names) comes back as the successful translation `""`
once a pipeline is available (a missing one fails with the unavailable message).
`Translation.WhitespaceOnlyTranslatesToEmpty` states the success, and
`Translation.TranslateChunks` states the failure without a pipeline.

The loop in the merge script unpacks `line.strip().split('\t')` into two names
before it tests them for emptiness. Stripping removes a leading or trailing
tab, so a line that parses never has an empty side (`FloresMerge.ParsedSidesNonEmpty`).
The emptiness test therefore never skips a line; a malformed line aborts the
whole run instead.

## Model

| member | source | states |
|---|---|---|
| LanguageCodes.NllbIsoInverse | utils.py:2-16 | `NLLB_TO_ISO` and `ISO_TO_NLLB` are mutual inverses: each one's keys are the other's values, and a round trip through both returns every code |
| LanguageCodes.NllbToIsoAndBack | utils.py:2-16 | every NLLB code maps to an ISO code that maps back to it |
| LanguageCodes.IsoToNllbAndBack | utils.py:56-70 | every ISO code maps to an NLLB code that maps back to it |
| LanguageCodes.FriendlyCodesAgree | utils.py:303-316 | the friendly-name table inside `translate_text` has exactly the names of `SUPPORTED_LANGUAGES`, and each name's ISO code is `NLLB_TO_ISO` of its NLLB code |
| LanguageCodes.SourcesAndTargets | utils.py:34-53 | each source code is an NLLB code whose ISO code is the short code; `hin_Deva` is both a source and a target; English is never a target; every target code has 8 characters |
| LanguageCodes.Lookup | utils.py:337 | `dict.get`: present exactly when the key is in the table, with the table's value |
| LanguageCodes.LookupOr | app.py:66 | `dict.get` with a default: the stored value when the key is present, the default otherwise |
| Text.Strip | utils.py:329 | `str.strip()`: no whitespace at either end; empty exactly when the input is all whitespace; an input without whitespace at its ends is returned as it is |
| Text.StripIsInnerSlice | utils.py:329 | `strip()` cuts only whitespace: the result is the slice of the input after its leading whitespace, and everything before and after that slice is whitespace |
| Text.StripLeft | utils.py:329 | removes exactly the leading whitespace: the result is a suffix, everything before it is whitespace, and it does not start with whitespace |
| Text.StripRight | utils.py:329 | removes exactly the trailing whitespace: the result is a prefix, everything after it is whitespace, and it does not end with whitespace |
| Text.CollapseSpaces | utils.py:320 | `re.sub(r'\s+', ' ', text)`: the result is single-spaced, empty exactly when the input is, and starts with whitespace exactly when the input does |
| Text.CollapseSpacesKeepsWords | utils.py:320 | collapsing whitespace keeps the words: `split()` gives the same list before and after |
| Text.StripNormalizes | utils.py:320-329 | stripping a single-spaced text leaves no whitespace except isolated inner spaces |
| Text.SplitWords | utils.py:357 | `str.split()`: every piece is a non-empty run of non-whitespace |
| Text.WordsRoundTrip | utils.py:357-359 | for a normalized text, `' '.join(text.split())` is the text itself |
| Text.JoinSplitRoundTrip | utils.py:357-359 | splitting `' '.join(words)` gives back the words, when every word is non-empty and has no whitespace |
| Text.ReplaceAbsent | manual_dictionaries.py:42 | `str.replace` leaves a text without the phrase unchanged |
| Text.ReplaceSelf | manual_dictionaries.py:42 | replacing a phrase by itself leaves every text unchanged |
| Text.ReplaceKeepsSingleSpaced | utils.py:322-328 | replacing a phrase that starts with a non-space by a clean phrase keeps a text single-spaced, non-empty, and keeps whether it starts with whitespace |
| Text.NoOtherSpace | utils.py:320-322 | a single-spaced text contains no whitespace other than `' '`, so the ` ` fix after the collapse never applies |
| Text.Lower | simple_translator.py:72 | `str.lower()` on ASCII: same length, each upper-case letter lowered, every other character kept |
| Replacement.ApplyStep | manual_dictionaries.py:41-42 | applying one more table entry replaces that entry's phrase in the text obtained so far |
| Replacement.ApplyConcat | manual_dictionaries.py:41-42 | applying two tables in turn equals applying their concatenation: the pass is a left fold |
| Replacement.ApplyFirst | manual_dictionaries.py:41-42 | the first entry is replaced first and the rest of the table applies to that result |
| Replacement.ApplyAbsent | manual_dictionaries.py:41-43 | when no phrase of the table occurs in the text, the text comes back unchanged |
| Replacement.ApplyIdentityEntry | manual_dictionaries.py:7-38 | an entry that maps a phrase to itself can be dropped from the table wherever it sits |
| Replacement.ApplyKeepsSingleSpaced | utils.py:328 | a table of well-spaced entries keeps a single-spaced text single-spaced, non-empty, and with the same kind of first character |
| Replacement.SpacesUntouched | utils.py:328 | a text made only of whitespace passes through a well-spaced table unchanged |
| ManualDictionaries.DictionaryFor | manual_dictionaries.py:40 | `MANUAL_DICTIONARIES.get(lang_code, {})`: the language's table, or no entries |
| ManualDictionaries.ReplaceWithManualDictionary | manual_dictionaries.py:39-43 | the loop's result is the fold of `replace` over the language's table in order; an unknown code, or a text containing no phrase, gives the text unchanged |
| ManualDictionaries.EveryTableHasNotFound | manual_dictionaries.py:7-38 | every one of the tables starts with the entry mapping `'404: Not Found'` to itself |
| ManualDictionaries.NotFoundIsInert | manual_dictionaries.py:7-42 | dropping the `'404: Not Found'` entry changes no result |
| ManualDictionaries.MatchIsCaseSensitive | manual_dictionaries.py:20-42 | the Hindi `'app'` entry leaves `'App'` untouched |
| ManualDictionaries.TablesWellSpaced | manual_dictionaries.py:7-38 | every table entry starts with a non-space, and every translation is a clean phrase |
| ManualDictionaries.OthersAreNotFoundOnly | manual_dictionaries.py:7-38 | every table is the Hindi table, the Bengali table or the one-entry placeholder table |
| ManualDictionaries.HindiWellSpaced | manual_dictionaries.py:20-30 | every entry of the Hindi table is well spaced |
| ManualDictionaries.BengaliWellSpaced | manual_dictionaries.py:8-18 | every entry of the Bengali table is well spaced |
| ManualDictionary.ReplaceWithManualDictionary | manual_dictionary.py:22-25 | the loop's result is the fold of `replace` over the given table; an empty table, or a text containing no phrase, gives the text unchanged |
| ManualDictionary.DefaultTableIsManualDictionary | manual_dictionary.py:22 | a call without a table uses `MANUAL_DICTIONARY` |
| Preprocessing.DictionaryPass | utils.py:326-328 | the dictionary pass runs only for a target name in the friendly-name table; any other name leaves the text unchanged |
| Preprocessing.PreprocessText | utils.py:318-329 | the step-by-step reassignments compute the preprocessing function, and the result has no leading, trailing or repeated whitespace |
| Preprocessing.FixesInOrder | utils.py:322-324 | the character and typo fixes are the eight `replace` calls in the code's order |
| Preprocessing.FixesWellSpaced | utils.py:322-324 | every fix after the no-break-space fix starts with a non-space and has a clean replacement |
| Preprocessing.NoBreakSpaceFixIsInert | utils.py:320-322 | after the collapse, the no-break-space fix changes nothing |
| Preprocessing.DictionaryPassKeepsSingleSpaced | utils.py:326-328 | the dictionary pass keeps a single-spaced text single-spaced |
| Preprocessing.PreprocessedIsNormalized | utils.py:318-329 | preprocessing always returns a normalized text |
| Preprocessing.WhitespaceOnlyBecomesEmpty | utils.py:318-329 | a whitespace-only text preprocesses to `""` |
| Preprocessing.NoDictionaryWithoutCode | utils.py:326-329 | for a name outside the friendly-name table, preprocessing is the collapse, the fixes and the strip alone |
| Chunking.NextBreak | utils.py:346 | the next place `(?<=[.!?])\s+` matches: a break if inside the text, with no break before it |
| Chunking.RegexSplit | utils.py:346-347 | `re.split` always returns at least one piece |
| Chunking.RegexSplitCuts | utils.py:346-347 | where the text is cut: every piece but the last ends with `.`, `!` or `?`, and no piece holds such a character followed by whitespace |
| Chunking.SentencesCuts | utils.py:345-348 | the same two facts hold of the sentences `split_into_sentences` returns |
| Chunking.DropsAtMostLast | utils.py:346-348 | the blank filter can drop only the last piece of the split, since every other piece ends with a sentence-ending character |
| Chunking.NonBlank | utils.py:348 | the filter keeps only pieces with non-whitespace text |
| Chunking.NonBlankMembers | utils.py:348 | a piece is in the result exactly when it is in the input and has non-whitespace text |
| Chunking.NonBlankAppend | utils.py:348 | filtering a concatenation is the concatenation of the filtered parts, so the order of the pieces is kept |
| Chunking.NonBlankKeepsText | utils.py:348 | the filter returns its input exactly when every piece has non-whitespace text |
| Chunking.SentenceBreak | utils.py:346 | in a normalized text a break is a single space: the text before it is a clean phrase and the text after it is normalized and non-empty |
| Chunking.RegexSplitNormalized | utils.py:346-347 | the sentences of a normalized non-empty text are clean phrases, and joining them with `' '` gives the text back |
| Chunking.SentencesRoundTrip | utils.py:345-348 | for a normalized text: all sentences are clean, joining them gives the text back, and there are none exactly when the text is empty |
| Chunking.Groups | utils.py:352-353 | `xs[i:i+k]` for `i` in `range(0, len(xs), k)`: every group has 1 to k items, and all but the last have exactly k |
| Chunking.GroupCount | utils.py:352 | the number of groups is ceil(n/k) |
| Chunking.GroupAt | utils.py:352-353 | group `i` is the slice `xs[i*k : min(i*k+k, n)]` |
| Chunking.GroupsFlatten | utils.py:352-353 | the groups, concatenated, are the original sequence |
| Chunking.JoinEach | utils.py:353 | each chunk is its group joined by `' '` |
| Chunking.JoinGroups | utils.py:351-353 | joining the joined groups with `' '` equals joining the sentences with `' '` |
| Chunking.SentenceChunksRoundTrip | utils.py:351-353 | sentence chunks of clean sentences are clean, join back to the joined sentences, and are absent only for no sentences |
| Chunking.WindowsRoundTrip | utils.py:356-359 | word windows of a clean phrase are clean, join back to the phrase, and there is at least one |
| Chunking.WindowSizes | utils.py:356-359 | every word window has 1 to 25 words, and all but the last exactly 25 |
| Chunking.SixtyWordsWindows | utils.py:358-359 | 60 words give windows of 25, 25 and 10 |
| Chunking.ChunksOfRoundTrip | utils.py:361-366 | whichever chunking applies, clean sentences give clean chunks that join back to the joined sentences |
| Chunking.ChunksRoundTrip | utils.py:345-366 | the chunks of a normalized text are clean, join back to the text, and are absent exactly when the text is empty |
| Chunking.JoinClean | utils.py:353 | joining clean phrases with `' '` gives a clean phrase |
| Chunking.WordsAreClean | utils.py:357 | every word of `split()` is a clean phrase |
| PipelineCache.AttemptsUsed | utils.py:213-273 | a miss makes 1 to 3 attempts; every attempt before the last ended in `RemoteDisconnected`, and fewer than 3 attempts means the last one did not |
| PipelineCache.AttemptsFrom | utils.py:217-273 | the attempts from attempt `i` on go on only while they end in `RemoteDisconnected`, up to the bound |
| PipelineCache.TokenizersAfter | utils.py:234-240 | existing tokenizer entries are never replaced; the only entry added is for the model path, with the source language of the request that loaded it |
| PipelineCache.LoadResult | utils.py:257-272 | a miss stores a pipeline exactly when the last attempt succeeded, and `None` otherwise |
| PipelineCache.Cache.GetTranslationPipeline | utils.py:206-276 | a hit returns the stored value, `None` included, after zero attempts and with no change; a miss adds exactly the requested key with the load result; the tokenizers change only as the attempts dictate; the key is always present on return |
| PipelineCache.TokenizerStep | utils.py:234-240 | one more attempt adds the model's tokenizer only if it is missing and that attempt got past the tokenizer step |
| PipelineCache.LoadedAt | utils.py:234-259 | when attempt `m` succeeds after `m` disconnects, the stored pipeline is for the requested pair, the chosen model path and that path's cached tokenizer |
| PipelineCache.AttemptsStop | utils.py:259-273 | the retry loop stops at the first attempt that does not end in `RemoteDisconnected`, or at the third |
| PipelineCache.AttemptsAllDisconnected | utils.py:261-266 | three disconnects use all three attempts and store `None` |
| PipelineCache.OtherErrorStops | utils.py:268-273 | any other exception stops at once and stores `None` |
| PipelineCache.RetryAfterDisconnect | utils.py:217-266 | a disconnect followed by a success loads the pipeline on the second attempt |
| PipelineCache.LoadedPipelineMatchesRequest | utils.py:224-259 | a loaded pipeline is for the requested pair and the chosen model path; it reuses a cached tokenizer, and otherwise uses a new one for the request's source language |
| PipelineCache.TokenizerSharedAcrossPairs | utils.py:234-240 | after an English-source load, a Hindi-source pipeline reuses the tokenizer set to English |
| PipelineCache.StoreKeepsKeyed | utils.py:257-272 | storing a pipeline under its own pair's key keeps every stored pipeline under its own key |
| Translation.CheckRequest | utils.py:331-342 | accepted exactly when the text is non-empty, the source code is `en`/`hi` and the target name is known; the errors come in the code's order, each with its message |
| Translation.MessagesNameTheInput | utils.py:339-342 | the source error message contains the source code, and the target error message the target name |
| Translation.CodesNonEmpty | utils.py:337-342 | every looked-up code is non-empty, so the `not code` tests fail only for missing keys |
| Translation.AcceptedTextNormalized | utils.py:334 | an accepted request's text is normalized |
| Translation.ReplyText | utils.py:378-381 | a reply is valid exactly when it is a non-empty list whose first record has a non-empty `translation_text`, and then that text is taken |
| Translation.ChunkOutputs | utils.py:374-382 | on success there is one non-empty output for each non-blank chunk at most |
| Translation.ChunkOutputsMeaning | utils.py:374-382 | the loop succeeds exactly when every non-blank chunk gets a valid reply; then the outputs are those replies' texts, one per non-blank chunk, in order |
| Translation.TranslateChunks | utils.py:370-388 | a missing pipeline fails with its message; success means every chunk succeeded, and the text is the outputs joined by `' '` |
| Translation.TranslateWith | utils.py:368-385 | the chunk loop, with its early exits, computes the chunk-translation function |
| Translation.TranslateText | utils.py:279-388 | request errors return their message and leave the cache alone; otherwise both the pipeline map and the tokenizer map are as the pipeline load leaves them (unchanged on a cache hit) and the result is the chunk translation of the preprocessed text |
| Translation.ErrorSticks | utils.py:374-380 | once a chunk has failed, later chunks never change the error |
| Translation.OneBadChunkFailsAll | utils.py:377-388 | one chunk that raises or returns an invalid reply fails the whole translation, with no partial text |
| Translation.EchoOutputs | utils.py:374-382 | a pipeline that echoes its input returns every clean chunk in order |
| Translation.EchoReturnsPreprocessed | utils.py:345-385 | with an echoing pipeline the translation is exactly the preprocessed text: chunking loses and reorders nothing |
| Translation.WhitespaceOnlyTranslatesToEmpty | utils.py:331-385 | whitespace-only text passes the emptiness check and, once a pipeline is available (a missing one fails with the unavailable message), translates to `""` |
| FloresMerge.SplitOn | auto_merge_flores_to_manual_dict.py:33 | `str.split('\t')`: at least one piece; no piece holds a tab; joining the pieces with tabs gives the text back |
| FloresMerge.ParsedShape | auto_merge_flores_to_manual_dict.py:33 | a line that unpacks is the stripped line cut at its only tab |
| FloresMerge.ParsedSidesNonEmpty | auto_merge_flores_to_manual_dict.py:33-35 | both sides of a line that unpacks are non-empty |
| FloresMerge.OneTabParses | auto_merge_flores_to_manual_dict.py:33 | two tab-free sides that do not start or end in whitespace, joined by one tab, unpack back into the same two sides |
| FloresMerge.BlankLineAborts | auto_merge_flores_to_manual_dict.py:33 | a blank line does not unpack |
| FloresMerge.SplitOfJoin | auto_merge_flores_to_manual_dict.py:33 | splitting two tab-free pieces joined by a tab gives back those two pieces |
| FloresMerge.AddPair | auto_merge_flores_to_manual_dict.py:37-40 | adding a pair keeps every language and entry, touches only the file's language, adds that key, and sets its value only if the key was new |
| FloresMerge.MergePairs | auto_merge_flores_to_manual_dict.py:32-40 | a merged file keeps every entry and touches only its own language |
| FloresMerge.MergeSucceedsIffParsed | auto_merge_flores_to_manual_dict.py:32-33 | a file merges exactly when every line unpacks |
| FloresMerge.MergedKeys | auto_merge_flores_to_manual_dict.py:37-40 | after a file, the language's keys are the old keys plus the keys read |
| FloresMerge.EveryPairPresent | auto_merge_flores_to_manual_dict.py:33-40 | every English key read from a file is present afterwards |
| FloresMerge.FirstValueWins | auto_merge_flores_to_manual_dict.py:39-40 | for a new English key, the first value read for it is the one kept |
| FloresMerge.MergeStep | auto_merge_flores_to_manual_dict.py:32-40 | merging one more line adds that line's pair to the result so far |
| FloresMerge.AddInTwoSteps | auto_merge_flores_to_manual_dict.py:37-40 | creating the table if missing and then adding the key if absent is the pair addition |
| FloresMerge.MergeAll | auto_merge_flores_to_manual_dict.py:27-40 | the run keeps every language and entry of the existing dictionary |
| FloresMerge.ExistingEntryKept | auto_merge_flores_to_manual_dict.py:39-40 | an existing entry is never overwritten |
| FloresMerge.MissingFileSkipped | auto_merge_flores_to_manual_dict.py:29-30 | a language without a file keeps its table exactly, and is not created |
| FloresMerge.MergeAllStep | auto_merge_flores_to_manual_dict.py:27-30 | one more language merges that language's file, or is skipped when the file is missing |
| FloresMerge.AbortSticks | auto_merge_flores_to_manual_dict.py:33 | once a line fails to unpack, the rest of the run fails too |
| FloresMerge.Merger.MergeFile | auto_merge_flores_to_manual_dict.py:31-40 | the per-line loop succeeds exactly when the file merges, and leaves the merged dictionary |
| FloresMerge.Merger.MergeAllFiles | auto_merge_flores_to_manual_dict.py:27-40 | the per-language loop succeeds exactly when the run merges, and leaves the merged dictionary |
| FloresMerge.Merger.MergeFloresFiles | auto_merge_flores_to_manual_dict.py:22-40 | the script's run over the twelve FLORES languages |
| FloresMerge.MarkerFlags | auto_merge_flores_to_manual_dict.py:47-48 | one flag per line, set exactly on the lines whose stripped text starts with the marker |
| FloresMerge.FindLineIsFirst | auto_merge_flores_to_manual_dict.py:47-48 | `next(...)` finds the first marker line, and finds none exactly when no line is a marker line |
| FloresMerge.FirstSetIsFirst | auto_merge_flores_to_manual_dict.py:47-48 | the first set flag is found, and none is found exactly when no flag is set |
| FloresMerge.RewriteBlock | auto_merge_flores_to_manual_dict.py:47-56 | the start line becomes the new dictionary text, the lines strictly between the markers become `''`, and every other line is unchanged; a missing marker changes nothing |
| FloresMerge.ClearLines | auto_merge_flores_to_manual_dict.py:55-56 | the lines in the range become `''` and all others are unchanged |
| Schemes.SliceTo | schemes_data.py:292 | Python's `xs[:stop]`: a prefix, of length `stop` capped at the list, or `len + stop` (at least 0) for a negative stop |
| Schemes.GetSchemes | schemes_data.py:288-293 | `limit` defaults to `None`; `None` or 0 gives the whole catalogue in order; a positive limit gives the first min(limit, 20) schemes; the result is always a prefix |
| Schemes.NegativeLimitDropsTail | schemes_data.py:291-292 | a negative limit drops the last \|limit\| schemes, and leaves none from -20 on |
| Schemes.FindById | schemes_data.py:295-300 | the early-return search finds a scheme with the id, and `None` exactly when no scheme has it |
| Schemes.GetSchemeById | schemes_data.py:295-300 | the lookup returns a catalogue scheme with the id, or `None` exactly when none has it |
| Schemes.IdsDistinct | schemes_data.py:5-286 | the 20 ids are pairwise distinct |
| Schemes.LookupFindsEachScheme | schemes_data.py:5-300 | each scheme is found by its own id |
| Schemes.DailyIndex | schemes_data.py:306-311 | the rotation index is always a catalogue position |
| Schemes.GetDailySchemes | schemes_data.py:302-313 | `count` defaults to 3; exactly max(count, 0) schemes; the i-th is at `(day % 20 + i) % 20`; at most 20 are pairwise distinct, and more wrap round every 20 |
| Schemes.DailyIndicesDistinct | schemes_data.py:306-311 | within one lap the rotation never repeats a position |
| Schemes.DailyIndexWraps | schemes_data.py:306-311 | the rotation repeats after 20 |
| App.AfterLastDot | app.py:49 | `rsplit('.', 1)[1]`: the dot-free suffix after the last dot |
| App.ExtensionDecides | app.py:47-49 | a name is allowed exactly when the lowered text after its last dot is in the list |
| App.NoDotRejected | app.py:48 | a name without a dot is never allowed |
| App.DoubleExtensionRejected | app.py:49 | `a.png.exe` is not an image |
| App.UpperCaseAccepted | app.py:49 | `x.PNG` is an image |
| App.TrailingDotRejected | app.py:49 | a trailing dot gives an empty extension, which neither list allows |
| App.FallbackSource | app.py:76-79 | the source language is the detected one when it is `en` or `hi`, and `en` otherwise |
| App.LogTarget | app.py:66 | the logged code is the target name's NLLB code, or `'unknown'` exactly for an unknown name |
| App.TtsUnsupportedIsAssameseAndOdia | app.py:182-214 | the languages without text-to-speech are exactly Assamese and Odia |
| SimpleTranslator.TranslateText | simple_translator.py:33-84 | empty text gives `""`; an answer from the fine-tuned model is returned as it is |
| SimpleTranslator.PhrasesFor | simple_translator.py:5-31 | a language has phrases exactly when it is one of the five table languages |
| SimpleTranslator.FirstMatchIsFirst | simple_translator.py:73-75 | the search returns the first table phrase contained in the text, and none exactly when no phrase is contained |
| SimpleTranslator.FirstPhraseAnswers | simple_translator.py:73-75 | when the first phrase is in the lowered text, its translation alone is the answer |
| SimpleTranslator.GreetingFirst | simple_translator.py:6-30 | every table has three phrases, `'hello'` first |
| SimpleTranslator.GreetingWins | simple_translator.py:7-9 | any text containing `hello` gets the greeting's translation, even if it also contains `how are you` |
| SimpleTranslator.TableFallback | simple_translator.py:48-75 | without a fine-tuned answer the result comes from the phrase table or the placeholder |
| SimpleTranslator.NoTablePlaceholder | simple_translator.py:72-84 | a language without a table always gets the placeholder |
| SimpleTranslator.PlaceholderKeepsText | simple_translator.py:84 | the placeholder ends with the original text followed by `]` |
| SimpleTranslator.ParseTag | simple_translator.py:89-97 | a tag without `'_'` is used unchanged |
| SimpleTranslator.ParseTagByPrefix | simple_translator.py:89-95 | a tag with `'_'` maps to its renamed prefix before the first `'_'` |
| SimpleTranslator.PrefixBeforeUnderscore | simple_translator.py:90 | `split('_')[0]` is the text before the first underscore |
| SimpleTranslator.TagsMatchIsoCodes | simple_translator.py:89-95 | the NLLB tag of each of the five languages parses back to its short code |
| SimpleTranslator.UnknownTagIsPrefix | simple_translator.py:89-95 | an unrenamed prefix is kept as it is |
| SimpleTranslator.UnknownTagPlaceholder | simple_translator.py:86-99 | `asm_Beng` becomes `asm`, which gets the placeholder named `asm` |
| SimpleTranslator.TranslatePipeline | simple_translator.py:86-99 | a tag without `'_'` is passed through to `translate_text`; the source language takes no part |
| SimpleTranslator.CheckModelAvailability | simple_translator.py:101-109 | exactly the five codes, each available and with its name |
| TranslatorOverride.TranslatePipeline | translator_override.py:3-25 | the result is bracketed and at least four characters longer than the text |
| TranslatorOverride.TextReadsBack | translator_override.py:6-25 | the result is `[`, the label (or the tag when it has none), `: `, the untouched text and `]` |
| TranslatorOverride.LabelsCoverTargets | translator_override.py:6-21 | the labelled tags are exactly the app's twelve target codes |
| TranslatorOverride.TargetTags | translator_override.py:6-21 | the twelve labelled tags, listed |
| TranslatorOverride.UnlabelledTagShownRaw | translator_override.py:25 | an unknown tag is shown as it is |
| TranslatorOverride.CheckModelAvailability | translator_override.py:27-45 | the same twelve short codes as the friendly-name table, all available, whatever the directory |
| TranslatorOverride.TargetCodes | translator_override.py:27-45 | the twelve codes, listed |
| ModelUtils.GetSupportedLanguages | translation_integration/indic_translation/model_utils.py:5-15 | exactly the configured codes, each mapped to its name |
| ModelUtils.TranslateText | translation_integration/indic_translation/model_utils.py:17-33 | empty text gives `""` whatever the code; an unsupported code gives `"Error: Unsupported language <code>"`; a supported one gives a placeholder ending in the text; the directory plays no part |
| ModelUtils.TagsAreNllbCodes | translation_integration/indic_translation/model_utils.py:5-11 | every model tag is the NLLB code of its short code |
| ModelUtils.SameLanguagesAsPlaceholder | translation_integration/indic_translation/model_utils.py:5-15 | the supported languages are those of the simple translator, with the same names |
| ModelUtils.TagsParseBack | translation_integration/indic_translation/model_utils.py:5-11 | the simple translator's tag parser maps every model tag back to its code |

## Left out

- I/O and external libraries:
  - OCR, speech-to-text and language detection in `utils.py` are thin wrappers over external libraries.
  - The Flask routes, the database models, text-to-speech and the browser extension are request and UI glue.
  - The download, tunnel and fix-up scripts perform network and file I/O.
- In the merge script:
  - reading the dictionary file (`literal_eval`), reading the FLORES files and writing the file back are I/O. The existing dictionary, each file's lines (per language, absent when the file is missing) and the rendered block text are parameters.
  - `pprint.pformat` is not modelled; its output is a parameter of `RewriteBlock`.
- `FloresMerge.Merger.MergeAllFiles` takes the language list as a parameter. `MergeFloresFiles` passes the script's twelve languages.
- `PipelineCache.Cache.GetTranslationPipeline`:
  - The transformers calls (tokenizer, model and pipeline creation) become a sequence of per-attempt outcomes: loaded, `RemoteDisconnected`, or another error, each saying whether the tokenizer step finished before the failure.
  - `os.path.isdir` is a boolean input, taken once per call.
  - `time.sleep(2)` is left out: it happens on every disconnect, including the last attempt, and has no other effect.
  - `max_length=512` is not modelled.
  - There is no locking in the source, and none in the model.
- `Translation.TranslateText`:
  - the pipeline's answer to a chunk is a function parameter. An exception inside the call is a reply of its own kind.
  - A first result that is not a dict is folded into that exception reply, since both end in the same error.
  - The exception's text is the message carried by the reply.
- The `ImportError` fallback of `utils.py:296-300` is not modelled: the manual dictionary module is part of this model.
- `Text.Lower` lowers ASCII letters only; `str.lower` on other scripts is not modelled. The phrase tables are ASCII, so only a match against lowered non-ASCII text could differ.
- `Text.Strip` keeps a short contract of its own, since every caller pays for it. `Text.StripIsInnerSlice` states the rest: the result is the inner slice of the input, with only whitespace cut.
- `Text.CollapseSpaces` keeps a short contract of its own. `Text.CollapseSpacesKeepsWords` states that the words are kept.
- `Chunking.NonBlank` keeps a short contract of its own. `Chunking.NonBlankMembers` and `Chunking.NonBlankAppend` state which pieces are kept and that their order is.
- `Chunking.RegexSplit` states only that there is a piece. `Chunking.RegexSplitCuts` states where the text is cut.
- `Translation.ChunkOutputs` states only the size of a successful result. `Translation.ChunkOutputsMeaning` states when it succeeds and what its outputs are.
- `SimpleTranslator.TranslateText` assumes that `import os` and `from transformers import ...` at `simple_translator.py:39-40` succeed. Those imports run outside the `try` for every non-empty text, so without transformers installed the function raises instead of returning.
- `SimpleTranslator.TranslateText` does not model the fine-tuned model's loading:
  - it takes that model's answer as an `Option` parameter: the text it returned, or `None` when the adapter files are missing, when loading raises inside the `try` at lines 53-70, or when the result has neither key;
  - the adapter paths and the `model_dir` argument are folded into that parameter.
- `Schemes.Scheme` keeps only the id, name and category. The other fields of each record are display text that no operation reads.
- `schemes_data.py:290` copies the catalogue. Dafny sequences are values, so that copy, and the promise that the catalogue stays unchanged, need no statement of their own.
- `get_daily_schemes` reads today's date. The day of the year is a parameter.
- `app.py:182-196` repeats the `SUPPORTED_LANGUAGES` table of `utils.py`. The model uses the one table.

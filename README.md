# Grammar scoring system: a Dafny model of its core

The system scores spoken English for grammar. A browser page records the
microphone and uploads the recording to a Flask endpoint, `/predict`. The
endpoint checks the upload, saves it, hands it to a scorer and returns the
scorer's JSON. The page shows the transcript, the ASR mode, the corrected
text with its issue count and the score in one of four tiers. It can also
ask for the corrected text to be spoken back.

Behind the scorer sit four further pieces:

- A speech-recognition fallback, `transcribe_auto`. It tries a local
  recogniser first and a cloud service second.
- Two LanguageTool clients. Both apply the service's suggested
  replacements from the highest offset down.
- Three rule-based punctuators: `basic_punctuate`, `punctuate_rules` and
  `ensure_sentence_end`. Each is written with regular expressions.

This project models those pieces and proves what they promise.

| file | module | what it models |
|---|---|---|
| chars.dfy | Chars | Python and JavaScript whitespace, `\w`, ASCII case, `str.strip`, `str.startswith`, `str.replace(…, 1)` and decimal digits |
| regex.dfy | Regex | each regular expression of the punctuators as an explicit left-to-right scanner; `re.sub` with and without `count=1` |
| punctuate.dfy | Punctuate | `ensure_sentence_end`, and the opening-word comma loop shared with the other punctuators |
| punctuate_rules.dfy | PunctuateRules | `punctuate_rules`: whitespace collapse, standalone `i`, capitalisation, opener commas, conjunction commas and the final period |
| formatting.dfy | Formatting | `basic_punctuate` |
| splice.dfy | Splice | the end-to-start splice loop: a stable descending sort by offset, the applied matches, and the left-to-right reading of the result |
| languagetool_client.dfy | LanguageToolClient | the stripping client of the grammar-correction package |
| nlp_grammar.dfy | NlpGrammar | the non-stripping client of the nlp package, which raises on a replacement without a value |
| transcribe.dfy | Transcribe | `transcribe_auto` and its two attempts |
| app.dfy | App | the `/predict` handler: part present, non-empty name, allowed extension, save, score, remove, status |
| recorder.dfy | Recorder | the page script: a `RecorderPage` class whose fields are the script's globals and what the page shows, and whose methods are the clicks and browser callbacks |

Services outside the code are parameters. The LanguageTool answer is a
list of matches. A recogniser's outcome is a returned value or a thrown
message. `secure_filename` and the scorer are functions. The microphone,
network and audio-playback outcomes are values passed to the page's
methods.

Two consequences of the code as written are proved, not just stated:

- Browsers usually record WebM. The page then uploads `recording.webm`,
  and the server's extension check always refuses that name. Only a
  recording whose type mentions `ogg` gets through
  (`Recorder.UploadAcceptedIffOgg`).
- The page treats the text it speaks and the corrected text as one thing.
  In fact it sends the box's whole text, so the issue count goes along
  with the corrected sentence (`Recorder.SpokenTextIncludesIssues`).

Three further points about the code as written:

- LanguageTool matches of length zero are applied as insertions. The
  splice `corrected[:off] + best + corrected[off + length:]`
  (src/grammar_correction/languagetool_client.py:39) removes nothing when
  the length is zero and inserts the replacement.
- The speak button is enabled whenever the answer's `corrected_text` is
  truthy, even when `ok` is false. It is set
  (app/static/js/recorder.js:213) before the `!data.ok` branch returns
  (app/static/js/recorder.js:215-221).
- Recording is the only way the page gets audio
  (app/static/js/recorder.js:85-144). There is no file-upload path.

## Model

| member | source | states |
|---|---|---|
| Chars.StripSpec | src/grammar_correction/languagetool_client.py:11 | `strip()` yields a contiguous slice of the input: it has no whitespace at either end, and only whitespace is removed on either side |
| Chars.StripEmptyIffAllSpace | src/nlp/punctuate.py:4 | `text.strip()` is empty exactly when every character is whitespace |
| Chars.StripVisibleEnd | app/static/js/recorder.js:247 | text ending in a visible character strips to its part from the first visible character |
| Chars.NatToStringRoundTrip | app/static/js/recorder.js:47 | the decimal rendering of a number is all digits, has no leading zero unless it is "0", and reads back as the number |
| Regex.SubFirstSpec | src/grammar_correction/formatting.py:39-44 | `re.sub(…, count=1)` copies the text before the leftmost match, emits that match's replacement, then copies the rest unchanged; with no match the text is unchanged |
| Regex.FirstMatch | src/grammar_correction/formatting.py:39-44 | the position found is a match and no earlier position matches; -1 means no position matches |
| Regex.NoMatchIdentity | src/nlp/punctuate.py:17-20 | a substitution whose pattern matches nowhere returns the text unchanged |
| Regex.SubAllVisible | src/nlp/punctuate.py:17-20 | a substitution whose every match changes only whitespace changes only whitespace in the whole text |
| Regex.StandaloneIPointwise | src/nlp/punctuate_rules.py:10 | `\bi\b -> I` keeps the length and changes exactly the standalone lower-case `i` characters to `I` |
| Regex.SpaceBeforePunctRemoved | src/nlp/punctuate.py:17 | after `\s+([,.!?]) -> \1` no whitespace stands before `, . ! ?` |
| Regex.PunctLetterSeparated | src/nlp/punctuate.py:20 | after `([,.!?])([A-Za-z]) -> \1 \2` no punctuation mark is directly followed by a letter, and no whitespace-before-punctuation is introduced |
| Regex.PunctRulesKeepVisible | src/nlp/punctuate.py:17-20 | every match of either rewrite changes only whitespace |
| Regex.ConjIRewrites | src/grammar_correction/formatting.py:31-36 | a run of four or more word characters, whitespace, and/but/so/because in any case, whitespace, `I` and whitespace is rewritten to the word, ", ", the conjunction as written, and " I " |
| Regex.FormattingConjunctionsDistinct | src/grammar_correction/formatting.py:32 | at most one of the four conjunctions is spelled at any position, even ignoring case |
| Regex.ListAndRewrites | src/grammar_correction/formatting.py:39-44 | word, whitespace, "and", whitespace, word is rewritten to the first word, ", and ", the second word |
| Regex.ConjCommaRewrites | src/nlp/punctuate_rules.py:22 | whitespace, one of and/but/so/because/while, and whitespace become ", ", the conjunction and a single blank |
| Regex.RuleConjunctionsDistinct | src/nlp/punctuate_rules.py:22 | at most one of the five conjunctions is spelled at any position |
| Regex.ConjCommaMatchShape | src/nlp/punctuate_rules.py:22 | a match starts on whitespace and swallows all whitespace after the conjunction; its replacement is ", ", letters and one trailing blank |
| Punctuate.Capitalize | src/nlp/punctuate.py:10 | `t[0].upper() + t[1:]` keeps the length, upper-cases the first character and keeps the rest |
| Punctuate.AddFinalPeriod | src/nlp/punctuate.py:13-14 | the result ends in `. ! ?`; it is the text or the text plus ".", and text already ending in a mark is unchanged |
| Punctuate.SentenceSpec | src/nlp/punctuate.py:7-14 | the stripped, capitalised, period-closed text starts with the upper-cased first visible character and ends with the original mark or an added period |
| Punctuate.EnsureSentenceEndSpec | src/nlp/punctuate.py:3-22 | empty exactly for blank input; otherwise it starts upper-cased and ends in `. ! ?`; it has no whitespace before punctuation and no letter right after it; it differs from the sentence only in whitespace |
| Punctuate.EnsureSentenceEndFixes | src/nlp/punctuate.py:3-22 | a sentence that already has all of those properties is returned unchanged |
| Punctuate.EnsureSentenceEndIdempotent | src/nlp/punctuate.py:3-22 | applying `ensure_sentence_end` twice gives the same text as applying it once |
| Punctuate.AddOpenerCommas | src/nlp/punctuate_rules.py:17-19 | the loop over the opening words computes the specification of the whole loop |
| Punctuate.CommaAfterOpenersSpec | src/nlp/punctuate_rules.py:17-19 | for a list of words that cannot overlap, the one opener the text starts with (followed by a blank) gets a comma after it and nothing else changes; with no opener the text is unchanged |
| Punctuate.OpenersExclusive | src/nlp/punctuate_rules.py:16-19 | two different openers of such a list cannot both start the text |
| PunctuateRules.TokenEnd | src/nlp/punctuate_rules.py:7 | a token runs over non-whitespace and stops at whitespace or at the end |
| PunctuateRules.Words | src/nlp/punctuate_rules.py:7 | `split()` yields non-empty whitespace-free words; the list is empty exactly for blank text; the first word starts at the first visible character |
| PunctuateRules.JoinWords | src/nlp/punctuate_rules.py:7 | `" ".join` of such words is single-spaced and starts with the first word's first character |
| PunctuateRules.SplitJoinVisible | src/nlp/punctuate_rules.py:7 | splitting and re-joining changes only whitespace |
| PunctuateRules.NormalizeSpec | src/nlp/punctuate_rules.py:7 | the collapsed text is empty exactly for blank input; otherwise it is single-spaced, starts with the first visible character and keeps every visible character in order |
| PunctuateRules.StandaloneISpacing | src/nlp/punctuate_rules.py:10 | the `\bi\b` rewrite keeps single spacing |
| PunctuateRules.RuleStartersSeparated | src/nlp/punctuate_rules.py:16 | no two of the eight starters can both open a text, so at most one comma is added |
| PunctuateRules.ConjCommaSpacing | src/nlp/punctuate_rules.py:22 | the conjunction comma rewrite keeps single spacing and the first character |
| PunctuateRules.SentenceIIdentity | src/nlp/punctuate_rules.py:30 | on single-spaced text the `\.\s+I\s+ -> . I ` rewrite changes nothing |
| PunctuateRules.OpenedSpec | src/nlp/punctuate_rules.py:7-19 | before the conjunction commas the text is single-spaced and starts with the upper-cased first visible character |
| PunctuateRules.PunctuateRulesSpec | src/nlp/punctuate_rules.py:3-32 | "" exactly for blank input; otherwise single-spaced, ending in `. ! ?`, starting with the upper-cased first visible character, with the final sentence split a no-op |
| PunctuateRules.PunctuateRules | src/nlp/punctuate_rules.py:3-32 | the steps in order compute the specified result |
| Formatting.BasicPunctuate | src/grammar_correction/formatting.py:3-46 | the steps in order compute the specified result, including the IndexError |
| Formatting.BasicPunctuateSpec | src/grammar_correction/formatting.py:3-14 | "" for ""; IndexError exactly for non-empty whitespace-only text; otherwise the result starts with the upper-cased first visible character and ends with the text's own `. ! ?` or an added period |
| Formatting.IntroWordsSeparated | src/grammar_correction/formatting.py:19-23 | no two of the nine intro words can both open a text |
| Formatting.IntroWordComma | src/grammar_correction/formatting.py:25-27 | a sentence starting with an intro word and a blank gets exactly that word followed by ", " |
| Formatting.NoIntroWord | src/grammar_correction/formatting.py:25-27 | a sentence starting with no intro word is left unchanged by the loop |
| Formatting.ConjIEnds | src/grammar_correction/formatting.py:31-36 | the conjunction rule keeps the first character and the final mark |
| Formatting.ListAndEnds | src/grammar_correction/formatting.py:39-44 | the list rule keeps the first character and the final mark |
| Formatting.ListCommaFirstOnly | src/grammar_correction/formatting.py:39-44 | only the leftmost "word and word" is rewritten; the text before and after it is returned unchanged |
| Formatting.BlankInputRaises | src/grammar_correction/formatting.py:4-10 | a single blank makes `basic_punctuate` raise IndexError |
| Formatting.BasicPunctuateGuardedSpec | src/grammar_correction/formatting.py:4-10 | with the blank-text guard it never fails, returns "" exactly for blank text, and agrees with the source wherever the source returns |
| Splice.ApplyMatchSpec | src/grammar_correction/languagetool_client.py:39 | a splice inside the text replaces exactly the span by the value; a match at or past the end appends the value |
| Splice.SortDescSpec | src/grammar_correction/languagetool_client.py:28 | `sorted(…, key=offset, reverse=True)` is a permutation ordered from the highest offset down |
| Splice.SortDescStable | src/grammar_correction/languagetool_client.py:28 | matches sharing an offset keep their original order |
| Splice.ApplicableMembers | src/grammar_correction/languagetool_client.py:29-35 | exactly the matches that are applied are kept |
| Splice.ApplicableSortDesc | src/grammar_correction/languagetool_client.py:28-35 | sorting and then skipping matches equals skipping and then sorting |
| Splice.SortedIsRebuild | src/grammar_correction/languagetool_client.py:26-39 | for non-overlapping in-range matches at distinct offsets, applying them from the end gives the text read left to right with each span replaced at its original offset |
| Splice.InapplicableDropped | src/grammar_correction/languagetool_client.py:29-35 | a match that is skipped can be removed from the list without changing what is applied |
| Splice.NothingApplicable | src/grammar_correction/languagetool_client.py:26-39 | with no applicable match the text is returned unchanged |
| LanguageToolClient.CorrectWithLanguageTool | src/grammar_correction/languagetool_client.py:5-41 | blank text gives ("", []); otherwise the corrected text of the sorted splice loop and the match list as sent |
| LanguageToolClient.ApplySorted | src/grammar_correction/languagetool_client.py:28-39 | the loop applies, in order, exactly the matches with a non-empty first value |
| LanguageToolClient.NoEditKeepsStripped | src/grammar_correction/languagetool_client.py:11-39 | with no applicable match the result is the stripped text |
| LanguageToolClient.SkippedMatchIgnored | src/grammar_correction/languagetool_client.py:29-35 | a match with no replacement, or with a missing or empty first value, does not affect the result |
| LanguageToolClient.CorrectedIsRebuild | src/grammar_correction/languagetool_client.py:26-39 | under the non-overlap conditions the result is the left-to-right reconstruction of the stripped text |
| NlpGrammar.CorrectWithLanguageTool | src/nlp/grammar.py:3-29 | blank text gives ok with ""; a replacement without a value raises; otherwise ok, the corrected text, the matches and mode "languagetool" |
| NlpGrammar.ApplySorted | src/nlp/grammar.py:15-22 | the loop raises exactly when some match's first replacement has no value; otherwise it applies every match that has a replacement |
| NlpGrammar.SortedRaises | src/nlp/grammar.py:15 | sorting neither adds nor removes a match that raises |
| NlpGrammar.NoEditKeepsText | src/nlp/grammar.py:4-22 | with no replacements the text comes back exactly as given, unstripped |
| NlpGrammar.EmptyValueDeletes | src/nlp/grammar.py:19-22 | an empty first value deletes the span |
| NlpGrammar.SkippedMatchIgnored | src/nlp/grammar.py:16-18 | a match without replacements affects neither the raise nor the result |
| NlpGrammar.DropKeepsRaises | src/nlp/grammar.py:15-19 | removing a match that does not raise keeps whether the loop raises |
| NlpGrammar.CorrectedIsRebuild | src/nlp/grammar.py:14-22 | under the non-overlap conditions the result is the left-to-right reconstruction of the text |
| NlpGrammar.ClientsAgree | src/nlp/grammar.py:3-29 | on stripped text whose matches all have non-empty values, the two clients return the same corrected text |
| Transcribe.LocalAttempt | src/asr/transcribe.py:59-69 | ok exactly when no exception; a failure carries the message and an empty transcript; a success has no error and no surrounding whitespace |
| Transcribe.CloudAttempt | src/asr/transcribe.py:42-56 | the same for the cloud attempt; a null text gives "" |
| Transcribe.TranscribeAuto | src/asr/transcribe.py:5-39 | always sets a mode; ok exactly when the local attempt succeeded, or a key is set and the cloud succeeded; mode "none" exactly when not ok |
| Transcribe.LocalSuccessSkipsCloud | src/asr/transcribe.py:16-19 | a local success is returned as it is, marked "local", whatever the key or the cloud answer |
| Transcribe.CloudSuccessUsed | src/asr/transcribe.py:23-27 | after a local failure, a key and a cloud success give the cloud result marked "openai" |
| Transcribe.BothFail | src/asr/transcribe.py:28-31 | when both fail, the cloud dictionary is returned with mode "none" and an error naming the local failure first |
| Transcribe.BothThrew | src/asr/transcribe.py:29 | two exceptions are reported as "Local failed: e1 \| OpenAI failed: e2" |
| Transcribe.NoKeyFallback | src/asr/transcribe.py:33-39 | without a key: empty transcript, mode "none", the local error or the fixed message when it is missing or empty; the cloud is never consulted |
| Transcribe.AttemptsFlow | src/asr/transcribe.py:5-69 | with the real attempts, a success has no error and no surrounding whitespace; a failure has an empty transcript and an error |
| Transcribe.LocalJoin | src/asr/transcribe.py:66 | non-blank segments come out stripped and joined by exactly one blank, with no further change |
| Transcribe.JoinTrimmed | src/asr/transcribe.py:66 | joining trimmed non-empty pieces with blanks gives trimmed text |
| App.ExtSpec | app/app.py:34 | the extension is a suffix of the name: either empty, or a dot followed by neither dots nor slashes |
| App.ExtAt | app/app.py:34 | for a name with no slash that does not start with a dot, the extension runs from its last dot |
| App.Validate | app/app.py:26-36 | a missing part and an empty name are refused with their messages; an accepted name is the sanitised name, and its lower-cased extension is allowed |
| App.Status | app/app.py:49 | the status is 200 or 400, and 200 exactly when the result is ok |
| App.RejectionsAre400 | app/app.py:33-36 | a named upload is refused exactly when its lower-cased extension is not allowed, with the message naming that extension |
| App.UploadDir.constructor | app/app.py:10-14 | the upload directory starts with the given files |
| App.UploadDir.Predict | app/app.py:24-50 | a refusal answers 400 with the error and touches neither the scorer nor the directory; an accepted file is saved and scored under its sanitised name; a scorer that raises gives a 500 and the saved file stays; otherwise the answer is the scorer's result and status, and the file is gone afterwards unless its removal failed |
| App.RecorderWebmRejected | app/app.py:7 | the name "recording.webm" is always refused as ".webm" |
| App.RecorderOggAccepted | app/app.py:7 | the name "recording.ogg" is accepted |
| App.UpperCaseAccepted | app/app.py:34 | the check ignores case: "CLIP.WAV" is accepted and kept under its own spelling |
| Recorder.Pad2Spec | app/static/js/recorder.js:47-48 | the padded number has at least two digits and reads back as the number; it has exactly two below 100 and never a leading zero above |
| Recorder.NatToStringLength | app/static/js/recorder.js:47-48 | a number has one digit exactly below 10, and at most two exactly below 100 |
| Recorder.FormatTimeSpec | app/static/js/recorder.js:45-50 | the shown time is minutes, ":" and exactly two digits of seconds; they read back as the whole minutes and the seconds within the minute |
| Recorder.UploadFilename | app/static/js/recorder.js:190 | the upload is named "recording.ogg" exactly when the blob type contains "ogg", and "recording.webm" otherwise |
| Recorder.UploadAcceptedIffOgg | app/static/js/recorder.js:190 | the server accepts the page's upload exactly when the blob type contains "ogg" |
| Recorder.Band | app/static/js/recorder.js:226-231 | the four tiers split at 2, 3 and 4; NaN and +Infinity land in the top tier, -Infinity in the bottom one |
| Recorder.BandMonotone | app/static/js/recorder.js:226-231 | a higher finite score never gets a lower tier |
| Recorder.ScoreBoxOf | app/static/js/recorder.js:224 | a number is shown exactly when the score is finite, and it is that score |
| Recorder.OrElse | app/static/js/recorder.js:203 | `x \|\| fallback` is empty only when both are |
| Recorder.RecorderPage.constructor | app/static/js/recorder.js:1-5 | the page starts with no recorder, no chunks, no blob and no timer; the button flags are the markup's, and every text starts empty |
| Recorder.RecorderPage.SetStatus | app/static/js/recorder.js:41-43 | the status line is "Status: " and the message |
| Recorder.RecorderPage.ResetUiForNewRecording | app/static/js/recorder.js:66-80 | the score, note, transcript, ASR label and corrected box are reset; speak and predict are disabled; no speech audio is loaded |
| Recorder.RecorderPage.StartRecording | app/static/js/recorder.js:85-144 | the display is always reset; a missing capability or refused microphone shows the matching error and keeps the recording state; otherwise a fresh recording starts with no chunks and no blob, the timer at 00:00, start disabled and stop enabled |
| Recorder.RecorderPage.ShowError | app/static/js/recorder.js:139-143 | status "error" with the note |
| Recorder.RecorderPage.BeginRecording | app/static/js/recorder.js:100-137 | a recording recorder with live microphone, empty chunks, no blob, the timer running from 00:00, start disabled, stop enabled, predict disabled |
| Recorder.RecorderPage.OnDataAvailable | app/static/js/recorder.js:106-108 | a fragment with data is appended at the end; anything else changes nothing |
| Recorder.RecorderPage.OnRecorderError | app/static/js/recorder.js:110-114 | the recorder's error is reported in the status and the note |
| Recorder.RecorderPage.OnStop | app/static/js/recorder.js:116-129 | one blob of all chunks, typed by the recorder or "audio/webm", goes to the player; the timer stops; predict is enabled |
| Recorder.RecorderPage.StopRecording | app/static/js/recorder.js:146-174 | without a recorder only the status changes; otherwise the recorder is inactive with its microphone released, start is enabled and stop disabled |
| Recorder.RecorderPage.PredictScore | app/static/js/recorder.js:179-191 | without a recording nothing is sent and the user is told to record; otherwise predict is disabled and the blob is sent under the name its type calls for; a sent blob always has a non-empty type and no empty fragment, so the name is chosen from a real type |
| Recorder.RecorderPage.OnPredictResponse | app/static/js/recorder.js:193-233 | transcript, ASR label and corrected box are shown even when not ok; speak is enabled exactly when there is a corrected text; a failure shows its error and re-enables predict; a success shows the score and its tier |
| Recorder.RecorderPage.ShowAnswer | app/static/js/recorder.js:199-213 | the fields shown whatever ok says |
| Recorder.RecorderPage.ShowScore | app/static/js/recorder.js:223-231 | the score box and tier note of a successful answer |
| Recorder.RecorderPage.OnPredictFailure | app/static/js/recorder.js:235-240 | a network failure is reported and predict is re-enabled |
| Recorder.RecorderPage.PlayTts | app/static/js/recorder.js:246-251 | nothing happens when the trimmed box is empty or a dash; otherwise speak is disabled and the trimmed box text is sent |
| Recorder.RecorderPage.OnTtsSettled | app/static/js/recorder.js:253-281 | speak is re-enabled in every case; the audio is loaded when the server answered; the status says done or error; an error's message, or "TTS failed", goes to the note |
| Recorder.SpokenTextIncludesIssues | app/static/js/recorder.js:206-251 | after an answer with a corrected text and issues, the box is the corrected text followed by "\n\n(Detected issues: n)"; the trimmed text that speaking sends is the corrected text without its leading whitespace followed by that suffix, or just "(Detected issues: n)" when the corrected text is all whitespace; it is never empty or a dash |
| Recorder.StripBeforeSuffix | app/static/js/recorder.js:247-248 | `trim()` of text followed by two blanks and visible text drops the text's leading whitespace, or the whole text and the two blanks when it is all whitespace; the result is neither empty nor a dash |
| Recorder.DashIsNotSpoken | app/static/js/recorder.js:207-248 | without a corrected text or issues the box shows a dash, and speaking it sends nothing |

## Left out

- HTTP calls to LanguageTool, OpenAI and the `/tts` endpoint, and the Flask server itself. Their answers are parameters.
- The local recogniser and the cloud client. Only their outcome is modelled: a returned value or the text of a caught exception.
- `secure_filename` and the scorer's internals. Both are parameters. The scorer result has only `ok`, `score` and `error`.
- LanguageTool offsets are counted in characters of the model's strings, not in UTF-16 code units. Negative offsets and lengths are not modelled: offsets are `nat`.
- LanguageTool matches missing the `offset` or `length` key, which raise KeyError in the source, are not modelled. The `language` parameter is only forwarded to the service and is not modelled.
- Upper-casing, lower-casing and `\w` are modelled on ASCII only. Python and JavaScript apply Unicode rules.
- Timers are left out, except for the text `formatTime` produces. This covers `setInterval`, `Date.now()`, and the clock reading behind the timer text.
- `toFixed(2)` is modelled as the score value itself: the box holds a real number, not its rounded rendering. `JSON.stringify` into the debug box and the console logging are left out.
- `Number(data.score)` coercion of non-numeric values is not modelled. The score arrives already as a JavaScript number, possibly NaN or infinite.
- A response body that is JSON `null` is not modelled; an unparseable body is the empty object.
- `stopRecording`'s catch branch is left out. None of the calls it guards can throw in the model.
- `predictScore` and `playTts` are each split at their `await` into a method up to the request and a method for the settled outcome. `startRecording` is one method across its `await`; its halves are `ResetUiForNewRecording`, then `BeginRecording` on a granted microphone or `ShowError` otherwise. Interleavings of two in-flight requests are not modelled beyond what the per-field frames allow. For example, a late failure of an old upload re-enables predict during a new recording, as in the source.
- Recorder.RecorderPage.OnStop: it requires a recorder, because the source attaches the handler only to a recorder it created.
- Recorder.RecorderPage.constructor: the buttons' first disabled flags come from the page markup, which is not part of this model, and are parameters. The texts the markup may hold at first are not modelled: they all start empty.
- Recorder.RecorderPage: every page element is assumed to exist. The script's `if (el)` guards around each element are dropped (for example app/static/js/recorder.js:42, 54, 203-213 and 247).
- Recorder.RecorderPage.OnStop: the blob's type is the recorder's type, or "audio/webm", as given. The Blob constructor's normalisation of `type` is not modelled. It lower-cases the type and clears it when it holds a character outside U+0020 to U+007E. A browser-chosen type is already in that form, but PredictScore's non-empty type relies on it.
- Recorder.RecorderPage.StartRecording: the microphone request and the recorder's chosen type are one outcome value. A recorder that fails to construct after the microphone is granted is not modelled.
- App.UploadDir.Predict: a failing save is not modelled. A failing removal is a flag that leaves the file behind. Why the scorer raises is not modelled (feature extraction and the model, src/inference.py:19 and :29): only that it raised, which the server answers with its 500 page.
- The `/health` endpoint, the router and other recognisers, feature extraction and the scoring model are outside the modelled core.

## Findings

| source | as written | input that shows it | evidently intended | confidence | as-written member | corrected member |
|---|---|---|---|---|---|---|
| src/grammar_correction/formatting.py:4-10 | the guard `if not text` only catches the empty string; whitespace-only text is stripped to "" and `text[0]` raises IndexError | `" "` | return "" for blank text, like the other two punctuators (`not text or not text.strip()`) | not executed | Formatting.BlankInputRaises | Formatting.BasicPunctuateGuardedSpec |

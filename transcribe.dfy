/** transcribe_auto: the local speech recogniser is tried first, the cloud
    service second (only when an API key is configured), and the result
    dictionary says which of them produced the transcript. The two attempts
    are reduced to what they return: a transcript or the text of the
    exception they caught. */
module Transcribe {
  import opened Chars

  /** The result dictionary: ok, transcript, asr_error and, once
      transcribe_auto has decided, asr_mode. A key that is absent is None. */
  datatype Transcription = Transcription(
    ok: bool, transcript: string, asrError: Option<string>, asrMode: Option<string>)

  /** What a recogniser call does: it returns a value or raises an
      exception with the given message. */
  datatype Outcome<T> = Returned(value: T) | Threw(message: string)

  const LocalMode := "local"
  const OpenAiMode := "openai"
  const NoMode := "none"
  const NoAsrMessage := "No ASR available (no OPENAI_API_KEY and local ASR not working)."

  /** The dictionary an attempt returns when it caught an exception. */
  function Failed(message: string): Transcription
  {
    Transcription(false, [], Some(message), None)
  }

  /** " ".join(parts) */
  function JoinSpaced(parts: seq<string>): string
  {
    if parts == [] then []
    else if |parts| == 1 then parts[0]
    else parts[0] + " " + JoinSpaced(parts[1..])
  }

  function StripAll(segments: seq<string>): (r: seq<string>)
    ensures |r| == |segments|
    ensures forall k :: 0 <= k < |r| ==> r[k] == Strip(Python, segments[k])
  {
    if segments == [] then [] else [Strip(Python, segments[0])] + StripAll(segments[1..])
  }

  /** _try_local_faster_whisper: the segment texts are stripped, joined
      with single blanks, and the whole is stripped again. */
  function LocalAttempt(o: Outcome<seq<string>>): (r: Transcription)
    ensures r.asrMode.None?
    ensures o.Threw? <==> !r.ok
    ensures o.Threw? ==> r == Failed(o.message)
    ensures o.Returned? ==> r.asrError.None? && StripEnds(Python, r.transcript)
  {
    match o
    case Threw(e) => Failed(e)
    case Returned(segments) =>
      StripSpec(Python, JoinSpaced(StripAll(segments)));
      Transcription(true, Strip(Python, JoinSpaced(StripAll(segments))), None, None)
  }

  /** _try_openai_transcribe: the returned text, or "" when it is null,
      stripped. */
  function CloudAttempt(o: Outcome<Option<string>>): (r: Transcription)
    ensures r.asrMode.None?
    ensures o.Threw? <==> !r.ok
    ensures o.Threw? ==> r == Failed(o.message)
    ensures o.Returned? ==> r.asrError.None? && StripEnds(Python, r.transcript)
    ensures o == Returned(None) ==> r.transcript == []
  {
    match o
    case Threw(e) => Failed(e)
    case Returned(text) =>
      var raw := if text.Some? then text.value else [];
      StripSpec(Python, raw);
      Transcription(true, Strip(Python, raw), None, None)
  }

  /** A truthy OPENAI_API_KEY: set and not empty. */
  predicate HasKey(apiKey: Option<string>) { apiKey.Some? && apiKey.value != [] }

  /** How an f-string renders the value of dict.get: None prints as
      "None". */
  function Shown(v: Option<string>): string
  {
    if v.Some? then v.value else "None"
  }

  /** The error reported when both recognisers failed. */
  function BothFailedMessage(local: Transcription, cloud: Transcription): string
  {
    "Local failed: " + Shown(local.asrError) + " | OpenAI failed: " + Shown(cloud.asrError)
  }

  /** transcribe_auto, given what the local attempt returned, the
      environment's key and what the cloud attempt returns when it is
      made. */
  function TranscribeAuto(local: Transcription, apiKey: Option<string>, cloud: Transcription): (r: Transcription)
    ensures r.asrMode.Some?
    ensures r.ok <==> local.ok || (HasKey(apiKey) && cloud.ok)
    ensures r.asrMode.value == NoMode <==> !r.ok
  {
    if local.ok then local.(asrMode := Some(LocalMode))
    else if HasKey(apiKey) then
      if cloud.ok then cloud.(asrMode := Some(OpenAiMode))
      else cloud.(asrError := Some(BothFailedMessage(local, cloud)), asrMode := Some(NoMode))
    else
      var err := if local.asrError.Some? && local.asrError.value != [] then local.asrError.value else NoAsrMessage;
      Transcription(false, [], Some(err), Some(NoMode))
  }

  /** A local success is returned as it is, marked "local", whatever the
      key and whatever the cloud would have answered: the cloud is not
      consulted. */
  lemma LocalSuccessSkipsCloud(local: Transcription, apiKey: Option<string>, cloud: Transcription, other: Transcription)
    requires local.ok
    ensures var r := TranscribeAuto(local, apiKey, cloud);
      r == TranscribeAuto(local, None, other) &&
      r.ok && r.transcript == local.transcript && r.asrError == local.asrError && r.asrMode == Some(LocalMode)
  {
  }

  /** After a local failure, a key and a cloud success give the cloud's
      result marked "openai". */
  lemma CloudSuccessUsed(local: Transcription, apiKey: Option<string>, cloud: Transcription)
    requires !local.ok && HasKey(apiKey) && cloud.ok
    ensures var r := TranscribeAuto(local, apiKey, cloud);
      r.ok && r.transcript == cloud.transcript && r.asrError == cloud.asrError && r.asrMode == Some(OpenAiMode)
  {
  }

  /** When both fail, the cloud's dictionary is returned with mode "none"
      and an error naming both failures. */
  lemma BothFail(local: Transcription, apiKey: Option<string>, cloud: Transcription)
    requires !local.ok && HasKey(apiKey) && !cloud.ok
    ensures var r := TranscribeAuto(local, apiKey, cloud);
      !r.ok && r.transcript == cloud.transcript && r.asrMode == Some(NoMode) &&
      r.asrError.Some? && StartsWith(r.asrError.value, "Local failed: " + Shown(local.asrError) + " | OpenAI failed: ")
  {
    var m := BothFailedMessage(local, cloud);
    var p := "Local failed: " + Shown(local.asrError) + " | OpenAI failed: ";
    assert m == p + Shown(cloud.asrError);
    assert m[..|p|] == p;
  }

  /** Without a key, a local failure gives an empty transcript, mode "none"
      and the local error, or the fixed message when the local error is
      missing or empty; the cloud is not consulted. */
  lemma NoKeyFallback(local: Transcription, apiKey: Option<string>, cloud: Transcription, other: Transcription)
    requires !local.ok && !HasKey(apiKey)
    ensures var r := TranscribeAuto(local, apiKey, cloud);
      r == TranscribeAuto(local, None, other) &&
      !r.ok && r.transcript == [] && r.asrMode == Some(NoMode) &&
      r.asrError == Some(if local.asrError.Some? && local.asrError.value != [] then local.asrError.value else NoAsrMessage)
  {
  }

  /** With the real attempts: a failed result has an empty transcript and
      an error; a successful one has no surrounding whitespace and no
      error. */
  lemma AttemptsFlow(lo: Outcome<seq<string>>, apiKey: Option<string>, co: Outcome<Option<string>>)
    ensures var r := TranscribeAuto(LocalAttempt(lo), apiKey, CloudAttempt(co));
      (r.ok ==> r.asrError.None? && StripEnds(Python, r.transcript)) &&
      (!r.ok ==> r.transcript == [] && r.asrError.Some?)
  {
  }

  /** An exception in both attempts is reported with both messages. */
  lemma BothThrew(e1: string, apiKey: Option<string>, e2: string)
    requires HasKey(apiKey)
    ensures TranscribeAuto(LocalAttempt(Threw(e1)), apiKey, CloudAttempt(Threw(e2))).asrError ==
      Some("Local failed: " + e1 + " | OpenAI failed: " + e2)
  {
  }

  /** Segments that are not blank come out joined by exactly one blank and
      otherwise unchanged apart from their own surrounding whitespace. */
  lemma LocalJoin(segments: seq<string>)
    requires segments != []
    requires forall k :: 0 <= k < |segments| ==> Strip(Python, segments[k]) != []
    ensures LocalAttempt(Returned(segments)).transcript == JoinSpaced(StripAll(segments))
  {
    var parts := StripAll(segments);
    StrippedPieces(segments, parts);
    JoinTrimmed(parts);
    var j := JoinSpaced(parts);
    assert !IsSpace(Python, j[0]) && !IsSpace(Python, j[|j| - 1]);
    StripOfTrimmed(Python, j);
  }

  lemma StrippedPieces(segments: seq<string>, parts: seq<string>)
    requires forall k :: 0 <= k < |segments| ==> Strip(Python, segments[k]) != []
    requires parts == StripAll(segments)
    ensures forall k :: 0 <= k < |parts| ==> parts[k] != [] && StripEnds(Python, parts[k])
  {
    forall k | 0 <= k < |segments|
      ensures StripEnds(Python, Strip(Python, segments[k]))
    {
      StripSpec(Python, segments[k]);
    }
  }

  /** Joining non-empty pieces that neither start nor end with whitespace
      gives text that neither starts nor ends with whitespace. */
  lemma {:induction false} JoinTrimmed(parts: seq<string>)
    requires parts != []
    requires forall k :: 0 <= k < |parts| ==> parts[k] != [] && StripEnds(Python, parts[k])
    ensures JoinSpaced(parts) != [] && StripEnds(Python, JoinSpaced(parts))
  {
    if |parts| > 1 {
      JoinTrimmed(parts[1..]);
      var rest := JoinSpaced(parts[1..]);
      var j := JoinSpaced(parts);
      assert j == parts[0] + " " + rest;
      assert j[0] == parts[0][0];
      assert j[|j| - 1] == rest[|rest| - 1];
    }
  }
}

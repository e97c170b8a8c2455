/** The browser page script: it records the microphone, uploads the
    recording for scoring, shows the answer and plays back the corrected
    text. The page state (the media recorder, the collected chunks, the
    recorded blob, the four buttons' disabled flags and what the page
    shows) lives in a RecorderPage object whose methods are the user's
    clicks and the browser's callbacks. Browser services (microphone,
    network, audio playback) are reduced to the outcome they deliver,
    which each method takes as a parameter. */
module Recorder {
  import opened Chars
  import App

  /** How an elapsed time in milliseconds is shown: minutes and seconds,
      each padded with zeros to two digits at least. */
  function FormatTime(ms: nat): string
  {
    var sec := ms / 1000;
    Pad2(sec / 60) + ":" + Pad2(sec % 60)
  }

  /** String(n).padStart(2, "0") */
  function Pad2(n: nat): string
  {
    var d := NatToString(n);
    if |d| < 2 then "0" + d else d
  }

  /** The padded number has two digits or more, reads back as the number,
      has exactly two digits below 100, and a leading zero only then. */
  lemma Pad2Spec(n: nat)
    ensures var d := Pad2(n);
      |d| >= 2 && AllDigits(d) && DecimalValue(d) == n &&
      (n < 100 <==> |d| == 2) && (|d| > 2 ==> d[0] != '0')
  {
    var s := NatToString(n);
    NatToStringRoundTrip(n);
    NatToStringLength(n);
    if |s| < 2 {
      DecimalValueLeadingZeros("0", s);
    }
  }

  lemma {:induction false} NatToStringLength(n: nat)
    ensures (|NatToString(n)| == 1 <==> n < 10) && (|NatToString(n)| <= 2 <==> n < 100)
    decreases n
  {
    if n >= 10 {
      NatToStringLength(n / 10);
    }
  }

  /** The shown time splits at its third-last character into minutes and
      seconds that read back as the elapsed whole minutes and the seconds
      within the minute; seconds take exactly two digits and minutes are
      never cut short. */
  lemma FormatTimeSpec(ms: nat)
    ensures var r := FormatTime(ms);
      |r| >= 5 && r[|r| - 3] == ':' &&
      AllDigits(r[..|r| - 3]) && DecimalValue(r[..|r| - 3]) == ms / 60000 &&
      AllDigits(r[|r| - 2..]) && DecimalValue(r[|r| - 2..]) == (ms / 1000) % 60
  {
    var sec := ms / 1000;
    var mm, ss := Pad2(sec / 60), Pad2(sec % 60);
    Pad2Spec(sec / 60);
    Pad2Spec(sec % 60);
    var r := mm + ":" + ss;
    assert r[..|r| - 3] == mm;
    assert r[|r| - 2..] == ss;
    assert sec / 60 == ms / 60000;
  }

  /** The file name the recording is uploaded under. */
  function UploadFilename(blobType: string): (name: string)
    ensures name == "recording.ogg" || name == "recording.webm"
    ensures name == "recording.ogg" <==> exists i: nat :: OccursAt(blobType, "ogg", i)
  {
    if Contains(blobType, "ogg") then "recording.ogg" else "recording.webm"
  }

  /** Only uploads whose type mentions "ogg" get past the server's
      extension check, given that sanitising keeps the two names as they
      are: a WebM recording, the browser's usual choice, is refused. */
  lemma UploadAcceptedIffOgg(blobType: string, secure: string -> string)
    requires secure("recording.ogg") == "recording.ogg" && secure("recording.webm") == "recording.webm"
    ensures App.Validate(Some(UploadFilename(blobType)), secure).Accept? <==> Contains(blobType, "ogg")
  {
    if Contains(blobType, "ogg") {
      App.RecorderOggAccepted(secure);
    } else {
      App.RecorderWebmRejected(secure);
    }
  }

  /** A JavaScript number as the page sees it after Number(data.score). */
  datatype JsNumber = Finite(value: real) | PosInfinity | NegInfinity | NaN

  /** The four tiers of the score note, from the lowest. */
  const NeedsImprovement := "Needs improvement: grammar/fluency likely weak."
  const Average := "Average: understandable but with notable issues."
  const Good := "Good: mostly correct with minor mistakes."
  const Excellent := "Excellent: strong grammar and clarity."

  /** The tier the if/else chain picks: every comparison with NaN is
      false, so NaN ends in the last tier. */
  function Band(score: JsNumber): (tier: nat)
    ensures tier < 4
    ensures score.Finite? ==>
      (tier == 0 <==> score.value < 2.0) && (tier == 1 <==> 2.0 <= score.value < 3.0) &&
      (tier == 2 <==> 3.0 <= score.value < 4.0) && (tier == 3 <==> 4.0 <= score.value)
    ensures score.NaN? || score.PosInfinity? ==> tier == 3
    ensures score.NegInfinity? ==> tier == 0
  {
    match score
    case NaN => 3
    case PosInfinity => 3
    case NegInfinity => 0
    case Finite(x) => if x < 2.0 then 0 else if x < 3.0 then 1 else if x < 4.0 then 2 else 3
  }

  function BandNote(tier: nat): string
    requires tier < 4
  {
    [NeedsImprovement, Average, Good, Excellent][tier]
  }

  /** A higher finite score never gets a lower tier. */
  lemma BandMonotone(a: real, b: real)
    requires a <= b
    ensures Band(Finite(a)) <= Band(Finite(b))
  {
  }

  /** What the score box shows: the number (to two decimals) when finite,
      a dash otherwise. */
  datatype ScoreBox = Dash | Fixed(score: real)

  function ScoreBoxOf(score: JsNumber): (b: ScoreBox)
    ensures b.Fixed? <==> score.Finite?
    ensures b.Fixed? ==> b.score == score.value
  {
    if score.Finite? then Fixed(score.value) else Dash
  }

  /** A piece of recorded data, and the blob built from the pieces. */
  datatype Fragment = Fragment(bytes: seq<bv8>)
  datatype Blob = Blob(parts: seq<Fragment>, mimeType: string)

  datatype RecState = Inactive | Recording

  /** The MediaRecorder: its state, the type it records and whether its
      microphone tracks are live. */
  datatype MediaRec = MediaRec(state: RecState, mimeType: string, micLive: bool)

  /** How the microphone request ends: granted, with the type the
      recorder then picks ("" when it reports none), or refused with the
      error's message. */
  datatype MicOutcome = Granted(mimeType: string) | Denied(message: string)

  /** The JSON object the prediction answer carries ({} when the body is
      not JSON). A string field is present or not; grammarMatches is the
      length of the list when there is one. */
  datatype PredictData = PredictData(
    ok: bool, transcript: Option<string>, asrMode: Option<string>, correctedText: Option<string>,
    grammarMatches: Option<nat>, error: Option<string>, score: JsNumber)

  /** What the upload sends: the recording under its file name. */
  datatype Upload = Upload(blob: Blob, filename: string)

  /** How the speech request ends: the audio played, playing it failed,
      the server answered with an error status (and maybe an error text),
      or the request failed. */
  datatype TtsOutcome = Played | PlayFailed(message: string) | HttpFailed(error: Option<string>) | RequestFailed(message: string)

  /** A JavaScript string that is truthy: present and not empty. */
  predicate Truthy(s: Option<string>) { s.Some? && s.value != [] }

  function OrElse(s: Option<string>, fallback: string): (r: string)
    ensures r != [] <==> Truthy(s) || fallback != []
  {
    if Truthy(s) then s.value else fallback
  }

  function StatusLine(msg: string): string { "Status: " + msg }

  /** The corrected box after an answer: the corrected text or a dash,
      followed by the number of detected issues when the list is not
      empty. */
  function CorrectedBoxText(data: PredictData): string
  {
    OrElse(data.correctedText, "—") +
      (if data.grammarMatches.Some? && data.grammarMatches.value > 0
       then IssuesSuffix(data.grammarMatches.value) else [])
  }

  const NoGetUserMedia := "getUserMedia not supported. Use latest Chrome."
  const NoMediaRecorder := "MediaRecorder not supported. Use latest Chrome."
  const MicFallback := "Mic permission / browser issue"

  /** The note shown when starting fails. */
  function StartFailureNote(hasGetUserMedia: bool, hasMediaRecorder: bool, mic: MicOutcome): string
  {
    if !hasGetUserMedia then NoGetUserMedia
    else if !hasMediaRecorder then NoMediaRecorder
    else match mic
      case Denied(m) => OrElse(Some(m), MicFallback)
      case Granted(_) => []
  }

  class RecorderPage {
    // the script's globals
    var recorder: Option<MediaRec>
    var chunks: seq<Fragment>
    var recordedBlob: Option<Blob>
    var timerRunning: bool
    // the disabled flags of the four buttons
    var startDisabled: bool
    var stopDisabled: bool
    var predictDisabled: bool
    var ttsDisabled: bool
    // what the page shows
    var status: string
    var timerText: string
    var scoreBox: ScoreBox
    var scoreNote: string
    var transcript: string
    var asrMeta: string
    var corrected: string
    var player: Option<Blob>
    var ttsLoaded: bool

    /** Every collected chunk and every part of the blob holds data, the
        blob has a type, and while the recorder records, start is disabled
        and stop is enabled. */
    predicate Valid()
      reads this`chunks, this`recordedBlob, this`recorder, this`startDisabled, this`stopDisabled
    {
      (forall k :: 0 <= k < |chunks| ==> chunks[k].bytes != []) &&
      (recordedBlob.Some? ==>
        recordedBlob.value.mimeType != [] &&
        forall k :: 0 <= k < |recordedBlob.value.parts| ==> recordedBlob.value.parts[k].bytes != []) &&
      (recorder.Some? && recorder.value.state == Recording ==> startDisabled && !stopDisabled)
    }

    /** The page as loaded: no recorder, no chunks, no blob, no timer. The
        buttons' first flags come from the page's markup, which is not part
        of this model; every text starts empty. */
    constructor(start0: bool, stop0: bool, predict0: bool, tts0: bool)
      ensures Valid()
      ensures recorder == None && chunks == [] && recordedBlob == None && !timerRunning
      ensures startDisabled == start0 && stopDisabled == stop0 && predictDisabled == predict0 && ttsDisabled == tts0
      ensures status == [] && timerText == [] && scoreBox == Dash && scoreNote == []
      ensures transcript == [] && asrMeta == [] && corrected == [] && player == None && !ttsLoaded
    {
      recorder := None;
      chunks := [];
      recordedBlob := None;
      timerRunning := false;
      startDisabled, stopDisabled, predictDisabled, ttsDisabled := start0, stop0, predict0, tts0;
      status, timerText, scoreBox, scoreNote := [], [], Dash, [];
      transcript, asrMeta, corrected, player, ttsLoaded := [], [], [], None, false;
    }

    /** setStatus */
    method SetStatus(msg: string)
      modifies this`status
      ensures status == StatusLine(msg)
    {
      status := "Status: " + msg;
    }

    /** resetUiForNewRecording: clears the results and disables predict
        and speak. */
    method ResetUiForNewRecording()
      modifies this`scoreBox, this`scoreNote, this`transcript, this`asrMeta, this`corrected
      modifies this`ttsDisabled, this`ttsLoaded, this`predictDisabled
      ensures scoreBox == Dash && scoreNote == [] && transcript == "(waiting...)" && asrMeta == []
      ensures corrected == "—" && ttsDisabled && !ttsLoaded && predictDisabled
    {
      scoreBox := Dash;
      scoreNote := [];
      transcript := "(waiting...)";
      asrMeta := [];
      corrected := "—";
      ttsDisabled := true;
      ttsLoaded := false;
      predictDisabled := true;
    }

    /** startRecording: the display is reset first; then a missing
        browser capability or a refused microphone leaves the recording
        state as it was and shows the error; otherwise a fresh recorder
        starts with no chunks and no blob, the timer starts from 00:00,
        start is disabled, stop enabled and predict disabled. */
    method StartRecording(hasGetUserMedia: bool, hasMediaRecorder: bool, mic: MicOutcome)
      requires Valid()
      modifies this`scoreBox, this`scoreNote, this`transcript, this`asrMeta, this`corrected
      modifies this`ttsDisabled, this`ttsLoaded, this`predictDisabled, this`status
      modifies this`chunks, this`recordedBlob, this`recorder, this`timerRunning, this`timerText
      modifies this`startDisabled, this`stopDisabled
      ensures Valid()
      ensures scoreBox == Dash && transcript == "(waiting...)" && asrMeta == [] && corrected == "—"
      ensures ttsDisabled && !ttsLoaded && predictDisabled
      ensures !(hasGetUserMedia && hasMediaRecorder && mic.Granted?) ==>
        recorder == old(recorder) && chunks == old(chunks) && recordedBlob == old(recordedBlob) &&
        timerRunning == old(timerRunning) && timerText == old(timerText) &&
        startDisabled == old(startDisabled) && stopDisabled == old(stopDisabled) &&
        status == StatusLine("error") && scoreNote == StartFailureNote(hasGetUserMedia, hasMediaRecorder, mic)
      ensures hasGetUserMedia && hasMediaRecorder && mic.Granted? ==>
        recorder == Some(MediaRec(Recording, mic.mimeType, true)) && chunks == [] && recordedBlob == None &&
        timerRunning && timerText == "00:00" && startDisabled && !stopDisabled &&
        status == StatusLine("recording...") && scoreNote == []
    {
      ResetUiForNewRecording();
      if !hasGetUserMedia || !hasMediaRecorder || mic.Denied? {
        var note := if !hasGetUserMedia then NoGetUserMedia
          else if !hasMediaRecorder then NoMediaRecorder
          else if mic.message != [] then mic.message else MicFallback;
        ShowError(note);
        return;
      }
      BeginRecording(mic.mimeType);
    }

    /** The error status with a note. */
    method ShowError(note: string)
      modifies this`status, this`scoreNote
      ensures status == StatusLine("error") && scoreNote == note
    {
      SetStatus("error");
      scoreNote := note;
    }

    /** The rest of startRecording once the microphone is granted. */
    method BeginRecording(mimeType: string)
      requires Valid()
      modifies this`chunks, this`recordedBlob, this`recorder, this`status, this`timerRunning, this`timerText
      modifies this`startDisabled, this`stopDisabled, this`predictDisabled
      ensures Valid()
      ensures recorder == Some(MediaRec(Recording, mimeType, true)) && chunks == [] && recordedBlob == None
      ensures timerRunning && timerText == "00:00" && startDisabled && !stopDisabled && predictDisabled
      ensures status == StatusLine("recording...")
    {
      chunks := [];
      recordedBlob := None;
      recorder := Some(MediaRec(Recording, mimeType, true));
      SetStatus("recording...");
      timerRunning := true;
      timerText := "00:00";
      startDisabled := true;
      stopDisabled := false;
      predictDisabled := true;
    }

    /** ondataavailable: a fragment is kept only when it holds data, at
        the end of the list. */
    method OnDataAvailable(data: Option<Fragment>)
      requires Valid()
      modifies this`chunks
      ensures Valid()
      ensures chunks == if data.Some? && data.value.bytes != [] then old(chunks) + [data.value] else old(chunks)
    {
      if data.Some? && |data.value.bytes| > 0 {
        chunks := chunks + [data.value];
      }
    }

    /** onerror: the status and note report the failure. */
    method OnRecorderError()
      modifies this`status, this`scoreNote
      ensures status == StatusLine("error") && scoreNote == "Recorder error. Re-allow mic and retry."
    {
      SetStatus("error");
      scoreNote := "Recorder error. Re-allow mic and retry.";
    }

    /** onstop: the timer stops and one blob is made of all the chunks,
        typed with the recorder's type or "audio/webm"; the player gets it
        and predict is enabled. */
    method OnStop()
      requires Valid() && recorder.Some?
      modifies this`timerRunning, this`recordedBlob, this`player, this`predictDisabled, this`status
      ensures Valid()
      ensures !timerRunning
      ensures recordedBlob == Some(Blob(chunks, if recorder.value.mimeType != [] then recorder.value.mimeType else "audio/webm"))
      ensures player == recordedBlob && !predictDisabled && status == StatusLine("recorded (ready to predict)")
    {
      timerRunning := false;
      var mime := recorder.value.mimeType;
      recordedBlob := Some(Blob(chunks, if mime != [] then mime else "audio/webm"));
      player := recordedBlob;
      predictDisabled := false;
      SetStatus("recorded (ready to predict)");
    }

    /** stopRecording: with no recorder only the status changes;
        otherwise a recording recorder is stopped (its onstop follows
        later), the microphone is released, start is enabled and stop
        disabled. */
    method StopRecording()
      requires Valid()
      modifies this`recorder, this`startDisabled, this`stopDisabled, this`status
      ensures Valid()
      ensures old(recorder).None? ==>
        recorder == None && startDisabled == old(startDisabled) && stopDisabled == old(stopDisabled) &&
        status == StatusLine("idle")
      ensures old(recorder).Some? ==>
        recorder == Some(old(recorder).value.(state := Inactive, micLive := false)) &&
        !startDisabled && stopDisabled && status == StatusLine("processing recording...")
    {
      if recorder.None? {
        SetStatus("idle");
        return;
      }
      if recorder.value.state == Recording {
        recorder := Some(recorder.value.(state := Inactive));
      }
      recorder := Some(recorder.value.(micLive := false));
      startDisabled := false;
      stopDisabled := true;
      SetStatus("processing recording...");
    }

    /** predictScore up to the request: without a recording nothing is
        sent; otherwise predict is disabled and the recording is sent
        under the name its type calls for. What is sent always has a type
        to choose the name from and holds no empty fragment. */
    method PredictScore() returns (sent: Option<Upload>)
      requires Valid()
      modifies this`status, this`scoreNote, this`predictDisabled
      ensures sent.Some? ==>
        sent.value.blob.mimeType != [] &&
        forall k :: 0 <= k < |sent.value.blob.parts| ==> sent.value.blob.parts[k].bytes != []
      ensures recordedBlob.None? ==>
        sent.None? && predictDisabled == old(predictDisabled) &&
        status == StatusLine("idle") && scoreNote == "Record audio first."
      ensures recordedBlob.Some? ==>
        sent == Some(Upload(recordedBlob.value, UploadFilename(recordedBlob.value.mimeType))) &&
        predictDisabled && status == StatusLine("uploading & predicting...") && scoreNote == old(scoreNote)
    {
      if recordedBlob.None? {
        SetStatus("idle");
        scoreNote := "Record audio first.";
        return None;
      }
      SetStatus("uploading & predicting...");
      predictDisabled := true;
      var filename := if Contains(recordedBlob.value.mimeType, "ogg") then "recording.ogg" else "recording.webm";
      sent := Some(Upload(recordedBlob.value, filename));
    }

    /** The answer to the upload: transcript, ASR label and corrected text
        are shown whatever ok says, and speak is enabled exactly when there
        is a corrected text. A failed prediction shows the error and
        enables predict again; a successful one shows the score and its
        tier and leaves predict as it was, disabled. */
    method OnPredictResponse(data: PredictData)
      modifies this`transcript, this`asrMeta, this`corrected, this`ttsDisabled
      modifies this`status, this`scoreBox, this`scoreNote, this`predictDisabled
      ensures transcript == OrElse(data.transcript, "(no transcript returned)")
      ensures asrMeta == if Truthy(data.asrMode) then "ASR mode: " + data.asrMode.value else []
      ensures corrected == CorrectedBoxText(data)
      ensures ttsDisabled == !Truthy(data.correctedText)
      ensures !data.ok ==>
        status == StatusLine("error") && scoreBox == Dash && scoreNote == OrElse(data.error, "Prediction failed") &&
        !predictDisabled
      ensures data.ok ==>
        status == StatusLine("done ✅") && scoreBox == ScoreBoxOf(data.score) &&
        scoreNote == BandNote(Band(data.score)) && predictDisabled == old(predictDisabled)
    {
      ShowAnswer(data);
      if !data.ok {
        SetStatus("error");
        scoreBox := Dash;
        scoreNote := if data.error.Some? && data.error.value != [] then data.error.value else "Prediction failed";
        predictDisabled := false;
        return;
      }
      ShowScore(data.score);
      SetStatus("done ✅");
    }

    /** The part of the answer shown whatever ok says. */
    method ShowAnswer(data: PredictData)
      modifies this`transcript, this`asrMeta, this`corrected, this`ttsDisabled
      ensures transcript == OrElse(data.transcript, "(no transcript returned)")
      ensures asrMeta == if Truthy(data.asrMode) then "ASR mode: " + data.asrMode.value else []
      ensures corrected == CorrectedBoxText(data)
      ensures ttsDisabled == !Truthy(data.correctedText)
    {
      transcript := if data.transcript.Some? && data.transcript.value != [] then data.transcript.value
        else "(no transcript returned)";
      asrMeta := if data.asrMode.Some? && data.asrMode.value != [] then "ASR mode: " + data.asrMode.value else [];
      corrected := if data.correctedText.Some? && data.correctedText.value != [] then data.correctedText.value
        else "—";
      if data.grammarMatches.Some? && data.grammarMatches.value > 0 {
        corrected := corrected + IssuesSuffix(data.grammarMatches.value);
      }
      ttsDisabled := !(data.correctedText.Some? && data.correctedText.value != []);
    }

    /** The score box and the note of a successful answer. */
    method ShowScore(score: JsNumber)
      modifies this`scoreBox, this`scoreNote
      ensures scoreBox == ScoreBoxOf(score) && scoreNote == BandNote(Band(score))
    {
      scoreBox := if score.Finite? then Fixed(score.value) else Dash;
      if (score.Finite? && score.value < 2.0) || score.NegInfinity? {
        scoreNote := NeedsImprovement;
      } else if score.Finite? && score.value < 3.0 {
        scoreNote := Average;
      } else if score.Finite? && score.value < 4.0 {
        scoreNote := Good;
      } else {
        scoreNote := Excellent;
      }
    }

    /** The upload failed on the network (or the handler threw): the
        error is shown and predict is enabled again. */
    method OnPredictFailure()
      modifies this`status, this`scoreNote, this`predictDisabled
      ensures status == StatusLine("error") && scoreNote == "Network/server error. Check backend running."
      ensures !predictDisabled
    {
      SetStatus("error");
      scoreNote := "Network/server error. Check backend running.";
      predictDisabled := false;
    }

    /** playTts up to the request: nothing happens when the corrected box,
        trimmed, is empty or a dash; otherwise speak is disabled and the
        trimmed box text is sent, issue count included. */
    method PlayTts() returns (sent: Option<string>)
      modifies this`ttsDisabled, this`status
      ensures var text := Strip(JavaScript, corrected);
        if text == [] || text == "—" then
          sent.None? && ttsDisabled == old(ttsDisabled) && status == old(status)
        else
          sent == Some(text) && ttsDisabled && status == StatusLine("generating corrected voice...")
    {
      var text := Strip(JavaScript, corrected);
      if text == [] || text == "—" {
        return None;
      }
      ttsDisabled := true;
      SetStatus("generating corrected voice...");
      sent := Some(text);
    }

    /** The speech request settles: the audio is loaded when the server
        answered, the status says done or error, an error's message goes
        to the note, and speak is enabled again in every case. */
    method OnTtsSettled(outcome: TtsOutcome)
      modifies this`ttsLoaded, this`status, this`scoreNote, this`ttsDisabled
      ensures !ttsDisabled
      ensures ttsLoaded == (outcome.Played? || outcome.PlayFailed? || old(ttsLoaded))
      ensures status == StatusLine(if outcome.Played? then "done" else "error")
      ensures scoreNote == match outcome
        case Played => old(scoreNote)
        case PlayFailed(m) => m
        case HttpFailed(e) => OrElse(e, "TTS failed")
        case RequestFailed(m) => m
    {
      var failure: Option<string> := None;
      match outcome {
        case HttpFailed(e) =>
          failure := Some(if e.Some? && e.value != [] then e.value else "TTS failed");
        case RequestFailed(m) =>
          failure := Some(m);
        case Played =>
          ttsLoaded := true;
        case PlayFailed(m) =>
          ttsLoaded := true;
          failure := Some(m);
      }
      if failure.None? {
        SetStatus("done");
      } else {
        SetStatus("error");
        scoreNote := failure.value;
      }
      ttsDisabled := false;
    }
  }

  /** The speak request carries the issue count: after an answer with a
      corrected text and issues, the trimmed box text that PlayTts sends is
      the corrected text without its leading whitespace, a blank line and
      the count. A corrected text made only of whitespace is trimmed away
      together with the blank line, leaving the count alone. */
  lemma SpokenTextIncludesIssues(data: PredictData)
    requires Truthy(data.correctedText) && data.grammarMatches.Some? && data.grammarMatches.value > 0
    ensures var c, sfx := data.correctedText.value, "\n\n(Detected issues: " + NatToString(data.grammarMatches.value) + ")";
      var box, i := CorrectedBoxText(data), SkipSpace(JavaScript, c, 0);
      box == c + sfx &&
      Strip(JavaScript, box) == (if i < |c| then c[i..] + sfx else sfx[2..]) &&
      Strip(JavaScript, box) != [] && Strip(JavaScript, box) != "—"
  {
    var c, sfx := data.correctedText.value, IssuesSuffix(data.grammarMatches.value);
    assert CorrectedBoxText(data) == c + sfx;
    IssuesSuffixShape(data.grammarMatches.value);
    StripBeforeSuffix(c, sfx);
  }

  /** The text the corrected box appends for n issues. */
  function IssuesSuffix(n: nat): string
  {
    "\n\n(Detected issues: " + NatToString(n) + ")"
  }

  /** It opens with two line breaks, then a visible character, and ends
      in a visible character. */
  lemma IssuesSuffixShape(n: nat)
    ensures var sfx := IssuesSuffix(n);
      |sfx| > 3 && IsSpace(JavaScript, sfx[0]) && IsSpace(JavaScript, sfx[1]) &&
      !IsSpace(JavaScript, sfx[2]) && !IsSpace(JavaScript, sfx[|sfx| - 1]) && sfx[2..] != "—"
  {
    var sfx := IssuesSuffix(n);
    assert sfx[0] == '\n' && sfx[1] == '\n' && sfx[2] == '(' && sfx[|sfx| - 1] == ')';
  }

  /** Trimming text followed by a suffix of two blanks and visible text:
      the leading whitespace of the text goes, and when the text is all
      whitespace the suffix's two blanks go with it. */
  lemma StripBeforeSuffix(c: string, sfx: string)
    requires |sfx| > 3 && IsSpace(JavaScript, sfx[0]) && IsSpace(JavaScript, sfx[1])
    requires !IsSpace(JavaScript, sfx[2]) && !IsSpace(JavaScript, sfx[|sfx| - 1]) && sfx[2..] != "—"
    ensures var i := SkipSpace(JavaScript, c, 0);
      Strip(JavaScript, c + sfx) == (if i < |c| then c[i..] + sfx else sfx[2..]) &&
      Strip(JavaScript, c + sfx) != [] && Strip(JavaScript, c + sfx) != "—"
  {
    var i := SkipSpace(JavaScript, c, 0);
    if i < |c| {
      StripKeepsSuffix(c, sfx, i);
    } else {
      StripDropsBlanks(c, sfx);
    }
    assert |"—"| == 1;
  }

  lemma StripKeepsSuffix(c: string, sfx: string, i: nat)
    requires sfx != [] && !IsSpace(JavaScript, sfx[|sfx| - 1])
    requires i == SkipSpace(JavaScript, c, 0) && i < |c|
    ensures Strip(JavaScript, c + sfx) == c[i..] + sfx
  {
    StripVisibleEnd(JavaScript, c + sfx);
    SkipSpaceIs(JavaScript, c + sfx, 0, i);
    DropInFirst(c, sfx, i);
  }

  lemma StripDropsBlanks(c: string, sfx: string)
    requires |sfx| > 2 && IsSpace(JavaScript, sfx[0]) && IsSpace(JavaScript, sfx[1])
    requires !IsSpace(JavaScript, sfx[2]) && !IsSpace(JavaScript, sfx[|sfx| - 1])
    requires SkipSpace(JavaScript, c, 0) == |c|
    ensures Strip(JavaScript, c + sfx) == sfx[2..]
  {
    StripVisibleEnd(JavaScript, c + sfx);
    SkipSpaceIs(JavaScript, c + sfx, 0, |c| + 2);
    DropInSecond(c, sfx, 2);
  }

  lemma DropInFirst(a: string, b: string, i: nat)
    requires i <= |a|
    ensures (a + b)[i..] == a[i..] + b
  {
  }

  lemma DropInSecond(a: string, b: string, j: nat)
    requires j <= |b|
    ensures (a + b)[|a| + j..] == b[j..]
  {
  }

  /** Without a corrected text and without issues the box holds a dash,
      and speaking it does nothing. */
  lemma DashIsNotSpoken(data: PredictData)
    requires !Truthy(data.correctedText) && (data.grammarMatches.None? || data.grammarMatches.value == 0)
    ensures Strip(JavaScript, CorrectedBoxText(data)) == "—"
  {
    var box := CorrectedBoxText(data);
    assert box == "—";
    StripOfTrimmed(JavaScript, box);
  }
}

/** The /predict endpoint of the web application: it checks the upload
    (the "audio" part, a non-empty file name, an allowed extension), saves
    the file in the upload directory, scores it, removes it again and
    maps the scorer's answer to an HTTP status. secure_filename and the
    scorer are parameters; the upload directory is a set of file names. */
module App {
  import opened Chars

  const AllowedExt: set<string> := {".wav", ".mp3", ".m4a", ".flac", ".ogg"}

  const NoPartMessage := "No file part 'audio' found."
  const EmptyNameMessage := "Empty filename."

  function UnsupportedMessage(ext: string): string
  {
    "Unsupported file type " + ext + ". Use .wav ideally."
  }

  /** What GrammarScorer.predict_file returns: ok with a score, or not ok
      with an error. */
  datatype ScoreResult = ScoreResult(ok: bool, score: Option<real>, error: Option<string>)

  /** predict_file either returns its result or raises: nothing in it, nor
      around its call in the handler, catches an exception. */
  datatype ScorerOutcome = Returned(result: ScoreResult) | Raised

  /** The body: an error object {"ok": false, "error": ...}, the scorer's
      result as it is, or the server's own page for an uncaught exception. */
  datatype Body = ErrorBody(error: string) | ResultBody(result: ScoreResult) | ServerErrorPage

  datatype Response = Response(body: Body, status: int)

  /** The outcome of the three checks: the sanitised name to save under,
      or the error to answer with. */
  datatype Verdict = Accept(filename: string) | Reject(error: string)

  /** Index of the last occurrence of c in s, or -1 (str.rfind). */
  function RFind(s: string, c: char): (r: int)
    ensures -1 <= r < |s|
    ensures r >= 0 ==> s[r] == c
    ensures forall k :: r < k < |s| ==> s[k] != c
  {
    if s == [] then -1
    else if s[|s| - 1] == c then |s| - 1
    else RFind(s[..|s| - 1], c)
  }

  /** The extension part of os.path.splitext on POSIX: from the last dot
      of the last path component, unless everything before that dot in the
      component is a dot too (".bashrc" has no extension); otherwise "". */
  function Ext(p: string): string
  {
    var sep := RFind(p, '/');
    var dot := RFind(p, '.');
    if dot > sep && exists k :: sep + 1 <= k < dot && p[k] != '.' then p[dot..] else []
  }

  /** The extension is a suffix of the name that is empty or is a dot
      followed by neither dots nor slashes. */
  lemma ExtSpec(p: string)
    ensures var e := Ext(p);
      |e| <= |p| && e == p[|p| - |e|..] &&
      (e == [] || (e[0] == '.' && forall k :: 1 <= k < |e| ==> e[k] != '.' && e[k] != '/'))
  {
    var sep := RFind(p, '/');
    var dot := RFind(p, '.');
    var e := Ext(p);
    if e != [] {
      forall k | 1 <= k < |e|
        ensures e[k] != '.' && e[k] != '/'
      {
        assert e[k] == p[dot + k];
      }
    }
  }

  /** A name without slashes that does not start with a dot has the part
      from its last dot as its extension. */
  lemma ExtAt(p: string, d: nat)
    requires 0 < d < |p| && p[d] == '.' && p[0] != '.'
    requires forall k :: 0 <= k < |p| ==> p[k] != '/'
    requires forall k :: d < k < |p| ==> p[k] != '.'
    ensures Ext(p) == p[d..]
  {
    assert RFind(p, '/') == -1;
    assert RFind(p, '.') == d;
  }

  /** The checks of predict, in order: the "audio" part, a non-empty file
      name, then the extension of the lower-cased sanitised name. */
  function Validate(audio: Option<string>, secure: string -> string): (v: Verdict)
    ensures audio.None? ==> v == Reject(NoPartMessage)
    ensures audio == Some([]) ==> v == Reject(EmptyNameMessage)
    ensures v.Accept? ==>
      audio.Some? && audio.value != [] && v.filename == secure(audio.value) &&
      Ext(LowerString(v.filename)) in AllowedExt
  {
    if audio.None? then Reject(NoPartMessage)
    else if audio.value == [] then Reject(EmptyNameMessage)
    else
      var filename := secure(audio.value);
      var ext := Ext(LowerString(filename));
      if ext !in AllowedExt then Reject(UnsupportedMessage(ext)) else Accept(filename)
  }

  /** 200 when the scorer's result is ok, 400 otherwise. */
  function Status(result: ScoreResult): (s: int)
    ensures s == 200 || s == 400
    ensures s == 200 <==> result.ok
  {
    if result.ok then 200 else 400
  }

  /** The files in the upload directory. */
  class UploadDir {
    var files: set<string>

    constructor(files0: set<string>)
      ensures files == files0
    {
      files := files0;
    }

    /** predict: the checks, then save, score, remove (a failing removal
        is ignored and leaves the file behind) and the status. The scorer
        reads the saved file only when every check passed; scored is the
        name it was given. A scorer that raises ends the request with
        status 500 before the removal, so the saved file stays. */
    method Predict(audio: Option<string>, secure: string -> string, score: string -> ScorerOutcome, removeFails: bool)
      returns (r: Response, scored: Option<string>)
      modifies this
      ensures Validate(audio, secure).Reject? ==>
        r == Response(ErrorBody(Validate(audio, secure).error), 400) && scored.None? && files == old(files)
      ensures Validate(audio, secure).Accept? ==>
        var name := Validate(audio, secure).filename;
        scored == Some(name) &&
        (score(name).Raised? ==> r == Response(ServerErrorPage, 500) && files == old(files) + {name}) &&
        (score(name).Returned? ==>
          var result := score(name).result;
          r == Response(ResultBody(result), Status(result)) &&
          files == if removeFails then old(files) + {name} else old(files) - {name})
    {
      var v := Validate(audio, secure);
      if v.Reject? {
        return Response(ErrorBody(v.error), 400), None;
      }
      var name := v.filename;
      files := files + {name};
      var outcome := score(name);
      scored := Some(name);
      if outcome.Raised? {
        return Response(ServerErrorPage, 500), scored;
      }
      var result := outcome.result;
      if !removeFails {
        files := files - {name};
      }
      r := Response(ResultBody(result), if result.ok then 200 else 400);
    }
  }

  /** Every rejection is answered with status 400 and an error body, and
      an accepted upload's status is 200 exactly when the scorer says ok. */
  lemma RejectionsAre400(audio: Option<string>, secure: string -> string)
    requires audio.Some? && audio.value != []
    ensures var ext := Ext(LowerString(secure(audio.value)));
      Validate(audio, secure).Reject? <==> ext !in AllowedExt
    ensures Validate(audio, secure).Reject? ==>
      Validate(audio, secure).error == UnsupportedMessage(Ext(LowerString(secure(audio.value))))
  {
  }

  /** Lower-case ASCII letters and dots are left alone by lower-casing. */
  lemma LowerOfLower(s: string)
    requires forall k :: 0 <= k < |s| ==> ('a' <= s[k] <= 'z') || s[k] == '.'
    ensures LowerString(s) == s
  {
  }

  lemma LowerWebm()
    ensures LowerString("recording.webm") == "recording.webm"
  {
    LowerOfLower("recording.webm");
  }

  lemma LowerOgg()
    ensures LowerString("recording.ogg") == "recording.ogg"
  {
    LowerOfLower("recording.ogg");
  }

  lemma LowerClip()
    ensures LowerString("CLIP.WAV") == "clip.wav"
  {
  }

  /** The extensions of the three names the lemmas below are about. */
  lemma KnownNameExts()
    ensures Ext("recording.webm") == ".webm" && Ext("recording.ogg") == ".ogg" && Ext("clip.wav") == ".wav"
  {
    ExtAt("recording.webm", 9);
    ExtAt("recording.ogg", 9);
    ExtAt("clip.wav", 4);
  }

  lemma WebmNotAllowed()
    ensures ".webm" !in AllowedExt
  {
  }

  /** The file name the browser recorder uses for WebM recordings is
      always refused, whenever sanitising keeps it as it is. */
  lemma RecorderWebmRejected(secure: string -> string)
    requires secure("recording.webm") == "recording.webm"
    ensures Validate(Some("recording.webm"), secure) == Reject(UnsupportedMessage(".webm"))
  {
    LowerWebm();
    KnownNameExts();
    WebmNotAllowed();
  }

  /** The name it uses for Ogg recordings passes. */
  lemma RecorderOggAccepted(secure: string -> string)
    requires secure("recording.ogg") == "recording.ogg"
    ensures Validate(Some("recording.ogg"), secure) == Accept("recording.ogg")
  {
    LowerOgg();
    KnownNameExts();
  }

  /** The extension check ignores case: an upper-case ".WAV" passes and
      the file is saved under its original spelling. */
  lemma UpperCaseAccepted(secure: string -> string)
    requires secure("CLIP.WAV") == "CLIP.WAV"
    ensures Validate(Some("CLIP.WAV"), secure) == Accept("CLIP.WAV")
  {
    LowerClip();
    KnownNameExts();
  }
}

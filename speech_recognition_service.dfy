/** The speech-recognition session of src/utils/speechRecognitionService.js: a small state
    machine around a platform recognition engine, with transcript accumulation over the
    engine's result events and a delayed re-initialisation after a network error.

    The engine is an opaque handle (class Engine) that keeps the configuration the session
    gives it. What the session asks of the engine (start, stop, abort) and which registered
    callbacks it invokes are recorded, in order, in the ghost sequence `effects`. */
module SpeechRecognition {
  import opened JsText

  /** The recognition constructors the platform exposes: `window.SpeechRecognition` and
      `window.webkitSpeechRecognition`. */
  datatype Platform = Platform(hasStandard: bool, hasWebkit: bool)

  /** checkSupport: recognition is available when either constructor exists. */
  function CheckSupport(p: Platform): (r: bool)
    ensures r <==> p != Platform(false, false)
  {
    p.hasStandard || p.hasWebkit
  }

  /** The recognition locale the session configures. */
  const Locale: string := "zh-CN"

  /** The one error code that triggers a reconnect. */
  const NetworkError: string := "network"

  // ---------------------------------------------------------------------------------------
  // Result events and the transcript

  /** The first alternative of a result, `event.results[i][0]`. `isFinal` is the property the
      source reads on it; an engine that follows the Web Speech API leaves it undefined. */
  datatype Alternative = Alternative(transcript: string, isFinal: Option<bool>)

  /** One entry of `event.results`: its own finality flag and its first alternative. */
  datatype SpeechResult = SpeechResult(isFinal: bool, alternative: Alternative)

  /** A recognised phrase: its text and whether the engine will still revise it. */
  datatype Segment = Segment(text: string, isFinal: bool)

  /** The segment a result stands for: the text of its first alternative, final when the
      result is final. */
  function ToSegment(r: SpeechResult): Segment {
    Segment(r.alternative.transcript, r.isFinal)
  }

  function Segments(results: seq<SpeechResult>): (segs: seq<Segment>)
    ensures |segs| == |results|
  {
    seq(|results|, i requires 0 <= i < |results| => ToSegment(results[i]))
  }

  /** The texts of the final segments, concatenated in order (defined from the back, the
      way the result handler's loop accumulates them). */
  function FinalText(segs: seq<Segment>): string
    decreases |segs|
  {
    if segs == [] then []
    else
      var last := segs[|segs| - 1];
      FinalText(segs[..|segs| - 1]) + (if last.isFinal then last.text else [])
  }

  /** The text of the last segment that is not final, or the empty string. */
  function LastInterim(segs: seq<Segment>): string
    decreases |segs|
  {
    if segs == [] then []
    else if !segs[|segs| - 1].isFinal then segs[|segs| - 1].text
    else LastInterim(segs[..|segs| - 1])
  }

  /** The transcript a result event produces: every final segment, in order, followed by the
      most recent interim one. */
  function Transcript(segs: seq<Segment>): string {
    FinalText(segs) + LastInterim(segs)
  }

  /** An independent reading of the final part: the final texts concatenated from the front. */
  function ConcatFinals(segs: seq<Segment>): string
    decreases |segs|
  {
    if segs == [] then [] else (if segs[0].isFinal then segs[0].text else []) + ConcatFinals(segs[1..])
  }

  lemma {:induction false} ConcatFinalsAppend(segs: seq<Segment>, s: Segment)
    ensures ConcatFinals(segs + [s]) == ConcatFinals(segs) + (if s.isFinal then s.text else [])
    decreases |segs|
  {
    if segs != [] {
      assert (segs + [s])[1..] == segs[1..] + [s];
      ConcatFinalsAppend(segs[1..], s);
    } else {
      assert [s][1..] == [];
    }
  }

  /** Accumulating from the back and concatenating from the front agree. */
  lemma {:induction false} FinalTextIsConcatOfFinals(segs: seq<Segment>)
    ensures FinalText(segs) == ConcatFinals(segs)
    decreases |segs|
  {
    if segs != [] {
      var init := segs[..|segs| - 1];
      FinalTextIsConcatOfFinals(init);
      ConcatFinalsAppend(init, segs[|segs| - 1]);
      assert init + [segs[|segs| - 1]] == segs;
    }
  }

  /** The interim part is empty when every segment is final, and otherwise the text of the
      last segment that is not final. */
  lemma {:induction false} LastInterimIsLatest(segs: seq<Segment>, j: int)
    requires -1 <= j < |segs|
    requires j >= 0 ==> !segs[j].isFinal
    requires forall k :: j < k < |segs| ==> segs[k].isFinal
    ensures LastInterim(segs) == if j < 0 then [] else segs[j].text
    decreases |segs|
  {
    if segs != [] && j != |segs| - 1 {
      var init := segs[..|segs| - 1];
      assert forall k :: j < k < |init| ==> init[k] == segs[k];
      LastInterimIsLatest(init, j);
    }
  }

  /** Promoting the trailing interim segment to final, once everything before it is final,
      leaves the transcript as it was. */
  lemma PromotingInterimKeepsTranscript(segs: seq<Segment>, text: string)
    requires forall k :: 0 <= k < |segs| ==> segs[k].isFinal
    ensures Transcript(segs + [Segment(text, false)]) == Transcript(segs + [Segment(text, true)])
  {
    var interim, final := segs + [Segment(text, false)], segs + [Segment(text, true)];
    assert interim[..|segs|] == segs && final[..|segs|] == segs;
    LastInterimIsLatest(segs, -1);
    LastInterimIsLatest(final, -1);
  }

  /** A final segment arriving after an all-final history extends the transcript by its text. */
  lemma AppendingFinalExtendsTranscript(segs: seq<Segment>, text: string)
    requires forall k :: 0 <= k < |segs| ==> segs[k].isFinal
    ensures Transcript(segs + [Segment(text, true)]) == Transcript(segs) + text
  {
    var ext := segs + [Segment(text, true)];
    assert ext[..|segs|] == segs;
    LastInterimIsLatest(segs, -1);
    LastInterimIsLatest(ext, -1);
  }

  /** The examples the service's own tests run through the result handler. */
  lemma TranscriptExamples()
    ensures Transcript([Segment("你好", true)]) == "你好"
    ensures Transcript([Segment("你好", true), Segment("世界", false)]) == "你好世界"
    ensures Transcript([Segment("最终", true), Segment("结果", true), Segment("中间", false)]) == "最终结果中间"
    ensures Transcript([Segment("你", false)]) == "你"
  {
    var a := [Segment("你好", true), Segment("世界", false)];
    assert a[..1] == [Segment("你好", true)];
    var b := [Segment("最终", true), Segment("结果", true), Segment("中间", false)];
    assert b[..2] == [Segment("最终", true), Segment("结果", true)];
    assert b[..2][..1] == [Segment("最终", true)];
    assert FinalText([Segment("最终", true)]) == "最终";
    assert FinalText(b[..2]) == "最终" + "结果";
    assert LastInterim(b) == "中间";
    assert "最终" + "结果" + "中间" == "最终结果中间";
  }

  // ---------------------------------------------------------------------------------------
  // Reading the finality flag where the source reads it

  /** The segment as the result handler builds it: `isFinal` is read from the alternative,
      where an undefined flag counts as false. */
  function ToSegmentAsWritten(r: SpeechResult): Segment {
    Segment(r.alternative.transcript, r.alternative.isFinal == Some(true))
  }

  function TranscriptAsWritten(results: seq<SpeechResult>): string {
    Transcript(seq(|results|, i requires 0 <= i < |results| => ToSegmentAsWritten(results[i])))
  }

  /** An engine following the Web Speech API puts the flag on the result only. */
  predicate StandardResults(results: seq<SpeechResult>) {
    forall k :: 0 <= k < |results| ==> results[k].alternative.isFinal == None
  }

  /** The engine the repository's tests mock copies the flag onto the alternative. */
  predicate FlagCopiedToAlternative(results: seq<SpeechResult>) {
    forall k :: 0 <= k < |results| ==> results[k].alternative.isFinal == Some(results[k].isFinal)
  }

  /** When the flag is copied, reading it from the alternative changes nothing. */
  lemma AsWrittenAgreesWhenFlagCopied(results: seq<SpeechResult>)
    requires FlagCopiedToAlternative(results)
    ensures TranscriptAsWritten(results) == Transcript(Segments(results))
  {
    var asWritten := seq(|results|, i requires 0 <= i < |results| => ToSegmentAsWritten(results[i]));
    assert asWritten == Segments(results);
  }

  /** With a standard engine every segment reads as interim, so the transcript as written is
      only the text of the last result: every finalised phrase before it is dropped. */
  lemma AsWrittenKeepsOnlyLastResult(results: seq<SpeechResult>)
    requires StandardResults(results) && results != []
    ensures TranscriptAsWritten(results) == results[|results| - 1].alternative.transcript
  {
    var segs := seq(|results|, i requires 0 <= i < |results| => ToSegmentAsWritten(results[i]));
    FinalTextIsConcatOfFinals(segs);
    NoFinalsConcatEmpty(segs);
    LastInterimIsLatest(segs, |segs| - 1);
  }

  lemma {:induction false} NoFinalsConcatEmpty(segs: seq<Segment>)
    requires forall k :: 0 <= k < |segs| ==> !segs[k].isFinal
    ensures ConcatFinals(segs) == []
    decreases |segs|
  {
    if segs != [] {
      NoFinalsConcatEmpty(segs[1..]);
    }
  }

  /** The input that shows it: a final "你好" followed by an interim "世界". */
  lemma AsWrittenLosesFinalPhrase()
    ensures var results := [SpeechResult(true, Alternative("你好", None)),
                            SpeechResult(false, Alternative("世界", None))];
            TranscriptAsWritten(results) == "世界" && Transcript(Segments(results)) == "你好世界"
  {
    var results := [SpeechResult(true, Alternative("你好", None)),
                    SpeechResult(false, Alternative("世界", None))];
    AsWrittenKeepsOnlyLastResult(results);
    TranscriptExamples();
    assert Segments(results) == [Segment("你好", true), Segment("世界", false)];
  }

  // ---------------------------------------------------------------------------------------
  // The session

  /** A recognizer instance created by the platform. */
  class Engine {
    var continuous: bool
    var interimResults: bool
    var lang: string
    var maxAlternatives: nat
    /** Whether the session's onresult/onstart/onend/onerror handlers are installed. */
    var handlersAttached: bool

    /** A new recognizer with the platform's defaults and no handlers. */
    constructor ()
      ensures !continuous && !interimResults && lang == [] && maxAlternatives == 1
      ensures !handlersAttached
    {
      continuous, interimResults, lang, maxAlternatives := false, false, [], 1;
      handlersAttached := false;
    }
  }

  /** Identity of a function the caller registered. */
  type CallbackId = nat

  /** The argument of setCallbacks; an absent or falsy slot is None. */
  datatype Callbacks = Callbacks(
    onResult: Option<CallbackId>, onStart: Option<CallbackId>,
    onEnd: Option<CallbackId>, onError: Option<CallbackId>)

  /** What the session does outside itself, in order. */
  datatype Effect =
    | EngineStart(engine: Engine)
    | EngineStop(engine: Engine)
    | EngineAbort(engine: Engine)
    | ResultCallback(callback: CallbackId, transcript: string)
    | StartCallback(callback: CallbackId)
    | EndCallback(callback: CallbackId)
    | ErrorCallback(callback: CallbackId, code: string)

  /** The snapshot getStatus returns. */
  datatype Status = Status(supported: bool, listening: bool, transcript: string)

  /** The configuration init gives every engine it creates. */
  ghost predicate Configured(e: Engine)
    reads e
  {
    e.continuous && e.interimResults && e.lang == Locale && e.maxAlternatives == 1 && e.handlersAttached
  }

  class SpeechRecognitionService {
    var recognition: Engine?
    var isListening: bool
    const supported: bool
    var transcript: string
    var onResult: Option<CallbackId>
    var onStart: Option<CallbackId>
    var onEnd: Option<CallbackId>
    var onError: Option<CallbackId>
    /** Reconnect timers scheduled and not yet fired. */
    var pendingReconnects: nat
    ghost var effects: seq<Effect>

    /** A handle exists only on a supported platform, and it is configured. */
    ghost predicate Valid()
      reads this, recognition
    {
      recognition != null ==> supported && Configured(recognition)
    }

    constructor (platform: Platform)
      ensures Valid()
      ensures supported == CheckSupport(platform)
      ensures recognition == null && !isListening && transcript == []
      ensures onResult == onStart == onEnd == onError == None
      ensures pendingReconnects == 0 && effects == []
    {
      recognition := null;
      isListening := false;
      supported := CheckSupport(platform);
      transcript := [];
      onResult, onStart, onEnd, onError := None, None, None, None;
      pendingReconnects := 0;
      effects := [];
    }

    /** setupEventListeners: installs the four handlers on the current handle, if any. */
    method SetupEventListeners()
      modifies recognition
      ensures recognition != null ==> recognition.handlersAttached
      ensures recognition != null ==> unchanged(recognition`continuous, recognition`interimResults,
                                                recognition`lang, recognition`maxAlternatives)
    {
      if recognition == null {
        return;
      }
      recognition.handlersAttached := true;
    }

    /** init: on a supported platform, replaces the handle by a new configured engine;
        otherwise fails and leaves the handle as it was. */
    method Init() returns (ok: bool)
      requires Valid()
      modifies this`recognition
      ensures Valid()
      ensures ok == supported
      ensures ok ==> fresh(recognition)
      ensures !ok ==> recognition == old(recognition)
    {
      if !supported {
        return false;
      }
      var engine := new Engine();
      recognition := engine;
      engine.continuous := true;
      engine.interimResults := true;
      engine.lang := Locale;
      engine.maxAlternatives := 1;
      SetupEventListeners();
      return true;
    }

    /** start: creates the handle on first use, then asks the engine to start. Listening
        begins only when the engine reports its start event. `engineThrows` says whether the
        engine's start call throws. */
    method Start(engineThrows: bool) returns (ok: bool)
      requires Valid()
      modifies this`recognition, this`effects
      ensures Valid()
      ensures ok == (supported && !engineThrows)
      ensures old(recognition) != null ==> recognition == old(recognition)
      ensures old(recognition) == null && supported ==> fresh(recognition)
      ensures !supported ==> recognition == null && effects == old(effects)
      ensures supported ==> effects == old(effects) + [EngineStart(recognition)]
    {
      if recognition == null {
        var initialized := Init();
        if !initialized {
          return false;
        }
      }
      effects := effects + [EngineStart(recognition)];
      ok := !engineThrows;
    }

    /** stop: asks the engine for a graceful end, only when a handle exists and the session
        is listening. */
    method Stop(engineThrows: bool) returns (ok: bool)
      requires Valid()
      modifies this`effects
      ensures Valid()
      ensures ok == (recognition != null && isListening && !engineThrows)
      ensures effects == old(effects) + if recognition != null && isListening then [EngineStop(recognition)] else []
    {
      if recognition != null && isListening {
        effects := effects + [EngineStop(recognition)];
        return !engineThrows;
      }
      return false;
    }

    /** abort: asks the engine for an immediate end, under the same guard as stop. */
    method Abort(engineThrows: bool) returns (ok: bool)
      requires Valid()
      modifies this`effects
      ensures Valid()
      ensures ok == (recognition != null && isListening && !engineThrows)
      ensures effects == old(effects) + if recognition != null && isListening then [EngineAbort(recognition)] else []
    {
      if recognition != null && isListening {
        effects := effects + [EngineAbort(recognition)];
        return !engineThrows;
      }
      return false;
    }

    /** reconnect, immediate part: aborts when listening and schedules the reinit timer. */
    method Reconnect(abortThrows: bool)
      requires Valid()
      modifies this`effects, this`pendingReconnects
      ensures Valid()
      ensures pendingReconnects == old(pendingReconnects) + 1
      ensures effects == old(effects) + if recognition != null && isListening then [EngineAbort(recognition)] else []
    {
      if isListening {
        var _ := Abort(abortThrows);
      }
      pendingReconnects := pendingReconnects + 1;
    }

    /** reconnect, delayed part (the body of the 1000 ms timer): drops the handle and
        initialises again. */
    method FireReconnectTimer()
      requires Valid()
      requires pendingReconnects > 0
      modifies this`recognition, this`pendingReconnects
      ensures Valid()
      ensures pendingReconnects == old(pendingReconnects) - 1
      ensures supported ==> fresh(recognition)
      ensures !supported ==> recognition == null
    {
      pendingReconnects := pendingReconnects - 1;
      recognition := null;
      var _ := Init();
    }

    /** The onresult handler: recomputes the transcript from the whole result list and
        reports it to the result callback. */
    method HandleResult(results: seq<SpeechResult>)
      requires Valid()
      modifies this`transcript, this`effects
      ensures Valid()
      ensures transcript == Transcript(Segments(results))
      ensures effects == old(effects) + (if onResult.Some? then [ResultCallback(onResult.value, transcript)] else [])
    {
      var finalTranscript: string := [];
      var interimTranscript: string := [];
      for i := 0 to |results|
        invariant Segments(results[..i]) == Segments(results)[..i]
        invariant finalTranscript == FinalText(Segments(results)[..i])
        invariant interimTranscript == LastInterim(Segments(results)[..i])
      {
        var segs := Segments(results);
        assert segs[..i + 1][..i] == segs[..i];
        if results[i].isFinal {
          finalTranscript := finalTranscript + results[i].alternative.transcript;
        } else {
          interimTranscript := results[i].alternative.transcript;
        }
      }
      assert Segments(results)[..|results|] == Segments(results);
      transcript := finalTranscript + interimTranscript;
      if onResult.Some? {
        effects := effects + [ResultCallback(onResult.value, transcript)];
      }
    }

    /** The onstart handler. */
    method HandleStart()
      requires Valid()
      modifies this`isListening, this`transcript, this`effects
      ensures Valid()
      ensures isListening && transcript == []
      ensures effects == old(effects) + (if onStart.Some? then [StartCallback(onStart.value)] else [])
    {
      isListening := true;
      transcript := [];
      if onStart.Some? {
        effects := effects + [StartCallback(onStart.value)];
      }
    }

    /** The onend handler. */
    method HandleEnd()
      requires Valid()
      modifies this`isListening, this`effects
      ensures Valid()
      ensures !isListening
      ensures effects == old(effects) + (if onEnd.Some? then [EndCallback(onEnd.value)] else [])
    {
      isListening := false;
      if onEnd.Some? {
        effects := effects + [EndCallback(onEnd.value)];
      }
    }

    /** The onerror handler: reports the code, then reconnects on a network error. */
    method HandleError(code: string, abortThrows: bool)
      requires Valid()
      modifies this`effects, this`pendingReconnects
      ensures Valid()
      ensures var reported := old(effects) + (if onError.Some? then [ErrorCallback(onError.value, code)] else []);
        if code == NetworkError then
          && pendingReconnects == old(pendingReconnects) + 1
          && effects == reported + if recognition != null && isListening then [EngineAbort(recognition)] else []
        else
          pendingReconnects == old(pendingReconnects) && effects == reported
    {
      if onError.Some? {
        effects := effects + [ErrorCallback(onError.value, code)];
      }
      if code == NetworkError {
        Reconnect(abortThrows);
      }
    }

    /** setCallbacks: replaces all four slots at once. */
    method SetCallbacks(callbacks: Callbacks)
      requires Valid()
      modifies this`onResult, this`onStart, this`onEnd, this`onError
      ensures Valid()
      ensures Callbacks(onResult, onStart, onEnd, onError) == callbacks
    {
      onResult := callbacks.onResult;
      onStart := callbacks.onStart;
      onEnd := callbacks.onEnd;
      onError := callbacks.onError;
    }

    /** getStatus: a snapshot of support, listening and transcript. */
    method GetStatus() returns (status: Status)
      ensures status == Status(supported, isListening, transcript)
    {
      return Status(supported, isListening, transcript);
    }
  }

  // ---------------------------------------------------------------------------------------
  // Scenarios checked against the contracts above

  method UnsupportedPlatformScenario()
  {
    var service := new SpeechRecognitionService(Platform(false, false));
    var ok := service.Start(false);
    assert !ok && service.recognition == null && service.effects == [];
    var status := service.GetStatus();
    assert status == Status(false, false, []);
  }

  method StartStopScenario()
  {
    var service := new SpeechRecognitionService(Platform(true, true));
    var ok := service.Init();
    assert ok;
    var engine := service.recognition;
    ok := service.Start(false);
    assert ok && service.recognition == engine;
    service.HandleStart();
    ok := service.Stop(false);
    assert ok && service.effects == [EngineStart(engine), EngineStop(engine)];
  }

  method NetworkErrorScenario()
  {
    var service := new SpeechRecognitionService(Platform(false, true));
    service.SetCallbacks(Callbacks(None, None, None, Some(7)));
    var ok := service.Start(false);
    var first := service.recognition;
    service.HandleStart();
    service.HandleError(NetworkError, false);
    assert service.effects == [EngineStart(first), ErrorCallback(7, NetworkError), EngineAbort(first)];
    assert service.pendingReconnects == 1;
    service.FireReconnectTimer();
    assert service.recognition != first && service.pendingReconnects == 0;
  }
}

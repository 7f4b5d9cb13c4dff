/** The session controller of main.js: the module globals `selectedFile`, `ffmpeg` and
    `lastObjectUrl`, the convert button's `disabled` flag and the few page elements the two
    routines `setSelected` and the button's click handler update.

    The converter engine, its file system and the browser's Blob and object-URL registry are
    foreign code. Their results become parameters: whether loading the engine succeeds, and
    how the conversion ends. Object URLs are opaque tokens drawn from a counter, and the set
    of URLs that have been created and not yet revoked is kept beside the page state. */
module Controller {
  import opened Wrappers
  import opened Classifier
  import opened JsString

  /** An object URL handed out by `URL.createObjectURL`. */
  datatype Url = ObjectUrl(serial: nat)

  /** The `ffmpeg` global: still `null`, an instance whose `load` threw, or a loaded one. */
  datatype Engine = NoEngine | Unloaded | Loaded

  /** How the engine's write, exec and read calls end on a loaded engine: with output, or by
      throwing after the progress handler last saw `lastProgress` (the already rounded
      `progress * 100`), if it saw anything. */
  datatype Outcome = Converted | Failed(lastProgress: Option<int>)

  /** The download anchor: its `href`, and the file whose name its `download` attribute is
      derived from (the attribute's value is `FileName`). */
  datatype DownloadLink = DownloadLink(href: Url, source: AudioFile) {
    /** The `download` attribute: `safeBaseName(selectedFile.name) + ".mp3"`. */
    function FileName(): string {
      SafeBaseName(source.name) + ".mp3"
    }
  }

  /** Everything the two routines read or write. `bar` is the progress bar's width in percent
      and `resultShown` says whether the result panel is visible. */
  datatype SessionState = SessionState(
    selectedFile: Option<AudioFile>,
    disabled: bool,
    engine: Engine,
    lastObjectUrl: Option<Url>,
    playerSrc: Option<Url>,
    download: Option<DownloadLink>,
    resultShown: bool,
    bar: int,
    liveUrls: set<Url>,
    nextSerial: nat)

  // ---------------------------------------------------------------------------------------
  // The progress handler and the engine

  /** `Math.max(0, Math.min(100, pct))`: the width written to the progress bar. */
  function ClampPercent(raw: int): (pct: int)
    ensures 0 <= pct <= 100
    ensures 0 <= raw <= 100 ==> pct == raw
    ensures raw < 0 ==> pct == 0
    ensures raw > 100 ==> pct == 100
  {
    if raw < 0 then 0 else if raw > 100 then 100 else raw
  }

  /** More progress never shows as less. */
  lemma ClampMonotone(a: int, b: int)
    requires a <= b
    ensures ClampPercent(a) <= ClampPercent(b)
  {
  }

  /** `ensureFFmpeg`: a cached instance is returned as it is, loaded or not; otherwise a new
      instance is stored and then loaded, and stays stored, unloaded, when `load` throws. */
  function EnsureEngine(e: Engine, loadOk: bool): (r: Engine)
    ensures r != NoEngine
    ensures e != NoEngine ==> r == e
    ensures e == NoEngine ==> (r == Loaded <==> loadOk)
  {
    if e != NoEngine then e else if loadOk then Loaded else Unloaded
  }

  /** Whether `ensureFFmpeg` returns without throwing: always for a cached instance, and for a
      new one exactly when `load` succeeds. */
  predicate EngineReturns(e: Engine, loadOk: bool) {
    e != NoEngine || loadOk
  }

  // ---------------------------------------------------------------------------------------
  // The state machine

  /** The page before any event. The button starts disabled, as no file is selected. */
  function Initial(): SessionState {
    SessionState(None, true, NoEngine, None, None, None, false, 0, {}, 0)
  }

  /** What every reachable state satisfies: the button is disabled exactly when no file is
      selected; the bar is a percentage; the URLs the page refers to are live; a visible result
      shows the last URL in both the player and the download link; every live URL was drawn
      from the counter. */
  ghost predicate Inv(s: SessionState) {
    && s.disabled == s.selectedFile.None?
    && 0 <= s.bar <= 100
    && (s.lastObjectUrl.Some? ==> s.lastObjectUrl.value in s.liveUrls)
    && (s.playerSrc.Some? ==> s.playerSrc.value in s.liveUrls)
    && (s.resultShown ==>
          s.lastObjectUrl.Some? && s.playerSrc == s.lastObjectUrl
          && s.download.Some? && s.download.value.href == s.lastObjectUrl.value)
    && (forall u :: u in s.liveUrls ==> u.serial < s.nextSerial)
  }

  /** The URLs that are still live although `lastObjectUrl` no longer refers to them: nothing
      in main.js will revoke them. */
  function Leaked(s: SessionState): set<Url> {
    if s.lastObjectUrl.Some? then s.liveUrls - {s.lastObjectUrl.value} else s.liveUrls
  }

  /** `setSelected(file)`: store the file, enable the button exactly when there is one, reset
      the result panel and the bar, revoke the last object URL if there is one and clear the
      player. The download link keeps its attributes. */
  function Select(s: SessionState, file: Option<AudioFile>): (r: SessionState)
    ensures r.selectedFile == file && r.disabled == file.None?
    ensures r.lastObjectUrl == None && r.playerSrc == None && !r.resultShown && r.bar == 0
    ensures s.lastObjectUrl.Some? ==> s.lastObjectUrl.value !in r.liveUrls
    ensures r.liveUrls <= s.liveUrls && Leaked(r) == Leaked(s)
    ensures r.engine == s.engine && r.download == s.download && r.nextSerial == s.nextSerial
  {
    s.(selectedFile := file, disabled := file.None?, resultShown := false, bar := 0,
       lastObjectUrl := None, playerSrc := None,
       liveUrls := Leaked(s))
  }

  /** A click that produces an MP3: a file is selected, the engine is (or becomes) loaded and
      the conversion yields output. */
  predicate Succeeds(s: SessionState, loadOk: bool, outcome: Outcome) {
    s.selectedFile.Some? && EnsureEngine(s.engine, loadOk) == Loaded && outcome.Converted?
  }

  /** The `try` block of the click handler, entered with a file selected: ensure the engine,
      then either present a new object URL in the player and the download link, or, when a
      call throws, leave the bar at the last progress the handler saw. */
  function Attempt(s: SessionState, loadOk: bool, outcome: Outcome): SessionState
    requires s.selectedFile.Some?
  {
    var e := EnsureEngine(s.engine, loadOk);
    if e == Loaded && outcome.Converted? then
      var url := ObjectUrl(s.nextSerial);
      s.(engine := e, lastObjectUrl := Some(url), playerSrc := Some(url),
         download := Some(DownloadLink(url, s.selectedFile.value)),
         resultShown := true, bar := 100,
         liveUrls := s.liveUrls + {url}, nextSerial := s.nextSerial + 1)
    else if e == Loaded && outcome.lastProgress.Some? then
      s.(engine := e, bar := ClampPercent(outcome.lastProgress.value))
    else s.(engine := e)
  }

  /** The click handler, run to completion. With no file it does nothing. Otherwise it
      disables the button, resets the result panel and the bar and runs `Attempt`: on success
      `lastObjectUrl`, the player and the download link point at a new object URL and the
      previous one is NOT revoked; on failure the URLs are as before. Its `finally` block
      re-enables the button, since a file is selected. */
  function ConvertStep(s: SessionState, loadOk: bool, outcome: Outcome): (r: SessionState)
    ensures s.selectedFile.None? ==> r == s
    ensures r.selectedFile == s.selectedFile && (s.selectedFile.Some? ==> !r.disabled)
    ensures s.selectedFile.Some? ==> r.engine == EnsureEngine(s.engine, loadOk)
    ensures Succeeds(s, loadOk, outcome) ==>
      r.resultShown && r.bar == 100 && r.lastObjectUrl == Some(ObjectUrl(s.nextSerial))
      && r.playerSrc == Some(ObjectUrl(s.nextSerial))
      && r.liveUrls == s.liveUrls + {ObjectUrl(s.nextSerial)}
      && r.download == Some(DownloadLink(ObjectUrl(s.nextSerial), s.selectedFile.value))
    ensures !Succeeds(s, loadOk, outcome) ==>
      r.lastObjectUrl == s.lastObjectUrl && r.playerSrc == s.playerSrc && r.download == s.download
      && r.liveUrls == s.liveUrls
      && r.nextSerial == s.nextSerial && (s.selectedFile.Some? ==> !r.resultShown)
  {
    if s.selectedFile.None? then s
    else Attempt(s.(disabled := true, resultShown := false, bar := 0), loadOk, outcome)
           .(disabled := s.selectedFile.None?)
  }

  /** A user action: choosing a file (or clearing the choice), or clicking the button with the
      foreign calls ending as given. */
  datatype Event = Choose(file: Option<AudioFile>) | Click(loadOk: bool, outcome: Outcome)

  function Step(s: SessionState, ev: Event): SessionState {
    match ev
    case Choose(file) => Select(s, file)
    case Click(loadOk, outcome) => ConvertStep(s, loadOk, outcome)
  }

  /** The state after a sequence of user actions, one after the other. */
  function Run(s: SessionState, evs: seq<Event>): SessionState
    decreases |evs|
  {
    if evs == [] then s else Run(Step(s, evs[0]), evs[1..])
  }

  // ---------------------------------------------------------------------------------------
  // Properties of the state machine

  lemma InvInitial()
    ensures Inv(Initial())
  {
  }

  /** Each action keeps the invariant; in particular a new object URL is never one that is
      already live. */
  lemma StepKeepsInv(s: SessionState, ev: Event)
    requires Inv(s)
    ensures Inv(Step(s, ev))
    ensures ev.Click? && Succeeds(s, ev.loadOk, ev.outcome) ==>
      Step(s, ev).lastObjectUrl.value !in s.liveUrls
  {
    if ev.Click? && Succeeds(s, ev.loadOk, ev.outcome) {
      assert ObjectUrl(s.nextSerial) !in s.liveUrls;
    }
  }

  /** Every sequence of actions keeps the invariant: the button is disabled exactly when no
      file is selected, and the bar stays within [0, 100]. */
  lemma {:induction false} RunKeepsInv(s: SessionState, evs: seq<Event>)
    requires Inv(s)
    ensures Inv(Run(s, evs))
    decreases |evs|
  {
    if evs != [] {
      StepKeepsInv(s, evs[0]);
      RunKeepsInv(Step(s, evs[0]), evs[1..]);
    }
  }

  lemma ReachableStatesAreValid(evs: seq<Event>)
    ensures Inv(Run(Initial(), evs))
    ensures Run(Initial(), evs).disabled == Run(Initial(), evs).selectedFile.None?
  {
    InvInitial();
    RunKeepsInv(Initial(), evs);
  }

  /** A successful click on a file that already has a result leaks that result's URL: it
      stays live and nothing refers to it any more. */
  lemma SecondConversionLeaks(s: SessionState, loadOk: bool)
    requires Inv(s) && s.lastObjectUrl.Some? && Succeeds(s, loadOk, Converted)
    ensures var r := ConvertStep(s, loadOk, Converted);
      s.lastObjectUrl.value in Leaked(r) && Leaked(r) == Leaked(s) + {s.lastObjectUrl.value}
      && |Leaked(r)| == |Leaked(s)| + 1
  {
    var r := ConvertStep(s, loadOk, Converted);
    var old_ := s.lastObjectUrl.value;
    assert ObjectUrl(s.nextSerial) !in s.liveUrls;
    assert Leaked(r) == s.liveUrls;
    assert old_ !in Leaked(s);
  }

  /** No action revokes a leaked URL: once leaked, a URL stays live for the rest of the
      session. */
  lemma {:induction false} LeakedStaysLeaked(s: SessionState, evs: seq<Event>)
    requires Inv(s)
    ensures Leaked(s) <= Leaked(Run(s, evs))
    decreases |evs|
  {
    if evs != [] {
      var t := Step(s, evs[0]);
      StepKeepsInv(s, evs[0]);
      assert Leaked(s) <= Leaked(t) by {
        if evs[0].Click? && Succeeds(s, evs[0].loadOk, evs[0].outcome) {
          assert ObjectUrl(s.nextSerial) !in s.liveUrls;
        }
      }
      LeakedStaysLeaked(t, evs[1..]);
    }
  }

  /** Two successful conversions of the same file, back to back, leave two live URLs where
      there was at most one before. */
  lemma TwoConversionsLeaveTwoLiveUrls(s: SessionState, loadOk1: bool, loadOk2: bool)
    requires Inv(s) && s.selectedFile.Some? && s.lastObjectUrl.None? && s.liveUrls == {}
    requires Succeeds(s, loadOk1, Converted)
    ensures var r := Run(s, [Click(loadOk1, Converted), Click(loadOk2, Converted)]);
      r.liveUrls == {ObjectUrl(s.nextSerial), ObjectUrl(s.nextSerial + 1)}
      && Leaked(r) == {ObjectUrl(s.nextSerial)}
  {
    var t := ConvertStep(s, loadOk1, Converted);
    var u := ConvertStep(t, loadOk2, Converted);
    var evs := [Click(loadOk1, Converted), Click(loadOk2, Converted)];
    calc {
      Run(s, evs);
      Run(t, evs[1..]);
      { assert evs[1..] == [Click(loadOk2, Converted)]; }
      Run(t, [Click(loadOk2, Converted)]);
      Run(u, []);
    }
    assert ObjectUrl(s.nextSerial) != ObjectUrl(s.nextSerial + 1);
  }

  /** `ensureFFmpeg` stores an instance at most once: once the engine is decided, no sequence
      of actions changes it. */
  lemma {:induction false} EngineIsSettled(s: SessionState, evs: seq<Event>)
    requires s.engine != NoEngine
    ensures Run(s, evs).engine == s.engine
    decreases |evs|
  {
    if evs != [] {
      EngineIsSettled(Step(s, evs[0]), evs[1..]);
    }
  }

  /** A failed load is never retried: the unloaded instance stays cached, so no later click
      produces an MP3 and no object URL is ever created again. */
  lemma {:induction false} FailedLoadIsPermanent(s: SessionState, evs: seq<Event>)
    requires s.engine == Unloaded
    ensures Run(s, evs).engine == Unloaded
    ensures Run(s, evs).nextSerial == s.nextSerial
    ensures Run(s, evs).liveUrls <= s.liveUrls
    decreases |evs|
  {
    if evs != [] {
      var t := Step(s, evs[0]);
      assert t.nextSerial == s.nextSerial && t.liveUrls <= s.liveUrls;
      FailedLoadIsPermanent(t, evs[1..]);
    }
  }

  /** A failed first load leaves an unloaded instance, where a retry would have been
      possible had the handle stayed `null`. */
  lemma FirstLoadFailure(s: SessionState, outcome: Outcome)
    requires s.engine == NoEngine && s.selectedFile.Some?
    ensures ConvertStep(s, false, outcome).engine == Unloaded
    ensures !Succeeds(ConvertStep(s, false, outcome), true, Converted)
  {
  }

  /** The MP3 offered for download is named by a clean base name followed by `.mp3`. */
  lemma DownloadLinkIsClean(s: SessionState, loadOk: bool)
    requires Succeeds(s, loadOk, Converted)
    ensures var n := ConvertStep(s, loadOk, Converted).download.value.FileName();
      EndsWith(n, ".mp3") && n[..|n| - 4] != [] && AllNameChars(n[..|n| - 4])
  {
    var b := SafeBaseName(s.selectedFile.value.name);
    var n := b + ".mp3";
    assert n[..|n| - 4] == b;
    assert n[|n| - 4..] == ".mp3";
  }

  // ---------------------------------------------------------------------------------------
  // The page, as an object whose fields the routines update in place

  class Session {
    var selectedFile: Option<AudioFile>
    var disabled: bool
    var engine: Engine
    var lastObjectUrl: Option<Url>
    var playerSrc: Option<Url>
    var download: Option<DownloadLink>
    var resultShown: bool
    var bar: int
    var liveUrls: set<Url>
    var nextSerial: nat

    function State(): SessionState
      reads this
    {
      SessionState(selectedFile, disabled, engine, lastObjectUrl, playerSrc, download,
                   resultShown, bar, liveUrls, nextSerial)
    }

    ghost predicate Valid()
      reads this
    {
      Inv(State())
    }

    constructor()
      ensures State() == Initial() && Valid()
    {
      selectedFile, disabled, engine := None, true, NoEngine;
      lastObjectUrl, playerSrc, download := None, None, None;
      resultShown, bar := false, 0;
      liveUrls, nextSerial := {}, 0;
    }

    /** `resetUI`: hide the result panel and empty the bar (the log is not modelled). */
    method ResetUI()
      modifies this
      ensures State() == old(State()).(resultShown := false, bar := 0)
    {
      resultShown := false;
      bar := 0;
    }

    /** The progress handler registered on the engine. */
    method OnProgress(raw: int)
      modifies this
      ensures State() == old(State()).(bar := ClampPercent(raw))
    {
      bar := ClampPercent(raw);
    }

    /** `URL.createObjectURL`: a URL that is not live yet, now registered as live. */
    method CreateObjectUrl() returns (url: Url)
      modifies this
      ensures url == ObjectUrl(old(nextSerial))
      ensures State() == old(State()).(liveUrls := old(liveUrls) + {url}, nextSerial := old(nextSerial) + 1)
    {
      url := ObjectUrl(nextSerial);
      liveUrls := liveUrls + {url};
      nextSerial := nextSerial + 1;
    }

    /** `URL.revokeObjectURL`. */
    method RevokeObjectUrl(url: Url)
      modifies this
      ensures State() == old(State()).(liveUrls := old(liveUrls) - {url})
    {
      liveUrls := liveUrls - {url};
    }

    /** `setSelected(file)`, as `Select` describes it. */
    method SetSelected(file: Option<AudioFile>)
      requires Valid()
      modifies this
      ensures State() == Select(old(State()), file) && Valid()
    {
      ghost var s := State();
      selectedFile := file;
      disabled := selectedFile.None?;
      ResetUI();
      if lastObjectUrl.Some? {
        RevokeObjectUrl(lastObjectUrl.value);
        lastObjectUrl := None;
      }
      playerSrc := None;
      StepKeepsInv(s, Choose(file));
    }

    /** `ensureFFmpeg()`; `returned` is false when it throws. */
    method EnsureFFmpeg(loadOk: bool) returns (returned: bool)
      modifies this
      ensures returned == EngineReturns(old(engine), loadOk)
      ensures State() == old(State()).(engine := EnsureEngine(old(engine), loadOk))
    {
      if engine != NoEngine {
        return true;
      }
      engine := Unloaded;
      if loadOk {
        engine := Loaded;
      }
      returned := loadOk;
    }

    /** Lines 197-204 of main.js: show `url` in the player and the download link. */
    method PresentResult(url: Url)
      requires selectedFile.Some?
      modifies this
      ensures State() == old(State()).(lastObjectUrl := Some(url), playerSrc := Some(url),
        download := Some(DownloadLink(url, old(selectedFile).value)),
        resultShown := true, bar := 100)
    {
      lastObjectUrl := Some(url);
      playerSrc := Some(url);
      download := Some(DownloadLink(url, selectedFile.value));
      resultShown := true;
      bar := 100;
    }

    /** The `try` block of the click handler, as `Attempt` describes it. */
    method TryConvert(loadOk: bool, outcome: Outcome) returns (succeeded: bool)
      requires selectedFile.Some?
      modifies this
      ensures succeeded == (EnsureEngine(old(engine), loadOk) == Loaded && outcome.Converted?)
      ensures State() == Attempt(old(State()), loadOk, outcome)
    {
      ghost var s := State();
      succeeded := false;
      var returned := EnsureFFmpeg(loadOk);
      ghost var e := EnsureEngine(s.engine, loadOk);
      assert State() == s.(engine := e);
      // Writing the input on an instance whose load threw fails too.
      if returned && engine == Loaded {
        match outcome
        case Converted =>
          var url := CreateObjectUrl();
          PresentResult(url);
          succeeded := true;
        case Failed(p) =>
          if p.Some? {
            OnProgress(p.value);
          }
      } else {
        assert e != Loaded;
      }
    }

    /** The click handler, as `ConvertStep` describes it; `succeeded` says whether an MP3 was
        produced. The button is disabled while the handler runs and re-enabled in its
        `finally` block. */
    method Convert(loadOk: bool, outcome: Outcome) returns (succeeded: bool)
      requires Valid()
      modifies this
      ensures succeeded == Succeeds(old(State()), loadOk, outcome)
      ensures State() == ConvertStep(old(State()), loadOk, outcome) && Valid()
    {
      ghost var s := State();
      succeeded := false;
      if selectedFile.None? {
        return;
      }
      disabled := true;
      ResetUI();
      succeeded := TryConvert(loadOk, outcome);
      disabled := selectedFile.None?;
      StepKeepsInv(s, Click(loadOk, outcome));
    }
  }
}

/** The update state machine of `dlc_server.c`: a global status, changed by the handlers of
    several connections and by the threads they start.  Handlers run one at a time, in any
    order. */
module Update {
  import opened Options

  datatype Device = NoDevice | WPC | VDCM

  datatype Status =
    | Idle | DlcPkgNew | DlcPkgDownloading | DlcPkgReady | DlcPkgBad
    | OrchConErr | OrchPkgDownloading | OrchPkgReady | OrchPkgBad | OrchTdrRun | OrchTdrFail | OrchTdrSucc

  /** What happened, for the record. */
  datatype Event =
    | Accepted(device: Device)     // a manifest was parsed
    | BadManifest                  // a manifest was not
    | DownloadOk                   // the download command ended without an error
    | PkgNewReply(replied: Device) // "/pkg/new" was answered, for the current device
    | UploadFinished
    | HmiStart                     // START_UPGRADE from the display, with a package ready
    | TdrRunStarted                // the thread of a "/tdr/run" request was started
    | TdrRunPayload(named: Device) // that thread made its payload, with the current device
    | PkgStatStarted               // a "/pkg/sta" request was started
    | PkgNewConnected              // "/pkg/new" was connected
    | PkgStatConnected(ok: bool)   // "/pkg/sta" was connected, or could not be
    | PkgStatReply(succ: bool)     // it was answered, with "succ" or not
    | TdrRunConnected              // "/tdr/run" was connected
    | TdrStatStarted               // the thread of a "/tdr/stat" request was started
    | TdrStatConnected(ok: bool)   // "/tdr/stat" was connected, or could not be
    | TdrStatReply(progress: Option<int>) // it was answered: the progress, or nothing that could be read
    | TdrStatEnded                 // that thread has left its loop

  /** A request thread kind: how many are running, the shared exit flag, and whether there is
      a connection. */
  datatype Api = Api(running: nat, exit: bool, connected: bool)

  const NoRequest := Api(0, false, false)

  /** `payloads` counts the threads of "/tdr/run" requests that have not made their payload yet. */
  datatype State = State(stat: Status, device: Device, downloads: nat, uploads: nat, hmiWaiting: nat, payloads: nat,
                         pkgNew: Api, pkgStat: Api, tdrRun: Api, tdrStat: Api, history: seq<Event>)

  const Init := State(Idle, NoDevice, 0, 0, 0, 0, NoRequest, NoRequest, NoRequest, NoRequest, [])

  function Log(s: State, e: Event): State {
    s.(history := s.history + [e])
  }

  function Start(a: Api): Api {
    a.(running := a.running + 1)
  }

  /** The switch of `core_state_handler`. */
  function Act(s: State): State {
    match s.stat
    case DlcPkgNew => s.(downloads := s.downloads + 1, stat := DlcPkgDownloading)
    case DlcPkgReady => s.(pkgNew := Start(s.pkgNew))
    case OrchPkgDownloading =>
      if s.pkgStat.connected then s else Log(s.(pkgStat := Start(s.pkgStat)), PkgStatStarted)
    case OrchPkgReady => Log(s.(tdrRun := Start(s.tdrRun), payloads := s.payloads + 1), TdrRunStarted)
    case OrchTdrRun => Log(s.(tdrStat := Start(s.tdrStat)), TdrStatStarted)
    case _ => s
  }

  /** `core_state_handler` with a status to be set. */
  function Core(s: State, reset: Status): State {
    Act(s.(stat := reset))
  }

  // ---------------------------------------------------------------------------
  // The handlers

  /** A manifest from the DMC.  One that cannot be parsed gives `STAT_INVALID`, which leaves
      the status and acts on it once more. */
  function Manifest(s: State, device: Device): State {
    if device == NoDevice then Act(Log(s, BadManifest))
    else Core(Log(s.(device := device), Accepted(device)), DlcPkgNew)
  }

  /** The end of a download thread. */
  function DownloadEnd(s: State, ok: bool): State
    requires s.downloads > 0
  {
    var t := s.(downloads := s.downloads - 1);
    if ok then Core(Log(t, DownloadOk), DlcPkgReady) else t
  }

  /** The end of an upload thread, whatever the upload command said. */
  function UploadEnd(s: State): State
    requires s.uploads > 0
  {
    Log(s.(uploads := s.uploads - 1, stat := OrchPkgReady), UploadFinished)
  }

  /** START_UPGRADE: the status is looked at first and the lock waited for then. */
  function HmiCheck(s: State): State {
    if s.stat == OrchPkgReady then Log(s.(hmiWaiting := s.hmiWaiting + 1), HmiStart) else s
  }

  function HmiGo(s: State): State
    requires s.hmiWaiting > 0
  {
    Core(s.(hmiWaiting := s.hmiWaiting - 1), OrchPkgReady)
  }

  function PkgNewConnect(s: State): State {
    Log(s.(pkgNew := s.pkgNew.(connected := true), stat := OrchPkgDownloading), PkgNewConnected)
  }

  function PkgNewAnswer(s: State): State {
    var t := Log(s.(pkgNew := s.pkgNew.(exit := true)), PkgNewReply(s.device));
    if s.device != WPC then t.(stat := OrchTdrRun) else t.(stat := OrchPkgDownloading, uploads := s.uploads + 1)
  }

  function PkgStatConnect(s: State, ok: bool): State {
    Log(if ok then s.(pkgStat := s.pkgStat.(connected := true), stat := OrchPkgDownloading)
        else s.(pkgStat := s.pkgStat.(exit := true), stat := OrchPkgBad), PkgStatConnected(ok))
  }

  function PkgStatAnswer(s: State, succ: bool): State {
    Log(if succ then s.(pkgStat := s.pkgStat.(exit := true)) else s.(stat := OrchPkgDownloading), PkgStatReply(succ))
  }

  /** The start of the thread of a "/tdr/run" request, which does not wait for the lock. */
  function MakePayload(s: State): State
    requires s.payloads > 0
  {
    Log(s.(payloads := s.payloads - 1), TdrRunPayload(s.device))
  }

  function TdrRunConnect(s: State): State {
    Core(Log(s.(tdrRun := s.tdrRun.(connected := true)), TdrRunConnected), OrchTdrRun)
  }

  function TdrStatConnect(s: State, ok: bool): State {
    var t := Log(s.(tdrStat := s.tdrStat.(connected := true)), TdrStatConnected(ok));
    if ok then t.(stat := OrchTdrRun) else t.(stat := OrchConErr, tdrStat := t.tdrStat.(exit := true))
  }

  /** What "/tdr/stat" answers is the progress of the upgrade, negative when it has failed and
      positive when it has succeeded; an answer without a result is passed over. */
  function TdrStatAnswer(s: State, progress: Option<int>): State {
    if progress.None? then Log(s, TdrStatReply(None))
    else
      Core(Log(s.(tdrStat := s.tdrStat.(exit := true)), TdrStatReply(progress)),
        if progress.value < 0 then OrchTdrFail else if progress.value == 0 then OrchTdrRun else OrchTdrSucc)
  }

  /** MG_EV_CLOSE, the same for every request. */
  function Closed(a: Api): Api {
    a.(connected := false, exit := true)
  }

  /** A request thread leaves its loop: it resets the flag, and freeing its connections may
      bring one more close event. */
  function Ended(a: Api, closing: bool): Api
    requires a.running > 0
  {
    var b := a.(running := a.running - 1, exit := false);
    if closing then Closed(b) else b
  }

  // ---------------------------------------------------------------------------
  // Runs

  datatype Label =
    | LManifest(device: Device) | LDownloadEnd(ok: bool) | LUploadEnd | LHmiCheck | LHmiGo
    | LPkgNewConnect | LPkgNewAnswer | LPkgStatConnect(ok: bool) | LPkgStatAnswer(succ: bool)
    | LPayload | LTdrRunConnect | LTdrStatConnect(ok: bool) | LTdrStatAnswer(progress: Option<int>)
    | LPkgNewClose | LPkgStatClose | LTdrRunClose | LTdrStatClose
    | LPkgNewEnd(closing: bool) | LPkgStatEnd(closing: bool) | LTdrRunEnd(closing: bool) | LTdrStatEnd(closing: bool)

  /** Which steps are possible: a request's handler is called while a thread for it runs. */
  predicate Enabled(s: State, l: Label) {
    match l
    case LManifest(_) => true
    case LDownloadEnd(_) => s.downloads > 0
    case LUploadEnd => s.uploads > 0
    case LHmiCheck => true
    case LHmiGo => s.hmiWaiting > 0
    case LPkgNewConnect => s.pkgNew.running > 0
    case LPkgNewAnswer => s.pkgNew.running > 0
    case LPkgStatConnect(_) => s.pkgStat.running > 0
    case LPkgStatAnswer(_) => s.pkgStat.running > 0
    case LPayload => s.payloads > 0
    case LTdrRunConnect => s.tdrRun.running > 0
    case LTdrStatConnect(_) => s.tdrStat.running > 0
    case LTdrStatAnswer(_) => s.tdrStat.running > 0
    case LPkgNewClose => s.pkgNew.running > 0
    case LPkgStatClose => s.pkgStat.running > 0
    case LTdrRunClose => s.tdrRun.running > 0
    case LTdrStatClose => s.tdrStat.running > 0
    case LPkgNewEnd(_) => s.pkgNew.running > 0 && s.pkgNew.exit
    case LPkgStatEnd(_) => s.pkgStat.running > 0 && s.pkgStat.exit
    case LTdrRunEnd(_) => s.tdrRun.running > 0 && s.tdrRun.exit
    case LTdrStatEnd(_) => s.tdrStat.running > 0 && s.tdrStat.exit
  }

  function Next(s: State, l: Label): State
    requires Enabled(s, l)
  {
    match l
    case LManifest(device) => Manifest(s, device)
    case LDownloadEnd(ok) => DownloadEnd(s, ok)
    case LUploadEnd => UploadEnd(s)
    case LHmiCheck => HmiCheck(s)
    case LHmiGo => HmiGo(s)
    case LPkgNewConnect => PkgNewConnect(s)
    case LPkgNewAnswer => PkgNewAnswer(s)
    case LPkgStatConnect(ok) => PkgStatConnect(s, ok)
    case LPkgStatAnswer(succ) => PkgStatAnswer(s, succ)
    case LPayload => MakePayload(s)
    case LTdrRunConnect => TdrRunConnect(s)
    case LTdrStatConnect(ok) => TdrStatConnect(s, ok)
    case LTdrStatAnswer(p) => TdrStatAnswer(s, p)
    case LPkgNewClose => s.(pkgNew := Closed(s.pkgNew))
    case LPkgStatClose => s.(pkgStat := Closed(s.pkgStat))
    case LTdrRunClose => s.(tdrRun := Closed(s.tdrRun))
    case LTdrStatClose => s.(tdrStat := Closed(s.tdrStat))
    case LPkgNewEnd(c) => s.(pkgNew := Ended(s.pkgNew, c))
    case LPkgStatEnd(c) => s.(pkgStat := Ended(s.pkgStat, c))
    case LTdrRunEnd(c) => s.(tdrRun := Ended(s.tdrRun, c))
    case LTdrStatEnd(c) => Log(s.(tdrStat := Ended(s.tdrStat, c)), TdrStatEnded)
  }

  /** The labels can be followed from the start, one after the other. */
  predicate Possible(ls: seq<Label>)
    decreases |ls|, 0
  {
    ls == [] || (Possible(ls[..|ls| - 1]) && Enabled(After(ls[..|ls| - 1]), ls[|ls| - 1]))
  }

  function After(ls: seq<Label>): State
    requires Possible(ls)
    decreases |ls|, 1
  {
    if ls == [] then Init else Next(After(ls[..|ls| - 1]), ls[|ls| - 1])
  }

  // ---------------------------------------------------------------------------
  // What precedes what

  /** The device of the manifest accepted last. */
  function LastAccepted(h: seq<Event>): Device {
    if h == [] then NoDevice
    else if h[|h| - 1].Accepted? then h[|h| - 1].device
    else LastAccepted(h[..|h| - 1])
  }

  /** What must be on record before an event. */
  predicate Justified(before: seq<Event>, e: Event) {
    match e
    case Accepted(d) => d != NoDevice
    case DownloadOk => LastAccepted(before) != NoDevice
    case PkgNewReply(d) => DownloadOk in before && d == LastAccepted(before)
    case UploadFinished => PkgNewReply(WPC) in before
    case HmiStart => UploadFinished in before
    case TdrRunStarted => UploadFinished in before && (BadManifest !in before ==> HmiStart in before)
    case TdrRunPayload(d) => TdrRunStarted in before && d == LastAccepted(before)
    case PkgStatStarted => BadManifest in before
    case _ => true
  }

  predicate Ordered(h: seq<Event>) {
    forall i :: 0 <= i < |h| ==> Justified(h[..i], h[i])
  }

  /** Requests started less payloads made. */
  function Owed(h: seq<Event>): int {
    if h == [] then 0 else Owed(h[..|h| - 1]) + Weight(h[|h| - 1])
  }

  function Weight(e: Event): int {
    if e.TdrRunStarted? then 1 else if e.TdrRunPayload? then -1 else 0
  }

  lemma OrderedSnoc(h: seq<Event>, e: Event)
    requires Ordered(h) && Justified(h, e)
    ensures Ordered(h + [e]) && Owed(h + [e]) == Owed(h) + Weight(e)
    ensures LastAccepted(h + [e]) == if e.Accepted? then e.device else LastAccepted(h)
    ensures forall x :: x in h || x == e <==> x in h + [e]
  {
    var t := h + [e];
    assert t[..|t| - 1] == h;
    forall i | 0 <= i < |t| ensures Justified(t[..i], t[i]) {
      assert t[..i] == h[..i];
    }
  }

  /** What the status and the running threads say about the record. */
  predicate Inv(s: State) {
    var h := s.history;
    && Ordered(h) && s.device == LastAccepted(h) && s.stat != DlcPkgNew
    && (s.downloads > 0 ==> s.device != NoDevice)
    && (s.stat == DlcPkgReady || s.pkgNew.running > 0 ==> DownloadOk in h)
    && (s.uploads > 0 ==> PkgNewReply(WPC) in h)
    && (s.stat == OrchPkgReady || s.hmiWaiting > 0 ==> UploadFinished in h)
    && (s.hmiWaiting > 0 ==> HmiStart in h)
    && (s.pkgStat.running > 0 ==> BadManifest in h)
    && (s.payloads > 0 ==> TdrRunStarted in h) && s.payloads == Owed(h)
  }

  /** Recording an event that is justified. */
  lemma LogInv(s: State, e: Event)
    requires Inv(s) && Justified(s.history, e) && !e.Accepted? && Weight(e) == 0
    ensures Inv(Log(s, e))
  {
    hide Ordered, Owed, LastAccepted, Justified;
    OrderedSnoc(s.history, e);
  }

  /** Acting on a status that the record supports: only a start that waited for the display,
      or a bad manifest, acts on a package that is ready. */
  lemma ActInv(s: State)
    requires Inv(s.(stat := if s.stat == DlcPkgNew then Idle else s.stat))
    requires s.stat == DlcPkgNew ==> s.device != NoDevice
    requires s.stat == OrchPkgReady ==> BadManifest in s.history || HmiStart in s.history
    requires s.stat == OrchPkgDownloading ==> BadManifest in s.history
    ensures Inv(Act(s))
  {
    hide Ordered, Owed, LastAccepted;
    if s.stat == OrchPkgReady {
      OrderedSnoc(s.history, TdrRunStarted);
    } else if s.stat == OrchPkgDownloading {
      OrderedSnoc(s.history, PkgStatStarted);
    } else if s.stat == OrchTdrRun {
      OrderedSnoc(s.history, TdrStatStarted);
    }
  }

  lemma ManifestInv(s: State, device: Device)
    requires Inv(s)
    ensures Inv(Manifest(s, device))
  {
    if device == NoDevice {
      LogInv(s, BadManifest);
      ActInv(Log(s, BadManifest));
    } else {
      OrderedSnoc(s.history, Accepted(device));
      ActInv(Log(s.(device := device), Accepted(device)).(stat := DlcPkgNew));
    }
  }

  lemma DownloadEndInv(s: State, ok: bool)
    requires Inv(s) && s.downloads > 0
    ensures Inv(DownloadEnd(s, ok))
  {
    hide Ordered, LastAccepted, Owed, Act;
    if ok {
      var t := s.(downloads := s.downloads - 1);
      LogInv(t, DownloadOk);
      ActInv(Log(t, DownloadOk).(stat := DlcPkgReady));
    }
  }

  lemma PkgNewAnswerInv(s: State)
    requires Inv(s) && s.pkgNew.running > 0
    ensures Inv(PkgNewAnswer(s))
  {
    hide Ordered, Owed, LastAccepted;
    LogInv(s.(pkgNew := s.pkgNew.(exit := true)), PkgNewReply(s.device));
  }

  lemma TdrInv(s: State, tdrRun: Api, tdrStat: Api, e: Event, reset: Status)
    requires Inv(s) && reset in {OrchTdrRun, OrchTdrFail, OrchTdrSucc} && Silent(e)
    ensures Inv(Core(Log(s.(tdrRun := tdrRun, tdrStat := tdrStat), e), reset))
  {
    hide Ordered, Owed, LastAccepted, Act;
    var t := s.(tdrRun := tdrRun, tdrStat := tdrStat);
    LogInv(t, e);
    ActInv(Log(t, e).(stat := reset));
  }

  /** Events that need nothing before them, and that nothing else is said of. */
  predicate Silent(e: Event) {
    e.PkgNewConnected? || e.PkgStatConnected? || e.PkgStatReply? || e.TdrRunConnected? || e.TdrStatStarted?
    || e.TdrStatConnected? || e.TdrStatReply? || e.TdrStatEnded?
  }

  lemma StepInv(s: State, l: Label)
    requires Inv(s) && Enabled(s, l)
    ensures Inv(Next(s, l))
  {
    hide Inv, Manifest, DownloadEnd, UploadEnd, HmiCheck, HmiGo, PkgNewAnswer, TdrStatAnswer, MakePayload;
    match l
    case LManifest(device) => ManifestInv(s, device);
    case LDownloadEnd(ok) => DownloadEndInv(s, ok);
    case LUploadEnd => UploadEndInv(s);
    case LHmiCheck => HmiCheckInv(s);
    case LHmiGo => HmiGoInv(s);
    case LPkgNewAnswer => PkgNewAnswerInv(s);
    case LPayload => PayloadInv(s);
    case LTdrRunConnect => TdrInv(s, s.tdrRun.(connected := true), s.tdrStat, TdrRunConnected, OrchTdrRun);
    case LTdrStatAnswer(p) => TdrStatAnswerInv(s, p);
    case _ => RequestInv(s, l);
  }

  /** What is recorded when a request connects, is answered, is closed or ends. */
  function RequestEvents(l: Label): seq<Event> {
    match l
    case LPkgNewConnect => [PkgNewConnected]
    case LPkgStatConnect(ok) => [PkgStatConnected(ok)]
    case LPkgStatAnswer(succ) => [PkgStatReply(succ)]
    case LTdrStatConnect(ok) => [TdrStatConnected(ok)]
    case LTdrStatEnd(_) => [TdrStatEnded]
    case _ => []
  }

  lemma RequestInv(s: State, l: Label)
    requires Inv(s) && Enabled(s, l)
    requires !l.LManifest? && !l.LDownloadEnd? && !l.LUploadEnd? && !l.LHmiCheck? && !l.LHmiGo? && !l.LPayload?
    requires !l.LPkgNewAnswer? && !l.LTdrRunConnect? && !l.LTdrStatAnswer?
    ensures Inv(Next(s, l))
  {
    hide Ordered, LastAccepted, Owed, Manifest, DownloadEnd, UploadEnd, HmiCheck, HmiGo, PkgNewAnswer, TdrStatAnswer,
      MakePayload, Act;
    var quiet := Next(s, l).(history := s.history);
    if RequestEvents(l) == [] {
      assert Next(s, l) == quiet;
    } else {
      LogInv(quiet, RequestEvents(l)[0]);
      assert Next(s, l) == Log(quiet, RequestEvents(l)[0]);
    }
  }

  lemma UploadEndInv(s: State)
    requires Inv(s) && s.uploads > 0
    ensures Inv(UploadEnd(s))
  {
    OrderedSnoc(s.history, UploadFinished);
  }

  lemma PayloadInv(s: State)
    requires Inv(s) && s.payloads > 0
    ensures Inv(MakePayload(s))
  {
    OrderedSnoc(s.history, TdrRunPayload(s.device));
  }

  lemma HmiCheckInv(s: State)
    requires Inv(s)
    ensures Inv(HmiCheck(s))
  {
    if s.stat == OrchPkgReady {
      OrderedSnoc(s.history, HmiStart);
    }
  }

  lemma HmiGoInv(s: State)
    requires Inv(s) && s.hmiWaiting > 0
    ensures Inv(HmiGo(s))
  {
    hide Act, Ordered, LastAccepted;
    ActInv(s.(hmiWaiting := s.hmiWaiting - 1, stat := OrchPkgReady));
  }

  lemma TdrStatAnswerInv(s: State, progress: Option<int>)
    requires Inv(s)
    ensures Inv(TdrStatAnswer(s, progress))
  {
    hide Inv, Act;
    if progress.None? {
      LogInv(s, TdrStatReply(None));
    } else {
      TdrInv(s, s.tdrRun, s.tdrStat.(exit := true), TdrStatReply(progress),
        if progress.value < 0 then OrchTdrFail else if progress.value == 0 then OrchTdrRun else OrchTdrSucc);
    }
  }

  /** The invariant holds after every run. */
  lemma {:induction false} RunInv(ls: seq<Label>)
    requires Possible(ls)
    ensures Inv(After(ls))
    decreases |ls|
  {
    if ls != [] {
      RunInv(ls[..|ls| - 1]);
      StepInv(After(ls[..|ls| - 1]), ls[|ls| - 1]);
    }
  }

  // ---------------------------------------------------------------------------
  // What every run guarantees

  lemma Earlier(h: seq<Event>, i: nat, e: Event) returns (j: nat)
    requires i <= |h| && e in h[..i]
    ensures j < i && h[j] == e
  {
    var k :| 0 <= k < i && h[..i][k] == e;
    j := k;
  }

  lemma JustifiedAt(h: seq<Event>, i: nat, e: Event)
    requires Ordered(h) && i < |h| && h[i] == e
    ensures Justified(h[..i], e)
  {
  }

  lemma Chain(h: seq<Event>, i: nat) returns (a: nat, b: nat, c: nat, d: nat)
    requires Ordered(h) && i < |h| && h[i].TdrRunStarted?
    ensures a < b < c < d < i
    ensures h[a].Accepted? && h[b] == DownloadOk && h[c] == PkgNewReply(WPC) && h[d] == UploadFinished
  {
    hide Ordered, LastAccepted;
    JustifiedAt(h, i, h[i]);
    d := Earlier(h, i, UploadFinished);
    JustifiedAt(h, d, UploadFinished);
    c := Earlier(h, d, PkgNewReply(WPC));
    JustifiedAt(h, c, PkgNewReply(WPC));
    b := Earlier(h, c, DownloadOk);
    JustifiedAt(h, b, DownloadOk);
    a := AcceptedBefore(h[..b]);
    assert h[a] == h[..b][a];
  }

  /** Every start of a "/tdr/run" request, in every run, has before it a finished upload,
      before that a "/pkg/new" reply for the WPC, before that a successful download, and
      before that an accepted manifest. */
  lemma Causality(ls: seq<Label>, i: nat)
    requires Possible(ls) && i < |After(ls).history| && After(ls).history[i].TdrRunStarted?
    ensures
      var h := After(ls).history;
      exists a, b, c, d | 0 <= a < b < c < d < i ::
        h[a].Accepted? && h[b] == DownloadOk && h[c] == PkgNewReply(WPC) && h[d] == UploadFinished
  {
    hide Ordered, After, Possible;
    RunInv(ls);
    var a, b, c, d := Chain(After(ls).history, i);
  }

  lemma {:induction false} AcceptedBefore(h: seq<Event>) returns (a: nat)
    requires LastAccepted(h) != NoDevice
    ensures a < |h| && h[a] == Accepted(LastAccepted(h))
  {
    if h[|h| - 1].Accepted? {
      a := |h| - 1;
    } else {
      a := AcceptedBefore(h[..|h| - 1]);
    }
  }

  /** If no manifest failed to parse until then, the display has asked for the start, after
      the upload. */
  lemma DisplayAsked(ls: seq<Label>, i: nat)
    requires Possible(ls) && i < |After(ls).history| && After(ls).history[i].TdrRunStarted?
    requires BadManifest !in After(ls).history[..i]
    ensures
      var h := After(ls).history;
      exists d, e | 0 <= d < e < i :: h[d] == UploadFinished && h[e] == HmiStart
  {
    RunInv(ls);
    var h := After(ls).history;
    assert Justified(h[..i], h[i]);
    var e := Earlier(h, i, HmiStart);
    assert Justified(h[..e], h[e]);
    var d := Earlier(h, e, UploadFinished);
  }

  /** The last manifest accepted before `i` is one for the WPC. */
  ghost predicate WpcLast(h: seq<Event>, i: nat)
    requires i <= |h|
  {
    exists a | 0 <= a < i :: h[a] == Accepted(WPC) && NoOtherBetween(h, a, i)
  }

  predicate NoOtherBetween(h: seq<Event>, a: nat, i: nat)
    requires i <= |h|
  {
    forall b :: a < b < i && h[b].Accepted? ==> h[b] == Accepted(WPC)
  }

  /** What a request names: the device of the manifest accepted last when the payload is made, which
      is some time after the request was started.  So it names the WPC, whose package was uploaded,
      exactly when no manifest for another device has come in since the last one for the WPC. */
  lemma RunIsForLastManifest(ls: seq<Label>, i: nat)
    requires Possible(ls) && i < |After(ls).history| && After(ls).history[i].TdrRunPayload?
    ensures
      var h := After(ls).history;
      && TdrRunStarted in h[..i] && h[i].named != NoDevice
      && (h[i].named == WPC <==> WpcLast(h, i))
  {
    hide After, Possible, Ordered, LastAccepted, WpcLast;
    RunInv(ls);
    var h := After(ls).history;
    JustifiedAt(h, i, h[i]);
    var r := Earlier(h, i, TdrRunStarted);
    var a, b, c, d := Chain(h, r);
    SomeAccepted(h, i, a);
    LastIs(h, i);
  }

  lemma {:induction false} LastIs(h: seq<Event>, i: nat)
    requires i <= |h|
    ensures LastAccepted(h[..i]) == WPC <==> WpcLast(h, i)
  {
    if i > 0 {
      LastIs(h, i - 1);
      assert h[..i][..i - 1] == h[..i - 1];
      WpcStep(h, i);
    }
  }

  lemma WpcStep(h: seq<Event>, i: nat)
    requires 0 < i <= |h|
    ensures WpcLast(h, i) <==> h[i - 1] == Accepted(WPC) || (!h[i - 1].Accepted? && WpcLast(h, i - 1))
  {
    if WpcLast(h, i) {
      var a :| 0 <= a < i && h[a] == Accepted(WPC) && NoOtherBetween(h, a, i);
      if a < i - 1 { assert NoOtherBetween(h, a, i - 1); }
    }
    if h[i - 1] == Accepted(WPC) { assert NoOtherBetween(h, i - 1, i); }
    if !h[i - 1].Accepted? && WpcLast(h, i - 1) {
      var a :| 0 <= a < i - 1 && h[a] == Accepted(WPC) && NoOtherBetween(h, a, i - 1);
      assert NoOtherBetween(h, a, i);
    }
  }

  lemma {:induction false} SomeAccepted(h: seq<Event>, i: nat, a: nat)
    requires Ordered(h) && a < i <= |h| && h[a].Accepted?
    ensures LastAccepted(h[..i]) != NoDevice
  {
    assert h[..i][..i - 1] == h[..i - 1];
    JustifiedAt(h, i - 1, h[i - 1]);
    if a < i - 1 { SomeAccepted(h, i - 1, a); }
  }

  /** In every run, as many payloads are made as requests are started, less those still to make
      theirs: none is made twice, or for a request that was not started. */
  lemma OnePayloadEach(ls: seq<Label>)
    requires Possible(ls)
    ensures After(ls).payloads == Owed(After(ls).history)
  {
    RunInv(ls);
  }

  /** The package status is asked for only after a manifest that did not parse. */
  lemma StatusNeverAsked(ls: seq<Label>)
    requires Possible(ls) && BadManifest !in After(ls).history
    ensures After(ls).pkgStat.running == 0 && PkgStatStarted !in After(ls).history
  {
    RunInv(ls);
    var h := After(ls).history;
    forall k | 0 <= k < |h| ensures h[k] != PkgStatStarted {
      assert Justified(h[..k], h[k]);
      assert BadManifest !in h[..k];
    }
  }

  // ---------------------------------------------------------------------------
  // Runs that exist

  lemma Extend(ls: seq<Label>, l: Label)
    requires Possible(ls) && Enabled(After(ls), l)
    ensures Possible(ls + [l]) && After(ls + [l]) == Next(After(ls), l)
  {
    assert (ls + [l])[..|ls|] == ls;
  }

  /** A manifest for the WPC. */
  lemma FirstManifest()
    ensures
      var s := Manifest(Init, WPC);
      && s.history == [Accepted(WPC)] && s.device == WPC && s.downloads == 1
      && s.uploads == 0 && s.hmiWaiting == 0 && s.payloads == 0
  {
    assert Init.history + [Accepted(WPC)] == [Accepted(WPC)];
  }

  lemma FirstDownload(s: State)
    requires s.history == [Accepted(WPC)] && s.downloads == 1 && s.uploads == 0
    ensures
      var t := DownloadEnd(s, true);
      && t.history == [Accepted(WPC), DownloadOk] && t.device == s.device && t.pkgNew.running > 0
      && t.uploads == 0 && t.hmiWaiting == s.hmiWaiting && t.payloads == s.payloads
  {
    assert s.history + [DownloadOk] == [Accepted(WPC), DownloadOk];
  }

  lemma FirstUpload(s: State)
    requires s.history == [Accepted(WPC), DownloadOk] && s.device == WPC && s.uploads == 0
    ensures
      var t := PkgNewAnswer(s);
      && t.uploads == 1 && t.device == WPC && t.hmiWaiting == s.hmiWaiting && t.payloads == s.payloads
      && var u := UploadEnd(t);
         && u.history == [Accepted(WPC), DownloadOk, PkgNewReply(WPC), UploadFinished] && u.stat == OrchPkgReady
         && u.device == WPC && u.hmiWaiting == s.hmiWaiting && u.payloads == s.payloads
  {
    assert s.history + [PkgNewReply(WPC)] == [Accepted(WPC), DownloadOk, PkgNewReply(WPC)];
  }

  /** A manifest for the WPC, its download, the request and reply, and the upload. */
  lemma PackageReady() returns (ls: seq<Label>)
    ensures Possible(ls) && After(ls).stat == OrchPkgReady && After(ls).device == WPC && After(ls).hmiWaiting == 0
    ensures After(ls).history == [Accepted(WPC), DownloadOk, PkgNewReply(WPC), UploadFinished]
      && After(ls).payloads == 0
  {
    hide After, Possible, Manifest, DownloadEnd, PkgNewAnswer, UploadEnd;
    NoSteps();
    var a := [] + [LManifest(WPC)];
    Extend([], LManifest(WPC));
    FirstManifest();
    var b := a + [LDownloadEnd(true)];
    Extend(a, LDownloadEnd(true));
    FirstDownload(After(a));
    var c := b + [LPkgNewAnswer];
    Extend(b, LPkgNewAnswer);
    FirstUpload(After(b));
    ls := c + [LUploadEnd];
    Extend(c, LUploadEnd);
  }

  lemma NoSteps()
    ensures Possible([]) && After([]) == Init
  {
  }

  /** The display starts the request then. */
  lemma RequestStarts() returns (ls: seq<Label>)
    ensures Possible(ls) && After(ls).payloads == 1 && After(ls).device == WPC
    ensures After(ls).history == [Accepted(WPC), DownloadOk, PkgNewReply(WPC), UploadFinished, HmiStart, TdrRunStarted]
    ensures LastAccepted(After(ls).history[..5]) == WPC
  {
    hide After, Possible, LastAccepted, Ordered, Owed;
    var a := PackageReady();
    var b := a + [LHmiCheck];
    Extend(a, LHmiCheck);
    assert After(b).hmiWaiting == 1 && After(b).device == WPC;
    RunInv(b);
    ls := b + [LHmiGo];
    Extend(b, LHmiGo);
    assert After(ls).history[..5] == After(b).history;
  }

  /** An update can run. */
  lemma UpdateRuns()
    ensures exists ls: seq<Label> | Possible(ls) ::
      TdrRunPayload(WPC) in After(ls).history && BadManifest !in After(ls).history
  {
    hide After, Possible;
    var a := RequestStarts();
    var b := a + [LPayload];
    Extend(a, LPayload);
    assert After(b).history[6] == TdrRunPayload(WPC);
    assert Possible(b);
  }

  /** A manifest for the VDCM that comes in after the request for the WPC was started makes it name
      the VDCM, for which nothing was downloaded or uploaded. */
  lemma OtherDeviceRuns()
    ensures exists ls: seq<Label>, i | Possible(ls) && 0 <= i < |After(ls).history| ::
      var h := After(ls).history;
      h[i] == TdrRunPayload(VDCM) && PkgNewReply(VDCM) !in h && exists j | 0 <= j < i ::
        h[j] == TdrRunStarted && LastAccepted(h[..j]) == WPC
  {
    hide After, Possible, LastAccepted;
    var a := RequestStarts();
    var b := a + [LManifest(VDCM)];
    Extend(a, LManifest(VDCM));
    var c := b + [LPayload];
    Extend(b, LPayload);
    var h := After(c).history;
    assert h == After(a).history + [Accepted(VDCM), TdrRunPayload(VDCM)];
    assert h[7] == TdrRunPayload(VDCM) && h[5] == TdrRunStarted;
    assert h[..5] == After(a).history[..5];
    assert Possible(c);
  }
}

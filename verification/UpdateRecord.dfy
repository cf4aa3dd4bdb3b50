/** What the record of a run says about the status and the "/tdr/stat" requests: every status comes
    from the last event that speaks of it. */
module UpdateRecord {
  import opened Options
  import opened Update

  /** The event decides the status. */
  predicate Decides(e: Event) {
    match e
    case Accepted(_) => true
    case DownloadOk => true
    case PkgNewConnected => true
    case PkgNewReply(_) => true
    case UploadFinished => true
    case PkgStatConnected(_) => true
    case PkgStatReply(succ) => !succ
    case TdrRunStarted => true
    case TdrRunConnected => true
    case TdrStatConnected(_) => true
    case TdrStatReply(progress) => progress.Some?
    case _ => false
  }

  /** ... and which one it is. */
  function Decided(e: Event): Status
    requires Decides(e)
  {
    match e
    case Accepted(_) => DlcPkgDownloading
    case DownloadOk => DlcPkgReady
    case PkgNewConnected => OrchPkgDownloading
    case PkgNewReply(device) => if device == WPC then OrchPkgDownloading else OrchTdrRun
    case UploadFinished => OrchPkgReady
    case PkgStatConnected(ok) => if ok then OrchPkgDownloading else OrchPkgBad
    case PkgStatReply(_) => OrchPkgDownloading
    case TdrRunStarted => OrchPkgReady
    case TdrRunConnected => OrchTdrRun
    case TdrStatConnected(ok) => if ok then OrchTdrRun else OrchConErr
    case TdrStatReply(progress) =>
      if progress.value > 0 then OrchTdrSucc else if progress.value < 0 then OrchTdrFail else OrchTdrRun
  }

  function StatusOf(h: seq<Event>): Status {
    if h == [] then Idle
    else if Decides(h[|h| - 1]) then Decided(h[|h| - 1])
    else StatusOf(h[..|h| - 1])
  }

  /** The "/tdr/stat" threads that have been started and not ended. */
  function Asking(h: seq<Event>): int {
    if h == [] then 0
    else Asking(h[..|h| - 1]) + Difference(h[|h| - 1])
  }

  function Difference(e: Event): int {
    if e == TdrStatStarted then 1 else if e == TdrStatEnded then -1 else 0
  }

  /** After this event the progress of the upgrade is asked for: "/tdr/run" is connected, the upgrade
      goes on, or a manifest that could not be parsed comes in the middle of it. */
  predicate Prompts(h: seq<Event>, i: nat)
    requires i < |h|
  {
    h[i] == TdrRunConnected || h[i] == TdrStatReply(Some(0)) || (h[i] == BadManifest && StatusOf(h[..i]) == OrchTdrRun)
  }

  /** A "/tdr/stat" thread is started right after such an event, and at no other time. */
  predicate Answered(h: seq<Event>) {
    && (h != [] ==> h[0] != TdrStatStarted)
    && forall i :: 0 <= i < |h| ==> AnsweredAt(h, i)
  }

  predicate AnsweredAt(h: seq<Event>, i: nat)
    requires i < |h|
  {
    Prompts(h, i) <==> i + 1 < |h| && h[i + 1] == TdrStatStarted
  }

  predicate Recorded(s: State) {
    s.stat == StatusOf(s.history) && s.tdrStat.running == Asking(s.history) && Answered(s.history)
  }

  lemma Snoc(h: seq<Event>, e: Event)
    ensures StatusOf(h + [e]) == if Decides(e) then Decided(e) else StatusOf(h)
    ensures Asking(h + [e]) == Asking(h) + Difference(e)
  {
    assert (h + [e])[..|h|] == h;
  }

  lemma AnsweredSnoc(h: seq<Event>, e: Event)
    requires Answered(h) && e != TdrStatStarted
    requires e != TdrRunConnected && e != TdrStatReply(Some(0)) && (e == BadManifest ==> StatusOf(h) != OrchTdrRun)
    ensures Answered(h + [e])
  {
    var t := h + [e];
    forall i | 0 <= i < |t| ensures AnsweredAt(t, i) {
      assert t[..i] == h[..i];
      if i < |h| {
        assert AnsweredAt(h, i);
      } else {
        assert h[..|h|] == h;
      }
    }
  }

  lemma AnsweredPair(h: seq<Event>, e: Event)
    requires Answered(h)
    requires e == TdrRunConnected || e == TdrStatReply(Some(0)) || (e == BadManifest && StatusOf(h) == OrchTdrRun)
    ensures Answered(h + [e] + [TdrStatStarted])
  {
    var t := h + [e] + [TdrStatStarted];
    forall i | 0 <= i < |t| ensures AnsweredAt(t, i) {
      if i < |h| {
        assert t[..i] == h[..i];
        assert AnsweredAt(h, i);
      } else {
        assert t[..|h|] == h;
      }
    }
  }

  /** An event that starts no such thread is recorded with the status it decides. */
  lemma Noted(s: State, e: Event, stat: Status)
    requires Recorded(s) && e != TdrStatStarted && e != TdrStatEnded
    requires e != TdrRunConnected && e != TdrStatReply(Some(0)) && (e == BadManifest ==> s.stat != OrchTdrRun)
    requires stat == if Decides(e) then Decided(e) else s.stat
    ensures Recorded(Log(s, e).(stat := stat))
  {
    hide Decides, Decided, StatusOf, Asking, Answered;
    Snoc(s.history, e);
    AnsweredSnoc(s.history, e);
  }

  /** An event that starts one. */
  lemma Asked(s: State, e: Event)
    requires Recorded(s)
    requires e == TdrRunConnected || e == TdrStatReply(Some(0)) || (e == BadManifest && s.stat == OrchTdrRun)
    ensures Recorded(Act(Log(s, e).(stat := OrchTdrRun)))
  {
    hide StatusOf, Asking, Answered;
    Snoc(s.history, e);
    Snoc(s.history + [e], TdrStatStarted);
    AnsweredPair(s.history, e);
  }

  lemma BadManifestRecorded(s: State)
    requires Recorded(s) && s.stat != DlcPkgNew
    ensures Recorded(Manifest(s, NoDevice))
  {
    hide StatusOf, Asking, Answered;
    if s.stat == OrchTdrRun {
      Asked(s, BadManifest);
      assert Log(s, BadManifest).(stat := OrchTdrRun) == Log(s, BadManifest);
    } else {
      Noted(s, BadManifest, s.stat);
      var t := Log(s, BadManifest);
      assert t.(stat := s.stat) == t;
      if s.stat == OrchPkgReady {
        Noted(t, TdrRunStarted, OrchPkgReady);
        assert Act(t) ==
          Log(t, TdrRunStarted).(stat := OrchPkgReady, tdrRun := Start(s.tdrRun), payloads := s.payloads + 1);
      } else if s.stat == OrchPkgDownloading {
        Noted(t, PkgStatStarted, s.stat);
      }
    }
  }

  lemma TdrStatRecorded(s: State, progress: Option<int>)
    requires Recorded(s)
    ensures Recorded(TdrStatAnswer(s, progress))
  {
    hide Recorded, Decides, Decided, Act, StatusOf;
    var t := s.(tdrStat := s.tdrStat.(exit := true));
    assert Recorded(t) by { Unrecorded(s, t); }
    if progress == Some(0) {
      Asked(t, TdrStatReply(progress));
    } else {
      var stat := if progress.None? then s.stat else if progress.value < 0 then OrchTdrFail else OrchTdrSucc;
      ReplyDecides(progress);
      Noted(if progress.None? then s else t, TdrStatReply(progress), stat);
      if progress.Some? { Settled(Log(t, TdrStatReply(progress)).(stat := stat)); }
    }
  }

  lemma ReplyDecides(progress: Option<int>)
    ensures var e := TdrStatReply(progress);
      if progress.None? then !Decides(e)
      else
        && Decides(e)
        && Decided(e) ==
           (if progress.value > 0 then OrchTdrSucc else if progress.value < 0 then OrchTdrFail else OrchTdrRun)
  {
  }

  lemma Settled(s: State)
    requires s.stat == OrchTdrFail || s.stat == OrchTdrSucc
    ensures Act(s) == s
  {
  }

  /** Nothing else changes what is said here. */
  lemma Unrecorded(s: State, t: State)
    requires Recorded(s) && t.stat == s.stat && t.tdrStat.running == s.tdrStat.running && t.history == s.history
    ensures Recorded(t)
  {
  }

  lemma GoRecorded(s: State)
    requires Recorded(s) && s.hmiWaiting > 0
    ensures Recorded(HmiGo(s))
  {
    hide Recorded, Decides, Decided;
    DecidedStarts();
    Noted(s, TdrRunStarted, OrchPkgReady);
    Unrecorded(Log(s, TdrRunStarted).(stat := OrchPkgReady), HmiGo(s));
  }

  lemma DecidedStarts()
    ensures Decides(TdrRunStarted) && Decided(TdrRunStarted) == OrchPkgReady
  {
  }

  lemma EndRecorded(s: State, closing: bool)
    requires Recorded(s) && s.tdrStat.running > 0
    ensures Recorded(Log(s.(tdrStat := Ended(s.tdrStat, closing)), TdrStatEnded))
  {
    hide StatusOf, Asking, Answered;
    Snoc(s.history, TdrStatEnded);
    AnsweredSnoc(s.history, TdrStatEnded);
  }

  lemma ReportRecorded(s: State, l: Label)
    requires Recorded(s) && Enabled(s, l)
    requires l.LManifest? ==> l.device != NoDevice
    requires !l.LHmiGo? && !l.LTdrRunConnect? && !l.LTdrStatAnswer? && !l.LTdrStatEnd?
    ensures Recorded(Next(s, l))
  {
    hide StatusOf, Asking, Answered, Recorded, PkgNewConnect, PkgNewAnswer, PkgStatConnect, PkgStatAnswer,
      TdrStatConnect;
    var t := Next(s, l);
    match l
    case LManifest(device) => Report(s, Accepted(device), t);
    case LDownloadEnd(ok) => if ok { Report(s, DownloadOk, t); } else { Unrecorded(s, t); }
    case LUploadEnd => Report(s, UploadFinished, t);
    case LHmiCheck => if s.stat == OrchPkgReady { Report(s, HmiStart, t); }
    case LPayload => Report(s, TdrRunPayload(s.device), t);
    case LPkgNewConnect => ReplyRecorded(s, l);
    case LPkgNewAnswer => ReplyRecorded(s, l);
    case LPkgStatConnect(ok) => ReplyRecorded(s, l);
    case LPkgStatAnswer(succ) => ReplyRecorded(s, l);
    case LTdrStatConnect(ok) => ReplyRecorded(s, l);
    case _ => Unrecorded(s, t);
  }

  lemma ReplyRecorded(s: State, l: Label)
    requires Recorded(s) && Enabled(s, l)
    requires l.LPkgNewConnect? || l.LPkgNewAnswer? || l.LPkgStatConnect? || l.LPkgStatAnswer? || l.LTdrStatConnect?
    ensures Recorded(Next(s, l))
  {
    hide StatusOf, Asking, Answered, Recorded, Act;
    var t := Next(s, l);
    match l
    case LPkgNewConnect => Report(s, PkgNewConnected, t);
    case LPkgNewAnswer => Report(s, PkgNewReply(s.device), t);
    case LPkgStatConnect(ok) => Report(s, PkgStatConnected(ok), t);
    case LPkgStatAnswer(succ) => Report(s, PkgStatReply(succ), t);
    case LTdrStatConnect(ok) => Report(s, TdrStatConnected(ok), t);
  }

  lemma Report(s: State, e: Event, t: State)
    requires Recorded(s) && e != TdrStatStarted && e != TdrStatEnded
    requires e != TdrRunConnected && e != TdrStatReply(Some(0)) && e != BadManifest
    requires t.stat == if Decides(e) then Decided(e) else s.stat
    requires t.tdrStat.running == s.tdrStat.running && t.history == s.history + [e]
    ensures Recorded(t)
  {
    hide Recorded, Decides, Decided;
    Noted(s, e, t.stat);
    Unrecorded(Log(s, e).(stat := t.stat), t);
  }

  lemma StepRecorded(s: State, l: Label)
    requires Recorded(s) && Enabled(s, l) && s.stat != DlcPkgNew
    ensures Recorded(Next(s, l))
  {
    hide Recorded, Act;
    match l
    case LHmiGo => GoRecorded(s);
    case LTdrRunConnect =>
      Unrecorded(s, s.(tdrRun := s.tdrRun.(connected := true)));
      Asked(s.(tdrRun := s.tdrRun.(connected := true)), TdrRunConnected);
    case LTdrStatAnswer(p) => TdrStatRecorded(s, p);
    case LTdrStatEnd(closing) => EndRecorded(s, closing);
    case LManifest(NoDevice) => BadManifestRecorded(s);
    case _ => ReportRecorded(s, l);
  }

  /** In every run the status is what the last event that speaks of it decides, as many threads ask
      for the progress as have been started and not ended, and each was started where it should be. */
  lemma {:induction false} RunRecorded(ls: seq<Label>)
    requires Possible(ls)
    ensures
      var s := After(ls);
      s.stat == StatusOf(s.history) && s.tdrStat.running == Asking(s.history) && Answered(s.history)
    decreases |ls|
  {
    hide Next, StatusOf, Asking, Answered, Recorded, Inv;
    if ls == [] {
      Beginning();
    } else {
      var before := ls[..|ls| - 1];
      RunRecorded(before);
      RunInv(before);
      assert After(before).stat != DlcPkgNew by { NotNew(After(before)); }
      assert Recorded(After(before)) by { Gathered(After(before)); }
      StepRecorded(After(before), ls[|ls| - 1]);
      Gathered(After(ls));
    }
  }

  lemma Gathered(s: State)
    ensures Recorded(s) <==>
      s.stat == StatusOf(s.history) && s.tdrStat.running == Asking(s.history) && Answered(s.history)
  {
  }

  lemma NotNew(s: State)
    requires Inv(s)
    ensures s.stat != DlcPkgNew
  {
  }

  lemma Beginning()
    ensures Init.stat == StatusOf(Init.history) && Init.tdrStat.running == Asking(Init.history)
      && Answered(Init.history)
  {
  }

  // ---------------------------------------------------------------------------
  // The end of an upgrade

  /** The event at `i` decides, and none behind it does. */
  predicate LastSay(h: seq<Event>, i: nat) {
    i < |h| && Decides(h[i]) && forall j :: i < j < |h| ==> !Decides(h[j])
  }

  lemma {:induction false} StatusFrom(h: seq<Event>)
    ensures StatusOf(h) != Idle ==> exists i: nat :: LastSay(h, i)
    ensures forall i: nat :: LastSay(h, i) ==> StatusOf(h) == Decided(h[i])
  {
    hide Decides, Decided;
    if h != [] {
      var n := |h| - 1;
      if Decides(h[n]) {
        assert LastSay(h, n);
      } else {
        StatusFrom(h[..n]);
        forall i: nat | LastSay(h, i) ensures StatusOf(h) == Decided(h[i]) {
          assert LastSay(h[..n], i) && h[..n][i] == h[i];
        }
        if StatusOf(h) != Idle {
          var i: nat :| LastSay(h[..n], i);
          assert LastSay(h, i);
        }
      }
    }
  }

  /** A reply that says how the upgrade has ended. */
  predicate Verdict(e: Event, succeeded: bool) {
    e.TdrStatReply? && e.progress.Some? && if succeeded then e.progress.value > 0 else e.progress.value < 0
  }

  /** The status says that the upgrade has succeeded exactly when the last event that speaks of the
      status is a positive answer of "/tdr/stat", and that it has failed exactly for a negative one:
      no conclusive answer has come since. */
  lemma EndIsAnswered(ls: seq<Label>)
    requires Possible(ls)
    ensures
      var s := After(ls);
      && (s.stat == OrchTdrSucc <==> exists i: nat :: LastSay(s.history, i) && Verdict(s.history[i], true))
      && (s.stat == OrchTdrFail <==> exists i: nat :: LastSay(s.history, i) && Verdict(s.history[i], false))
  {
    hide After, Possible, StatusOf, Asking, Answered;
    RunRecorded(ls);
    var h := After(ls).history;
    StatusFrom(h);
    forall e: Event | Decides(e)
      ensures (Decided(e) == OrchTdrSucc <==> Verdict(e, true)) && (Decided(e) == OrchTdrFail <==> Verdict(e, false))
    {
      OnlyVerdicts(e);
    }
    if After(ls).stat == OrchTdrSucc || After(ls).stat == OrchTdrFail {
      var i: nat :| LastSay(h, i);
    }
  }

  lemma OnlyVerdicts(e: Event)
    requires Decides(e)
    ensures Decided(e) == OrchTdrSucc <==> Verdict(e, true)
    ensures Decided(e) == OrchTdrFail <==> Verdict(e, false)
  {
  }

  /** What an answer does, in every run: it ends the upgrade, or one more thread asks again. */
  lemma AnswerDecides(ls: seq<Label>, progress: Option<int>)
    requires Possible(ls) && After(ls).tdrStat.running > 0
    ensures
      var s, t := After(ls), After(ls + [LTdrStatAnswer(progress)]);
      && Possible(ls + [LTdrStatAnswer(progress)])
      && t.stat == (if progress.None? then s.stat else if progress.value < 0 then OrchTdrFail
                    else if progress.value > 0 then OrchTdrSucc else OrchTdrRun)
      && t.tdrStat.running == s.tdrStat.running + (if progress == Some(0) then 1 else 0)
      && t.tdrStat.exit == (s.tdrStat.exit || progress.Some?)
  {
    Extend(ls, LTdrStatAnswer(progress));
  }

  /** So does a "/tdr/run" that is connected. */
  lemma RunAsks(ls: seq<Label>)
    requires Possible(ls) && After(ls).tdrRun.running > 0
    ensures
      var s, t := After(ls), After(ls + [LTdrRunConnect]);
      && Possible(ls + [LTdrRunConnect]) && t.stat == OrchTdrRun
      && t.tdrStat.running == s.tdrStat.running + 1 && t.tdrRun.connected
  {
    Extend(ls, LTdrRunConnect);
  }
}

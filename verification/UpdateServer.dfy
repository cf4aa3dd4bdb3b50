/** The handlers of `dlc_server.c` over the global status and context they change. */
module UpdateServer {
  import opened Options
  import opened Update

  class Server {
    var stat: Status
    var device: Device
    /** Threads that have been started and not ended, and START_UPGRADE requests that wait
        for the lock. */
    var downloads: nat
    var uploads: nat
    var hmiWaiting: nat
    /** "/tdr/run" threads that have not made their payload. */
    var payloads: nat
    var pkgNew: Api
    var pkgStat: Api
    var tdrRun: Api
    var tdrStat: Api
    ghost var history: seq<Event>

    ghost function State(): State
      reads this
    {
      Update.State(stat, device, downloads, uploads, hmiWaiting, payloads, pkgNew, pkgStat, tdrRun, tdrStat, history)
    }

    /** The record supports the state: what every run keeps. */
    ghost predicate Valid()
      reads this
    {
      Inv(State())
    }

    /** `init_context`. */
    constructor ()
      ensures Valid() && State() == Init
    {
      stat, device := Idle, NoDevice;
      downloads, uploads, hmiWaiting, payloads := 0, 0, 0, 0;
      pkgNew, pkgStat, tdrRun, tdrStat := NoRequest, NoRequest, NoRequest, NoRequest;
      history := [];
    }

    /** `core_state_handler`; no status stands for `STAT_INVALID`. */
    method CoreStateHandler(reset: Option<Status>)
      modifies this
      ensures State() == if reset.Some? then Core(old(State()), reset.value) else Act(old(State()))
    {
      if reset.Some? {
        stat := reset.value;
      }
      match stat {
        case DlcPkgNew =>
          downloads := downloads + 1;
          stat := DlcPkgDownloading;
        case DlcPkgReady =>
          pkgNew := pkgNew.(running := pkgNew.running + 1);
        case OrchPkgDownloading =>
          if !pkgStat.connected {
            pkgStat := pkgStat.(running := pkgStat.running + 1);
            history := history + [PkgStatStarted];
          }
        case OrchPkgReady =>
          tdrRun := tdrRun.(running := tdrRun.running + 1);
          payloads := payloads + 1;
          history := history + [TdrRunStarted];
        case OrchTdrRun =>
          tdrStat := tdrStat.(running := tdrStat.running + 1);
          history := history + [TdrStatStarted];
        case _ =>
      }
    }

    /** A manifest: `dmc_msg_parse` names its device, or none. */
    method DmcManifest(parsed: Device)
      requires Valid()
      modifies this
      ensures Valid() && State() == Manifest(old(State()), parsed)
    {
      hide Inv;
      ManifestInv(State(), parsed);
      if parsed == NoDevice {
        history := history + [BadManifest];
        CoreStateHandler(None);
      } else {
        device := parsed;
        history := history + [Accepted(parsed)];
        CoreStateHandler(Some(DlcPkgNew));
      }
    }

    /** The end of `dmc_downloader_thread`. */
    method DownloadEnds(ok: bool)
      requires Valid() && downloads > 0
      modifies this
      ensures Valid() && State() == DownloadEnd(old(State()), ok)
    {
      hide Inv;
      DownloadEndInv(State(), ok);
      downloads := downloads - 1;
      if ok {
        history := history + [DownloadOk];
        CoreStateHandler(Some(DlcPkgReady));
      }
    }

    /** The end of `cgw_pkg_upload_thread`. */
    method UploadEnds()
      requires Valid() && uploads > 0
      modifies this
      ensures Valid() && State() == UploadEnd(old(State()))
    {
      hide Inv;
      UploadEndInv(State());
      uploads := uploads - 1;
      history := history + [UploadFinished];
      stat := OrchPkgReady;
    }

    /** START_UPGRADE in `hmi_payload_parser`, up to where it waits for the lock. */
    method StartUpgrade() returns (waits: bool)
      requires Valid()
      modifies this
      ensures Valid() && State() == HmiCheck(old(State())) && waits == (old(stat) == OrchPkgReady)
    {
      hide Inv;
      HmiCheckInv(State());
      waits := stat == OrchPkgReady;
      if waits {
        hmiWaiting := hmiWaiting + 1;
        history := history + [HmiStart];
      }
    }

    method GoAhead()
      requires Valid() && hmiWaiting > 0
      modifies this
      ensures Valid() && State() == HmiGo(old(State()))
    {
      hide Inv;
      HmiGoInv(State());
      hmiWaiting := hmiWaiting - 1;
      CoreStateHandler(Some(OrchPkgReady));
    }

    /** `cgw_handler_pkg_new`. */
    method PkgNewEvent(e: ConnectionEvent)
      requires Valid() && pkgNew.running > 0
      modifies this
      ensures Valid()
      ensures State() == match e
        case Connect(_) => PkgNewConnect(old(State()))
        case Reply => PkgNewAnswer(old(State()))
        case Close => old(State()).(pkgNew := Closed(old(pkgNew)))
    {
      hide Inv, Ordered;
      match e {
        case Connect(_) =>
          StepInv(State(), LPkgNewConnect);
          pkgNew := pkgNew.(connected := true);
          stat := OrchPkgDownloading;
          history := history + [PkgNewConnected];
        case Reply =>
          PkgNewAnswerInv(State());
          history := history + [PkgNewReply(device)];
          if device != WPC {
            stat := OrchTdrRun;
          } else {
            stat := OrchPkgDownloading;
            uploads := uploads + 1;
          }
          pkgNew := pkgNew.(exit := true);
        case Close =>
          StepInv(State(), LPkgNewClose);
          pkgNew := pkgNew.(connected := false);
          if !pkgNew.exit {
            pkgNew := pkgNew.(exit := true);
          }
      }
    }

    /** `cgw_handler_pkg_stat`. */
    method PkgStatEvent(e: ConnectionEvent, succ: bool)
      requires Valid() && pkgStat.running > 0
      modifies this
      ensures Valid()
      ensures State() == match e
        case Connect(ok) => PkgStatConnect(old(State()), ok)
        case Reply => PkgStatAnswer(old(State()), succ)
        case Close => old(State()).(pkgStat := Closed(old(pkgStat)))
    {
      hide Inv;
      match e {
        case Connect(ok) =>
          StepInv(State(), LPkgStatConnect(ok));
          history := history + [PkgStatConnected(ok)];
          if !ok {
            stat := OrchPkgBad;
            pkgStat := pkgStat.(exit := true);
          } else {
            pkgStat := pkgStat.(connected := true);
            stat := OrchPkgDownloading;
          }
        case Reply =>
          StepInv(State(), LPkgStatAnswer(succ));
          history := history + [PkgStatReply(succ)];
          if succ {
            pkgStat := pkgStat.(exit := true);
          } else {
            stat := OrchPkgDownloading;
          }
        case Close =>
          StepInv(State(), LPkgStatClose);
          pkgStat := pkgStat.(connected := false);
          if !pkgStat.exit {
            pkgStat := pkgStat.(exit := true);
          }
      }
    }

    /** `cgw_msg_thread` of a "/tdr/run" request: it makes the payload before it waits for the lock. */
    method ThreadStarts() returns (named: Device)
      requires Valid() && payloads > 0
      modifies this
      ensures Valid() && State() == Update.MakePayload(old(State())) && named == device
    {
      hide Inv;
      PayloadInv(State());
      payloads := payloads - 1;
      named := device;
      history := history + [TdrRunPayload(named)];
    }

    /** `cgw_handler_tdr_run`. */
    method TdrRunEvent(e: ConnectionEvent)
      requires Valid() && tdrRun.running > 0
      modifies this
      ensures Valid()
      ensures State() == match e
        case Connect(_) => TdrRunConnect(old(State()))
        case Reply => old(State())
        case Close => old(State()).(tdrRun := Closed(old(tdrRun)))
    {
      hide Inv;
      match e {
        case Connect(_) =>
          StepInv(State(), LTdrRunConnect);
          tdrRun := tdrRun.(connected := true);
          history := history + [TdrRunConnected];
          CoreStateHandler(Some(OrchTdrRun));
        case Reply =>
        case Close =>
          StepInv(State(), LTdrRunClose);
          tdrRun := tdrRun.(connected := false);
          if !tdrRun.exit {
            tdrRun := tdrRun.(exit := true);
          }
      }
    }

    /** `cgw_handler_tdr_stat`; the progress is what `hmi_resp_upgrade_stat_update` makes of the member
        "result", if the reply has one. */
    method TdrStatEvent(e: ConnectionEvent, progress: Option<int>)
      requires Valid() && tdrStat.running > 0
      modifies this
      ensures Valid()
      ensures State() == match e
        case Connect(ok) => TdrStatConnect(old(State()), ok)
        case Reply => TdrStatAnswer(old(State()), progress)
        case Close => old(State()).(tdrStat := Closed(old(tdrStat)))
    {
      hide Inv;
      match e {
        case Connect(ok) =>
          StepInv(State(), LTdrStatConnect(ok));
          history := history + [TdrStatConnected(ok)];
          tdrStat := tdrStat.(connected := true);
          if !ok {
            stat := OrchConErr;
            tdrStat := tdrStat.(exit := true);
          } else {
            stat := OrchTdrRun;
          }
        case Reply =>
          TdrStatAnswerInv(State(), progress);
          history := history + [TdrStatReply(progress)];
          if progress.None? {
            return;
          }
          tdrStat := tdrStat.(exit := true);
          if progress.value < 0 {
            CoreStateHandler(Some(OrchTdrFail));
          } else if progress.value == 0 {
            CoreStateHandler(Some(OrchTdrRun));
          } else {
            CoreStateHandler(Some(OrchTdrSucc));
          }
        case Close =>
          StepInv(State(), LTdrStatClose);
          tdrStat := tdrStat.(connected := false);
          if !tdrStat.exit {
            tdrStat := tdrStat.(exit := true);
          }
      }
    }

    ghost function Requests(r: Request): Api
      reads this
    {
      match r
      case PkgNewRequest => pkgNew
      case PkgStatRequest => pkgStat
      case TdrRunRequest => tdrRun
      case TdrStatRequest => tdrStat
    }

    /** The end of `cgw_msg_thread`; freeing its connections may close one more. */
    method RequestEnds(r: Request, closing: bool)
      requires Valid() && Requests(r).running > 0 && Requests(r).exit
      modifies this
      ensures Valid()
      ensures State() == match r
        case PkgNewRequest => old(State()).(pkgNew := Ended(old(pkgNew), closing))
        case PkgStatRequest => old(State()).(pkgStat := Ended(old(pkgStat), closing))
        case TdrRunRequest => old(State()).(tdrRun := Ended(old(tdrRun), closing))
        case TdrStatRequest => Log(old(State()).(tdrStat := Ended(old(tdrStat), closing)), TdrStatEnded)
    {
      hide Inv;
      match r {
        case PkgNewRequest =>
          StepInv(State(), LPkgNewEnd(closing));
          pkgNew := Api(pkgNew.running - 1, closing, pkgNew.connected && !closing);
        case PkgStatRequest =>
          StepInv(State(), LPkgStatEnd(closing));
          pkgStat := Api(pkgStat.running - 1, closing, pkgStat.connected && !closing);
        case TdrRunRequest =>
          StepInv(State(), LTdrRunEnd(closing));
          tdrRun := Api(tdrRun.running - 1, closing, tdrRun.connected && !closing);
        case TdrStatRequest =>
          StepInv(State(), LTdrStatEnd(closing));
          tdrStat := Api(tdrStat.running - 1, closing, tdrStat.connected && !closing);
          history := history + [TdrStatEnded];
      }
    }
  }

  /** What a connection tells its handler; connecting may have failed. */
  datatype ConnectionEvent = Connect(ok: bool) | Reply | Close

  datatype Request = PkgNewRequest | PkgStatRequest | TdrRunRequest | TdrStatRequest
}

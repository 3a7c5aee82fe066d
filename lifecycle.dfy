/** One run of the QR viewer (main.go, runApplication and its helpers): the
    single artifact file output_qr_code.png, the debug log, and the order in
    which the run touches the outside world. The registry, the QR encoder, the
    operating system's file removal and the Qt event loop are external: their
    answers for one run are collected in an Environment value. The event loop's
    answer is only whether it returns: the value Exec returns is ignored. */
module Lifecycle {
  import opened WindowGeometry
  import Countdown

  /** The stage at which a run can die through log.Fatal. */
  datatype Stage = DeletingLeftover | ReadingDeviceId | GeneratingQrCode

  /** How a run ends: normally after cleanup, through log.Fatal at a stage, or
      with the process ended from outside while the event loop runs. */
  datatype Outcome = Completed | Fatal(stage: Stage) | EndedInEventLoop

  /** The lines a run writes to the debug log. */
  datatype LogEntry = FileDeleted | QrGenerated | CleanupComplete | FatalError(stage: Stage)

  /** The text of each log line, without the date-time prefix the standard
      logger writes first; a fatal line is followed by the error's own text. A
      fatal line ends in ':' (the error comes next), every other line in '.'. */
  function LogText(e: LogEntry): (t: string)
    ensures |t| > 0
    ensures e.FatalError? <==> t[|t| - 1] == ':'
    ensures !e.FatalError? <==> t[|t| - 1] == '.'
  {
    match e
    case FileDeleted => "QR code file deleted."
    case QrGenerated => "QR code generated."
    case CleanupComplete => "Application cleanup complete."
    case FatalError(DeletingLeftover) => "Error deleting existing QR code file:"
    case FatalError(ReadingDeviceId) => "Error reading device ID from registry:"
    case FatalError(GeneratingQrCode) => "Error generating QR code:"
  }

  /** Different entries give different lines, so the log can be read back. */
  lemma LogTextDistinct(a: LogEntry, b: LogEntry)
    ensures LogText(a) == LogText(b) <==> a == b
  {
  }

  /** The steps of a run that reach outside the program, in order. */
  datatype Action =
    | Remove(removed: bool)   // os.Remove of the artifact, and whether it went away
    | ReadRegistry            // the device ID read
    | Encode(deviceId: string) // the QR encoder writing the artifact
    | ShowWindow(rect: Rect)  // the viewer window placed and shown
    | StartCountdown(duration: int) // the countdown goroutine started
    | RunEventLoop            // the blocking Qt event loop, until it returns

  /** The registry's answer: the device ID, or an error. */
  datatype RegistryRead = DeviceId(id: string) | RegistryError

  /** The encoder's answer: the artifact written, or an error that may have left
      a partly written file behind. */
  datatype EncodeResult = Encoded | EncodeFailed(partialFileLeft: bool)

  /** The outside world's answers for one run. */
  datatype Environment = Environment(
    leftoverRemovable: bool,  // whether os.Remove can delete a leftover artifact
    registry: RegistryRead,
    encoder: EncodeResult,
    screenCenter: Point,      // centre of the primary screen
    eventLoopReturns: bool,   // whether Exec returns, or the process is ended inside it
    cleanupRemovable: bool)   // whether os.Remove can delete the artifact at cleanup

  /** What one run does: its outcome, the actions and log lines it adds, and
      whether the artifact is on disk when the process ends. */
  datatype RunResult = RunResult(outcome: Outcome, actions: seq<Action>, log: seq<LogEntry>, artifactPresent: bool)

  /** How the process ends: with a status of its own, or ended from outside. */
  datatype ExitStatus = ExitedWith(code: int) | EndedFromOutside

  /** Process exit status: log.Fatal exits with 1, a return from main with 0; a
      process ended inside the event loop has no status of its own. */
  function ExitCode(o: Outcome): (status: ExitStatus)
    ensures status.EndedFromOutside? <==> o.EndedInEventLoop?
    ensures status == ExitedWith(0) <==> o.Completed?
    ensures status == ExitedWith(1) <==> o.Fatal?
  {
    match o
    case Completed => ExitedWith(0)
    case Fatal(_) => ExitedWith(1)
    case EndedInEventLoop => EndedFromOutside
  }

  /** The specification of one run, starting with or without a leftover artifact. */
  function Run(leftover: bool, env: Environment): (r: RunResult)
    ensures |r.actions| > 0 && |r.log| > 0
    ensures r.outcome.Completed? <==> r.log[|r.log| - 1] == CleanupComplete
  {
    if leftover && !env.leftoverRemovable then
      RunResult(Fatal(DeletingLeftover), [Remove(false)], [FatalError(DeletingLeftover)], true)
    else
      var pre := if leftover then [Remove(true)] else [];
      var preLog := if leftover then [FileDeleted] else [];
      match env.registry
      case RegistryError =>
        RunResult(Fatal(ReadingDeviceId), pre + [ReadRegistry], preLog + [FatalError(ReadingDeviceId)], false)
      case DeviceId(id) =>
        match env.encoder
        case EncodeFailed(partial) =>
          RunResult(Fatal(GeneratingQrCode), pre + [ReadRegistry, Encode(id)],
                    preLog + [FatalError(GeneratingQrCode)], partial)
        case Encoded =>
          var t := ShowAndRun(env);
          RunResult(t.outcome, pre + [ReadRegistry, Encode(id)] + t.actions, preLog + [QrGenerated] + t.log,
                    t.artifactPresent)
  }

  /** The rest of a run once the artifact is written: the centred window, the
      countdown's start and the event loop; then, if the event loop returns, the
      best-effort cleanup. The run never dies here, and it completes exactly when
      the cleanup line is logged. */
  function ShowAndRun(env: Environment): (r: RunResult)
    ensures !r.outcome.Fatal?
    ensures r.outcome.Completed? <==> |r.log| > 0 && r.log[|r.log| - 1] == CleanupComplete
  {
    var shown := [ShowWindow(CenteredRect(env.screenCenter)), StartCountdown(Countdown.SleepDuration), RunEventLoop];
    if !env.eventLoopReturns then
      RunResult(EndedInEventLoop, shown, [], true)
    else
      var removed := env.cleanupRemovable;
      RunResult(Completed, shown + [Remove(removed)], (if removed then [FileDeleted] else []) + [CleanupComplete],
                !removed)
  }

  lemma AppendAssoc<T>(a: seq<T>, b: seq<T>, c: seq<T>)
    ensures a + b + c == a + (b + c)
  {
  }

  /** The process's view of the file system and of its log. */
  class Application {
    var artifactPresent: bool
    var log: seq<LogEntry>
    var actions: seq<Action>

    /** A fresh process, possibly finding an artifact left by an earlier run. */
    constructor (leftover: bool)
      ensures artifactPresent == leftover && log == [] && actions == []
    {
      artifactPresent := leftover;
      log := [];
      actions := [];
    }

    /** Whether the artifact is on disk (os.Stat succeeds). */
    function FileExists(): (present: bool)
      reads this
    {
      artifactPresent
    }

    /** os.Remove of the artifact: it fails when there is no file or when the
        operating system refuses; only a successful removal is logged. */
    method DeleteQRCodeFile(removable: bool) returns (ok: bool)
      modifies this
      ensures ok <==> old(artifactPresent) && removable
      ensures artifactPresent == (old(artifactPresent) && !ok)
      ensures actions == old(actions) + [Remove(ok)]
      ensures log == old(log) + (if ok then [FileDeleted] else [])
    {
      ok := artifactPresent && removable;
      actions := actions + [Remove(ok)];
      if !ok {
        return;
      }
      artifactPresent := false;
      log := log + [FileDeleted];
    }

    /** Best-effort removal at the end of a run: a failed removal is ignored and
        the completion line is always logged, last. */
    method Cleanup(removable: bool)
      modifies this
      ensures artifactPresent == (old(artifactPresent) && !removable)
      ensures actions == old(actions) + [Remove(old(artifactPresent) && removable)]
      ensures log == old(log) + (if old(artifactPresent) && removable then [FileDeleted] else []) + [CleanupComplete]
    {
      var _ := DeleteQRCodeFile(removable);
      log := log + [CleanupComplete];
    }

    /** The encoder writing the artifact for a device ID. */
    method GenerateQRCode(deviceId: string, encoder: EncodeResult) returns (ok: bool)
      modifies this
      ensures ok <==> encoder.Encoded?
      ensures artifactPresent == match encoder
        case Encoded => true
        case EncodeFailed(partial) => old(artifactPresent) || partial
      ensures actions == old(actions) + [Encode(deviceId)]
      ensures log == old(log)
    {
      actions := actions + [Encode(deviceId)];
      match encoder
      case Encoded =>
        artifactPresent := true;
        ok := true;
      case EncodeFailed(partial) =>
        artifactPresent := artifactPresent || partial;
        ok := false;
    }

    /** The whole run: remove a leftover artifact (fatal on failure), read the
        device ID (fatal on failure), encode it (fatal on failure), show the
        centred window, run the event loop, then clean up. */
    method RunApplication(env: Environment) returns (outcome: Outcome)
      modifies this
      ensures var r := Run(old(artifactPresent), env);
        outcome == r.outcome && actions == old(actions) + r.actions &&
        log == old(log) + r.log && artifactPresent == r.artifactPresent
    {
      ghost var leftover, actions0, log0 := artifactPresent, actions, log;
      ghost var r := Run(leftover, env);
      if FileExists() {
        var ok := DeleteQRCodeFile(env.leftoverRemovable);
        if !ok {
          log := log + [FatalError(DeletingLeftover)];
          assert r.actions == [Remove(false)] && r.log == [FatalError(DeletingLeftover)];
          return Fatal(DeletingLeftover);
        }
      }
      ghost var pre: seq<Action> := if leftover then [Remove(true)] else [];
      ghost var preLog: seq<LogEntry> := if leftover then [FileDeleted] else [];
      assert actions == actions0 + pre && log == log0 + preLog && !artifactPresent;
      actions := actions + [ReadRegistry];
      AppendAssoc(actions0, pre, [ReadRegistry]);
      if env.registry.RegistryError? {
        log := log + [FatalError(ReadingDeviceId)];
        AppendAssoc(log0, preLog, [FatalError(ReadingDeviceId)]);
        assert r.actions == pre + [ReadRegistry] && r.log == preLog + [FatalError(ReadingDeviceId)];
        return Fatal(ReadingDeviceId);
      }
      var ok := GenerateQRCode(env.registry.id, env.encoder);
      ghost var generated := pre + [ReadRegistry, Encode(env.registry.id)];
      AppendAssoc(actions0, pre + [ReadRegistry], [Encode(env.registry.id)]);
      assert pre + [ReadRegistry] + [Encode(env.registry.id)] == generated;
      if !ok {
        log := log + [FatalError(GeneratingQrCode)];
        AppendAssoc(log0, preLog, [FatalError(GeneratingQrCode)]);
        assert r.actions == pre + [ReadRegistry, Encode(env.registry.id)] &&
               r.log == preLog + [FatalError(GeneratingQrCode)];
        return Fatal(GeneratingQrCode);
      }
      log := log + [QrGenerated];
      AppendAssoc(log0, preLog, [QrGenerated]);
      outcome := ShowAndRunEventLoop(env);
      ghost var t := ShowAndRun(env);
      AppendAssoc(actions0, generated, t.actions);
      AppendAssoc(log0, preLog + [QrGenerated], t.log);
      assert r.actions == generated + t.actions && r.log == preLog + [QrGenerated] + t.log;
    }

    /** The tail of a run once the artifact is written: show the centred window,
        start the countdown, run the event loop and, if it returns, clean up. */
    method ShowAndRunEventLoop(env: Environment) returns (outcome: Outcome)
      modifies this
      requires artifactPresent
      ensures var t := ShowAndRun(env);
        outcome == t.outcome && actions == old(actions) + t.actions &&
        log == old(log) + t.log && artifactPresent == t.artifactPresent
    {
      actions := actions + [ShowWindow(CenteredRect(env.screenCenter))];
      actions := actions + [StartCountdown(Countdown.SleepDuration)];
      actions := actions + [RunEventLoop];
      if !env.eventLoopReturns {
        return EndedInEventLoop;
      }
      Cleanup(env.cleanupRemovable);
      outcome := Completed;
    }
  }

  predicate ShowsWindow(actions: seq<Action>) {
    exists i :: 0 <= i < |actions| && actions[i].ShowWindow?
  }

  predicate Encodes(actions: seq<Action>) {
    exists i :: 0 <= i < |actions| && actions[i].Encode?
  }

  /** Each fatal outcome has exactly one cause. Once none of the leftover
      removal, the registry read or the encoder failed, the run completes
      exactly when the event loop returns. */
  lemma FatalCauses(leftover: bool, env: Environment)
    ensures var o := Run(leftover, env).outcome;
      (o == Fatal(DeletingLeftover) <==> leftover && !env.leftoverRemovable) &&
      (o == Fatal(ReadingDeviceId) <==> (!leftover || env.leftoverRemovable) && env.registry.RegistryError?) &&
      (o == Fatal(GeneratingQrCode) <==>
         (!leftover || env.leftoverRemovable) && env.registry.DeviceId? && env.encoder.EncodeFailed?) &&
      (o == EndedInEventLoop <==>
         (!leftover || env.leftoverRemovable) && env.registry.DeviceId? && env.encoder.Encoded? &&
         !env.eventLoopReturns) &&
      (o == Completed <==>
         (!leftover || env.leftoverRemovable) && env.registry.DeviceId? && env.encoder.Encoded? &&
         env.eventLoopReturns)
  {
  }

  /** A fatal run never shows a window and exits with 1; a completed run shows
      the window and exits with 0; a process ended inside the event loop has no
      status of its own and never logs the cleanup line. */
  lemma AbortsBeforeWindow(leftover: bool, env: Environment)
    ensures var r := Run(leftover, env);
      (r.outcome.Fatal? <==> !ShowsWindow(r.actions)) &&
      (r.outcome.Fatal? ==>
         ExitCode(r.outcome) == ExitedWith(1) && RunEventLoop !in r.actions && CleanupComplete !in r.log) &&
      (r.outcome.Completed? ==> ExitCode(r.outcome) == ExitedWith(0)) &&
      (r.outcome.EndedInEventLoop? ==> ExitCode(r.outcome) == EndedFromOutside && CleanupComplete !in r.log)
  {
    var r := Run(leftover, env);
    var n := |r.actions|;
    if r.outcome.Completed? {
      assert r.actions[n - 4].ShowWindow?;
    } else if r.outcome.EndedInEventLoop? {
      assert r.actions[n - 3].ShowWindow?;
    }
  }

  /** The window is shown at most once, centred on the screen; the 30-second
      countdown starts right after it, and the event loop right after that. */
  lemma WindowShownOnce(leftover: bool, env: Environment)
    ensures var r := Run(leftover, env);
      (forall i :: 0 <= i < |r.actions| && r.actions[i].ShowWindow? ==>
         r.actions[i] == ShowWindow(CenteredRect(env.screenCenter)) &&
         i + 2 < |r.actions| && r.actions[i + 1] == StartCountdown(Countdown.SleepDuration) &&
         r.actions[i + 2] == RunEventLoop) &&
      (forall i, j ::
         0 <= i < |r.actions| && 0 <= j < |r.actions| && r.actions[i].ShowWindow? && r.actions[j].ShowWindow?
         ==> i == j)
  {
    var r := Run(leftover, env);
    var n := |r.actions|;
    if r.outcome.Fatal? {
      assert forall i :: 0 <= i < n ==> !r.actions[i].ShowWindow?;
    } else {
      var pre: seq<Action> := if leftover then [Remove(true)] else [];
      var t := ShowAndRun(env);
      assert r.actions == pre + [ReadRegistry, Encode(env.registry.id)] + t.actions;
      var k := |pre| + 2;
      assert r.actions[k] == ShowWindow(CenteredRect(env.screenCenter));
      assert r.actions[k + 1] == StartCountdown(Countdown.SleepDuration) && r.actions[k + 2] == RunEventLoop;
      assert forall i :: 0 <= i < n && r.actions[i].ShowWindow? ==> i == k;
    }
  }

  /** The encoder is only ever given the ID the registry returned, so a failed
      registry read means the encoder is never invoked; a leftover artifact has
      been removed, as the run's first action, before any encoding. */
  lemma StartupOrdering(leftover: bool, env: Environment)
    ensures var r := Run(leftover, env);
      (forall i :: 0 <= i < |r.actions| && r.actions[i].Encode? ==>
         env.registry == DeviceId(r.actions[i].deviceId) &&
         i > 0 && r.actions[i - 1] == ReadRegistry &&
         (leftover ==> i > 1 && r.actions[0] == Remove(true))) &&
      (env.registry.RegistryError? ==> !Encodes(r.actions)) &&
      (leftover ==> |r.actions| > 0 && r.actions[0].Remove?)
  {
    var r := Run(leftover, env);
    var pre: seq<Action> := if leftover then [Remove(true)] else [];
    if !(leftover && !env.leftoverRemovable) && env.registry.DeviceId? {
      var k := |pre| + 1;
      assert r.actions[..k + 1] == pre + [ReadRegistry, Encode(env.registry.id)];
      assert forall i :: 0 <= i < |r.actions| && r.actions[i].Encode? ==> i == k;
    }
  }

  /** Cleanup happens only on a completed run, right after the event loop has
      returned: the last action is the removal, the last log line is the
      completion line, and "QR code file deleted." precedes it exactly when that
      removal succeeded. A run that enters the event loop completes exactly when
      the loop returns; otherwise the event loop is its last action. */
  lemma CleanupAfterEventLoop(leftover: bool, env: Environment)
    ensures var r := Run(leftover, env);
      (r.outcome.Completed? <==> |r.log| > 0 && r.log[|r.log| - 1] == CleanupComplete) &&
      (r.outcome.Completed? ==>
         |r.actions| >= 2 && r.actions[|r.actions| - 2] == RunEventLoop &&
         r.actions[|r.actions| - 1] == Remove(env.cleanupRemovable) &&
         (|r.log| >= 2 && r.log[|r.log| - 2] == FileDeleted <==> env.cleanupRemovable) &&
         LogText(r.log[|r.log| - 1]) == "Application cleanup complete.") &&
      (RunEventLoop in r.actions ==> (r.outcome.Completed? <==> env.eventLoopReturns)) &&
      (r.outcome.EndedInEventLoop? ==>
         r.actions[|r.actions| - 1] == RunEventLoop && r.log[|r.log| - 1] == QrGenerated)
  {
  }

  /** The existence test decides the first action: a removal exactly when an
      artifact was left over; with no file, no removal is tried and the run
      starts with the registry read. */
  lemma LeftoverDecidesFirstAction(leftover: bool, env: Environment)
    ensures var r := Run(leftover, env);
      |r.actions| > 0 &&
      (r.actions[0].Remove? <==> leftover) &&
      (!leftover ==> r.actions[0] == ReadRegistry)
  {
  }

  /** Whether the artifact is left on disk when the process ends: after a
      completed run exactly when the cleanup removal failed; after a fatal run
      the leftover is kept when it could not be removed, and a partly written
      file is kept when the encoder left one (log.Fatal skips cleanup); a
      process ended inside the event loop leaves the artifact behind. */
  lemma ArtifactAtExit(leftover: bool, env: Environment)
    ensures var r := Run(leftover, env);
      (r.outcome.Completed? ==> (r.artifactPresent <==> !env.cleanupRemovable)) &&
      (r.outcome == Fatal(DeletingLeftover) ==> r.artifactPresent) &&
      (r.outcome == Fatal(ReadingDeviceId) ==> !r.artifactPresent) &&
      (r.outcome == Fatal(GeneratingQrCode) ==> (r.artifactPresent <==> env.encoder.partialFileLeft)) &&
      (r.outcome.EndedInEventLoop? ==> r.artifactPresent)
  {
  }

  /** A whole process: it starts with an empty log, possibly finding a leftover
      artifact, and makes one run. It exits with 1 exactly when no window was
      shown; it exits with 0 exactly when it has logged the completion line last. */
  method RunProcess(leftover: bool, env: Environment) returns (exit: ExitStatus, finalLog: seq<LogEntry>, artifactLeft: bool)
    ensures var r := Run(leftover, env);
      exit == ExitCode(r.outcome) && finalLog == r.log && artifactLeft == r.artifactPresent
    ensures exit == ExitedWith(1) <==> !ShowsWindow(Run(leftover, env).actions)
    ensures exit == ExitedWith(0) <==> finalLog[|finalLog| - 1] == CleanupComplete
  {
    var app := new Application(leftover);
    var outcome := app.RunApplication(env);
    AbortsBeforeWindow(leftover, env);
    CleanupAfterEventLoop(leftover, env);
    exit, finalLog, artifactLeft := ExitCode(outcome), app.log, app.artifactPresent;
  }
}

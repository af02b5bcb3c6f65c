/**
 * `DSTManager.execute`: read the installed build id, ask for the published one,
 * decide whether to run SteamCMD, and assemble the success report or the error
 * pair. `Orchestrate` is the specification of one call, given what each step
 * produced; `DSTManager` is the object whose `download_total_bytes` field the
 * retry loop updates in place.
 */
module Orchestrator {
  import opened Wrappers
  import opened Text
  import opened Errors
  import opened VersionOracle
  import opened Pattern
  import opened Installer

  /** Why `execute` runs the updater. */
  datatype Reason = Forced | RemoteUnknown | VersionMismatch

  datatype Decision = NoUpdate | Update(reason: Reason)

  /** The `should_update` chain: `--force` first, then an unknown published build,
      then a different one. */
  function Decide(force: bool, oldVersion: string, remote: Option<string>): (d: Decision)
    ensures d.NoUpdate? <==> !force && remote == Some(oldVersion)
    ensures d == Update(Forced) <==> force
    ensures d == Update(RemoteUnknown) <==> !force && remote.None?
  {
    if force then Update(Forced)
    else if remote.None? then Update(RemoteUnknown)
    else if oldVersion != remote.value then Update(VersionMismatch)
    else NoUpdate
  }

  /** The `state` field of the report. */
  datatype InstallState = UpToDate | FreshInstalled | Updated

  /** `remote_ver or "unknown"`: Python's `or` also replaces an empty string. */
  function RemoteLabel(remote: Option<string>): (shown: string)
    ensures remote.Some? && remote.value != "" ==> shown == remote.value
    ensures remote.None? ==> shown == "unknown"
  {
    if remote.None? || remote.value == "" then "unknown" else remote.value
  }

  datatype VersionInfo = VersionInfo(oldVersion: string, newVersion: string, remoteVersion: string)

  /** The parts of the success dictionary this model keeps: `state`, `version_info` and
      `download_info.total_bytes`. */
  datatype Report = Report(state: InstallState, versions: VersionInfo, totalBytes: nat)

  /** What `execute` returns, or the `{code, message}` of the `RuntimeError` it raises. */
  datatype Outcome = Success(report: Report) | Error(error: ErrorInfo)

  /** The updater runs: nothing failed while preparing SteamCMD and the decision is to update. */
  predicate UpdateRuns(force: bool, prepare: Option<Failure>, before: Manifest, remoteStdout: Option<string>)
  {
    prepare.None? && Decide(force, LocalVersion(before), RemoteVersion(remoteStdout)).Update?
  }

  /** One call of `execute`, given what each step produced: the failure of
      `prepare_steamcmd` (if any), the manifest before and after the update, the output of
      the `app_info_print` query (`None` when it raised), the failure of creating the game
      directory (if any), the outcome of each launch the retry loop may make, and
      `download_total_bytes` on entry. */
  function Orchestrate(force: bool, prepare: Option<Failure>, before: Manifest, remoteStdout: Option<string>,
                       dirFailure: Option<Failure>, attempts: seq<Attempt>, after: Manifest, start: nat): Outcome
    requires |attempts| == MaxRetries
  {
    if prepare.Some? then Error(Normalise(prepare.value))
    else
      var oldVersion := LocalVersion(before);
      var remote := RemoteVersion(remoteStdout);
      match Decide(force, oldVersion, remote)
      case NoUpdate => Success(Report(UpToDate, VersionInfo(oldVersion, oldVersion, RemoteLabel(remote)), start))
      case Update(_) =>
        if dirFailure.Some? then Error(Normalise(dirFailure.value))
        else
          var r := Run(Judged(attempts), start);
          if !r.success then Error(Normalise(OSError(ErrSteamCmd, r.lastError)))
          else
            var state := if oldVersion == NotInstalled then FreshInstalled else Updated;
            Success(Report(state, VersionInfo(oldVersion, LocalVersion(after), RemoteLabel(remote)), r.totalBytes))
  }

  /** A build id is never shown as `"unknown"`: it is a non-empty string of digits. */
  lemma NumeralIsShown(v: string)
    requires IsNumeral(v)
    ensures RemoteLabel(Some(v)) == v && v != "unknown"
  {
    assert "unknown"[0] == 'u';
  }

  /** When the installed build id equals the published one and `--force` is off, the
      result is "up to date" with the old version reported as the new one and the byte
      total untouched; whatever the updater would have done does not matter, because it
      is never called. */
  lemma NoUpdateNeverRunsUpdater(force: bool, before: Manifest, remoteStdout: Option<string>,
                                 dirFailure: Option<Failure>, attempts: seq<Attempt>, after: Manifest,
                                 dirFailure': Option<Failure>, attempts': seq<Attempt>, after': Manifest, start: nat)
    requires |attempts| == MaxRetries && |attempts'| == MaxRetries
    requires !force && RemoteVersion(remoteStdout) == Some(LocalVersion(before))
    ensures var v := LocalVersion(before);
            Orchestrate(force, None, before, remoteStdout, dirFailure, attempts, after, start)
              == Success(Report(UpToDate, VersionInfo(v, v, v), start))
    ensures Orchestrate(force, None, before, remoteStdout, dirFailure, attempts, after, start)
              == Orchestrate(force, None, before, remoteStdout, dirFailure', attempts', after', start)
  {
    NumeralIsShown(LocalVersion(before));
  }

  /** An unknown published build always leads to an update attempt, `--force` or not. */
  lemma UnknownRemoteForcesUpdate(force: bool, before: Manifest, remoteStdout: Option<string>)
    requires RemoteVersion(remoteStdout).None?
    ensures UpdateRuns(force, None, before, remoteStdout)
    ensures !force ==> Decide(force, LocalVersion(before), RemoteVersion(remoteStdout)) == Update(RemoteUnknown)
  {
  }

  /** What a success report says: the old version is the installed build id; the remote
      version is the published one or `"unknown"`; "up to date" exactly when the updater
      did not run, and then nothing moved; otherwise the updater ran and succeeded, the
      new version is re-read afterwards, and the state is "fresh install" exactly when
      the old version read as `"0"`: no manifest, an unreadable one, or one without a
      build id. */
  lemma {:induction false} SuccessReport(force: bool, prepare: Option<Failure>, before: Manifest, remoteStdout: Option<string>,
                      dirFailure: Option<Failure>, attempts: seq<Attempt>, after: Manifest, start: nat, rep: Report)
    requires |attempts| == MaxRetries
    requires Orchestrate(force, prepare, before, remoteStdout, dirFailure, attempts, after, start) == Success(rep)
    ensures prepare.None?
    ensures rep.versions.oldVersion == LocalVersion(before)
    ensures rep.versions.remoteVersion == "unknown" <==> RemoteVersion(remoteStdout).None?
    ensures RemoteVersion(remoteStdout).Some? ==> rep.versions.remoteVersion == RemoteVersion(remoteStdout).value
    ensures rep.state == UpToDate <==> !UpdateRuns(force, prepare, before, remoteStdout)
    ensures rep.state == UpToDate ==> rep.versions.newVersion == rep.versions.oldVersion && rep.totalBytes == start
    ensures rep.state != UpToDate ==>
              && dirFailure.None?
              && Run(Judged(attempts), start).success
              && rep.versions.newVersion == LocalVersion(after)
              && rep.totalBytes == Run(Judged(attempts), start).totalBytes
    ensures rep.state == FreshInstalled <==> rep.state != UpToDate && rep.versions.oldVersion == NotInstalled
  {
    var remote := RemoteVersion(remoteStdout);
    if remote.Some? {
      NumeralIsShown(remote.value);
    }
    var updates := UpdateRuns(force, prepare, before, remoteStdout);
    if updates {
      assert Decide(force, LocalVersion(before), remote).Update?;
      assert rep.state != UpToDate;
    } else {
      assert Decide(force, LocalVersion(before), remote).NoUpdate?;
      assert rep.state == UpToDate;
    }
  }

  /** Where an error comes from: the failure of preparing SteamCMD, else (the updater
      having run) the failure of creating the game directory, else `ERR_STEAMCMD` after
      every launch failed, carrying the last launch's error text. */
  lemma ErrorOrigin(force: bool, prepare: Option<Failure>, before: Manifest, remoteStdout: Option<string>,
                    dirFailure: Option<Failure>, attempts: seq<Attempt>, after: Manifest, start: nat, e: ErrorInfo)
    requires |attempts| == MaxRetries
    requires Orchestrate(force, prepare, before, remoteStdout, dirFailure, attempts, after, start) == Error(e)
    ensures prepare.Some? ==> e == Normalise(prepare.value)
    ensures prepare.None? ==> UpdateRuns(force, prepare, before, remoteStdout)
    ensures prepare.None? && dirFailure.Some? ==> e == Normalise(dirFailure.value)
    ensures prepare.None? && dirFailure.None? ==>
              && e.code == ErrSteamCmd
              && (forall k :: 0 <= k < |attempts| ==> !Succeeded(attempts[k]))
              && e.message == Judge(attempts[|attempts| - 1]).lastError
  {
    if prepare.None? && dirFailure.None? {
      var vs := Judged(attempts);
      RunFailsIffAllFail(vs, start);
      forall k | 0 <= k < |attempts| ensures !Succeeded(attempts[k]) {
        assert vs[k] == Judge(attempts[k]);
      }
      RunLastError(vs, start);
    }
  }

  /** The error pair carries one of the six taxonomy codes whenever the failures of
      preparing SteamCMD and of creating the game directory are classified: an `OSError`
      with a taxonomy code, or any other exception (which becomes `ERR_UNKNOWN`). An
      errno passed through by `_ensure_dir` is not classified; see `ErrnoEscapesTaxonomy`. */
  lemma ErrorCodeIsClosed(force: bool, prepare: Option<Failure>, before: Manifest, remoteStdout: Option<string>,
                          dirFailure: Option<Failure>, attempts: seq<Attempt>, after: Manifest, start: nat, e: ErrorInfo)
    requires |attempts| == MaxRetries
    requires prepare.Some? ==> Classified(prepare.value)
    requires dirFailure.Some? ==> Classified(dirFailure.value)
    requires Orchestrate(force, prepare, before, remoteStdout, dirFailure, attempts, after, start) == Error(e)
    ensures IsErrorCode(e.code)
  {
    if prepare.Some? {
      NormaliseIsClosed(prepare.value);
    } else if dirFailure.Some? && UpdateRuns(force, prepare, before, remoteStdout) {
      NormaliseIsClosed(dirFailure.value);
    }
  }

  /** `_ensure_dir` lets an `os.makedirs` failure other than `PermissionError` through
      unchanged, in `prepare_steamcmd` and before the retry loop alike, and `execute`
      reports its integer errno and `strerror` text: a code outside the taxonomy. */
  lemma ErrnoEscapesTaxonomy(force: bool, before: Manifest, remoteStdout: Option<string>,
                             attempts: seq<Attempt>, after: Manifest, start: nat, number: int, strerror: string)
    requires |attempts| == MaxRetries
    ensures Orchestrate(force, Some(OSError(Errno(number), strerror)), before, remoteStdout, None, attempts, after, start)
              == Error(ErrorInfo(Errno(number), strerror))
    ensures UpdateRuns(force, None, before, remoteStdout) ==>
              Orchestrate(force, None, before, remoteStdout, Some(OSError(Errno(number), strerror)), attempts, after, start)
                == Error(ErrorInfo(Errno(number), strerror))
    ensures !IsErrorCode(Errno(number))
  {
    ErrnoIsReportedAsIs(number, strerror);
  }

  /** A marker error is caught by the retry loop itself, so once every launch has failed
      the reported code is `ERR_STEAMCMD`, not `ERR_DISK`: when every launch fails and
      its log holds `0x6` but not `0x202`, the message is the disk error's text. */
  lemma DiskMarkerReportsSteamCmd(force: bool, before: Manifest, remoteStdout: Option<string>,
                                  attempts: seq<Attempt>, after: Manifest, start: nat)
    requires UpdateRuns(force, None, before, remoteStdout)
    requires |attempts| == MaxRetries
    requires forall k :: 0 <= k < |attempts| ==>
               && attempts[k].Exited? && !Succeeded(attempts[k])
               && !Contains(FullLog(UntilEof(attempts[k].output)), NetworkMarker)
               && Contains(FullLog(UntilEof(attempts[k].output)), DiskMarker)
    ensures Orchestrate(force, None, before, remoteStdout, None, attempts, after, start)
              == Error(ErrorInfo(ErrSteamCmd, Describe(DiskFailure)))
    ensures Run(Judged(attempts), start).launches == MaxRetries
    ensures Run(Judged(attempts), start).sleeps == MaxRetries
  {
    var vs := Judged(attempts);
    forall k | 0 <= k < |vs| ensures vs[k].Failed? && vs[k].slept {
      assert vs[k] == Judge(attempts[k]);
    }
    RunLastError(vs, start);
    RunLaunches(vs, start);
    ExceptionPathAlwaysSleeps(vs, start);
    FailureText(attempts[|attempts| - 1]);
  }

  /** A SteamCMD that always exits with code 1 and prints no marker is launched exactly
      `MaxRetries` times with no sleep, and the error is `ERR_STEAMCMD` with its code. */
  lemma AlwaysExitOne(force: bool, before: Manifest, remoteStdout: Option<string>,
                      attempts: seq<Attempt>, after: Manifest, start: nat)
    requires UpdateRuns(force, None, before, remoteStdout)
    requires |attempts| == MaxRetries
    requires forall k :: 0 <= k < |attempts| ==>
               && attempts[k].Exited? && attempts[k].returnCode == 1
               && !Contains(FullLog(UntilEof(attempts[k].output)), NetworkMarker)
               && !Contains(FullLog(UntilEof(attempts[k].output)), DiskMarker)
    ensures Orchestrate(force, None, before, remoteStdout, None, attempts, after, start)
              == Error(ErrorInfo(ErrSteamCmd, "SteamCMD failed (Code " + IntToString(1) + ")"))
    ensures Run(Judged(attempts), start).launches == MaxRetries
    ensures Run(Judged(attempts), start).sleeps == 0
  {
    var vs := Judged(attempts);
    forall k | 0 <= k < |vs| ensures vs[k].Failed? && !vs[k].slept {
      assert vs[k] == Judge(attempts[k]);
    }
    RunLastError(vs, start);
    RunLaunches(vs, start);
    PlainFailuresNeverSleep(vs, start);
    FailureText(attempts[|attempts| - 1]);
  }

  /** A first install: nothing was installed, the first launch succeeds, and the report
      says "fresh install" with the build id re-read from the new manifest. */
  lemma FreshInstall(force: bool, remoteStdout: Option<string>, attempts: seq<Attempt>, after: Manifest, start: nat)
    requires RemoteVersion(remoteStdout) != Some(NotInstalled) || force
    requires |attempts| == MaxRetries && Succeeded(attempts[0])
    ensures Orchestrate(force, None, Missing, remoteStdout, None, attempts, after, start)
              == Success(Report(FreshInstalled,
                                VersionInfo(NotInstalled, LocalVersion(after), RemoteLabel(RemoteVersion(remoteStdout))),
                                Peak(start, LineTotals(UntilEof(attempts[0].output)))))
  {
    var vs := Judged(attempts);
    assert vs[0] == Judge(attempts[0]);
    assert vs[..1][..0] == [];
    RunAfterSuccess(vs, 1, start);
  }

  /** Among the first n launches, one read a line (up to end of file) whose progress
      report gives the total v. */
  ghost predicate LaunchReported(attempts: seq<Attempt>, n: nat, v: nat) {
    exists k, j :: 0 <= k < n && k < |attempts| && attempts[k].Exited?
                   && 0 <= j < |UntilEof(attempts[k].output)|
                   && LineTotals(UntilEof(attempts[k].output))[j] == Some(v)
  }

  lemma {:induction false} ReportedAgrees(attempts: seq<Attempt>, n: nat, v: nat)
    ensures LaunchReported(attempts, n, v) <==> Reported(Judged(attempts), n, v)
  {
    if LaunchReported(attempts, n, v) {
      var k, j :| 0 <= k < n && k < |attempts| && attempts[k].Exited?
                  && 0 <= j < |UntilEof(attempts[k].output)|
                  && LineTotals(UntilEof(attempts[k].output))[j] == Some(v);
      VerdictTotals(attempts, k);
    }
    if Reported(Judged(attempts), n, v) {
      var vs := Judged(attempts);
      var k, j :| 0 <= k < n && k < |vs| && 0 <= j < |vs[k].totals| && vs[k].totals[j] == Some(v);
      VerdictTotals(attempts, k);
    }
  }

  /** The totals the k-th verdict carries are those of the lines that launch read. */
  lemma VerdictTotals(attempts: seq<Attempt>, k: nat)
    requires k < |attempts|
    ensures Judged(attempts)[k].totals ==
              if attempts[k].Exited? then LineTotals(UntilEof(attempts[k].output)) else []
  {
    assert Judged(attempts)[k] == Judge(attempts[k]);
  }

  /** The byte total of a run is the largest total any launch made read from a progress
      line, or the value on entry when none read a larger one. */
  lemma {:induction false} RunTotalIsLargestReported(attempts: seq<Attempt>, start: nat)
    ensures var r := Run(Judged(attempts), start);
            && (forall v: nat :: LaunchReported(attempts, r.launches, v) ==> v <= r.totalBytes)
            && (r.totalBytes == start || LaunchReported(attempts, r.launches, r.totalBytes))
  {
    var vs := Judged(attempts);
    var r := Run(vs, start);
    forall v: nat | LaunchReported(attempts, r.launches, v) ensures v <= r.totalBytes {
      ReportedAgrees(attempts, r.launches, v);
      RunTotalIsUpperBound(vs, start, v);
    }
    RunTotalIsAttained(vs, start);
    ReportedAgrees(attempts, r.launches, r.totalBytes);
  }

  /** After a successful update, the reported byte total is the one the successful run
      reached (see `RunTotalIsLargestReported`). */
  lemma UpdatedTotal(force: bool, before: Manifest, remoteStdout: Option<string>,
                     attempts: seq<Attempt>, after: Manifest, start: nat, rep: Report)
    requires UpdateRuns(force, None, before, remoteStdout) && |attempts| == MaxRetries
    requires Orchestrate(force, None, before, remoteStdout, None, attempts, after, start) == Success(rep)
    ensures Run(Judged(attempts), start).success
    ensures rep.totalBytes == Run(Judged(attempts), start).totalBytes
  {
  }

  class DSTManager {
    /** `--force`: update even when the versions agree. */
    const force: bool
    /** The largest total byte count read from any progress line so far. */
    var downloadTotalBytes: nat
    /** How many times the retry loop has slept `RETRY_DELAY` seconds. */
    ghost var sleeps: nat
    /** How many times the retry loop has launched SteamCMD. */
    ghost var launches: nat

    constructor (force: bool)
      ensures this.force == force && downloadTotalBytes == 0 && sleeps == 0 && launches == 0
    {
      this.force := force;
      downloadTotalBytes := 0;
      sleeps := 0;
      launches := 0;
    }

    /** The `if "downloading" in line` block: a progress line whose total exceeds
        `download_total_bytes` raises it. */
    method ScanLine(line: string)
      modifies this
      ensures downloadTotalBytes == Peak(old(downloadTotalBytes), [LineTotal(line)])
      ensures sleeps == old(sleeps) && launches == old(launches)
    {
      assert [LineTotal(line)][..0] == [];
      if Contains(line, DownloadWord) {
        var found := Search(line, ProgressPattern);
        if found.Some? {
          ProgressPatternShape();
          assert found.value.m.groups[0] in found.value.m.groups;
          var total := NumeralValue(found.value.m.groups[0]);
          if total > downloadTotalBytes {
            downloadTotalBytes := total;
          }
        }
      }
    }

    /** The inner reading loop of one launch: every line up to end of file is stripped,
        kept for the log, and scanned for a byte total. Returns `full_log`. */
    method ReadOutput(output: seq<string>) returns (fullLog: string)
      modifies this
      ensures fullLog == FullLog(UntilEof(output))
      ensures downloadTotalBytes == Peak(old(downloadTotalBytes), LineTotals(UntilEof(output)))
      ensures sleeps == old(sleeps) && launches == old(launches)
    {
      var buffer: seq<string> := [];
      var j := 0;
      while j < |output|
        invariant 0 <= j <= |output|
        invariant forall t :: 0 <= t < j ==> |output[t]| > 0
        invariant buffer == Stripped(output[..j])
        invariant downloadTotalBytes == Peak(old(downloadTotalBytes), LineTotals(output[..j]))
        invariant sleeps == old(sleeps) && launches == old(launches)
      {
        if |output[j]| == 0 {
          break;
        }
        assert forall t :: 0 <= t < j + 1 ==> |output[t]| > 0;
        var line := Strip(output[j]);
        buffer := buffer + [line];
        ScanLine(line);
        ReadOneMore(output[..j], output[j]);
        assert output[..j + 1] == output[..j] + [output[j]];
        PeakOneMore(old(downloadTotalBytes), LineTotals(output[..j]), LineTotal(line));
        j := j + 1;
      }
      UntilEofAt(output, j);
      fullLog := Join(buffer, "\n");
    }

    /** One pass of the retry loop's `try` block: launch, read the output, and decide.
        A launch exception or a marker in the log is caught at once: its text becomes
        the error and the loop sleeps. */
    method LaunchOnce(a: Attempt) returns (passed: bool, error: string)
      modifies this
      ensures passed <==> Judge(a).Passed?
      ensures !passed ==> error == Judge(a).lastError
      ensures sleeps == old(sleeps) + if Judge(a).Failed? && Judge(a).slept then 1 else 0
      ensures launches == old(launches) + 1
      ensures downloadTotalBytes == Peak(old(downloadTotalBytes), Judge(a).totals)
    {
      launches := launches + 1;
      match a
      case LaunchFailed(e) =>
        passed, error := false, e;
        sleeps := sleeps + 1;
      case Exited(returnCode, output) =>
        var fullLog := ReadOutput(output);
        if returnCode == 0 && Contains(fullLog, SuccessMarker) {
          return true, "";
        }
        passed, error := false, "SteamCMD failed (Code " + IntToString(returnCode) + ")";
        if Contains(fullLog, NetworkMarker) {
          error := Describe(NetworkFailure);
          sleeps := sleeps + 1;
        } else if Contains(fullLog, DiskMarker) {
          error := Describe(DiskFailure);
          sleeps := sleeps + 1;
        }
    }

    /** `run_update_process`: create the game directory (its failure is `dirFailure`),
        then launch SteamCMD up to `MaxRetries` times, stopping at the first success, and
        raise `ERR_STEAMCMD` with the last error if none succeeded. */
    method RunUpdateProcess(dirFailure: Option<Failure>, attempts: seq<Attempt>) returns (raised: Option<Failure>)
      requires |attempts| == MaxRetries
      modifies this
      ensures dirFailure.Some? ==>
                && raised == dirFailure && downloadTotalBytes == old(downloadTotalBytes)
                && sleeps == old(sleeps) && launches == old(launches)
      ensures dirFailure.None? ==>
                var r := Run(Judged(attempts), old(downloadTotalBytes));
                && downloadTotalBytes == r.totalBytes
                && sleeps == old(sleeps) + r.sleeps
                && launches == old(launches) + r.launches
                && raised == if r.success then None else Some(OSError(ErrSteamCmd, r.lastError))
      ensures launches <= old(launches) + MaxRetries
    {
      if dirFailure.Some? {
        return dirFailure;
      }
      ghost var vs := Judged(attempts);
      ghost var start := downloadTotalBytes;
      var success := false;
      var lastError := "";
      for attempt := 1 to MaxRetries + 1
        invariant sleeps >= old(sleeps) && launches == old(launches) + attempt - 1
        invariant Run(vs[..attempt - 1], start) == RunState(false, lastError, downloadTotalBytes, attempt - 1, sleeps - old(sleeps))
        invariant !success
      {
        assert vs[..attempt][..attempt - 1] == vs[..attempt - 1];
        assert vs[attempt - 1] == Judge(attempts[attempt - 1]);
        var passed, error := LaunchOnce(attempts[attempt - 1]);
        if passed {
          success := true;
          RunAfterSuccess(vs, attempt, start);
          break;
        }
        lastError := error;
      }
      if !success {
        assert vs[..MaxRetries] == vs;
        return Some(OSError(ErrSteamCmd, lastError));
      }
      return None;
    }

    /** `execute`: the outcome is the one `Orchestrate` specifies; SteamCMD is launched,
        the loop sleeps and `download_total_bytes` moves only when the retry loop ran, and
        then exactly as that run says. */
    method Execute(prepare: Option<Failure>, before: Manifest, remoteStdout: Option<string>,
                   dirFailure: Option<Failure>, attempts: seq<Attempt>, after: Manifest) returns (outcome: Outcome)
      requires |attempts| == MaxRetries
      modifies this
      ensures outcome == Orchestrate(force, prepare, before, remoteStdout, dirFailure, attempts, after, old(downloadTotalBytes))
      ensures UpdateRuns(force, prepare, before, remoteStdout) && dirFailure.None? ==>
                var r := Run(Judged(attempts), old(downloadTotalBytes));
                && downloadTotalBytes == r.totalBytes
                && sleeps == old(sleeps) + r.sleeps
                && launches == old(launches) + r.launches
      ensures !(UpdateRuns(force, prepare, before, remoteStdout) && dirFailure.None?) ==>
                && downloadTotalBytes == old(downloadTotalBytes)
                && sleeps == old(sleeps) && launches == old(launches)
      ensures launches <= old(launches) + MaxRetries
    {
      if prepare.Some? {
        return Error(Normalise(prepare.value));
      }
      var oldVersion := LocalVersion(before);
      var remote := RemoteVersion(remoteStdout);
      var decision := Decide(force, oldVersion, remote);
      var state := UpToDate;
      var newVersion := oldVersion;
      if decision.Update? {
        var raised := RunUpdateProcess(dirFailure, attempts);
        if raised.Some? {
          return Error(Normalise(raised.value));
        }
        newVersion := LocalVersion(after);
        state := if oldVersion == NotInstalled then FreshInstalled else Updated;
      }
      outcome := Success(Report(state, VersionInfo(oldVersion, newVersion, RemoteLabel(remote)), downloadTotalBytes));
    }
  }
}

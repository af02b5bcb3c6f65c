/**
 * What one run of `run_update_process` does with the SteamCMD launches it makes.
 * What each launch produced is an input (`Attempt`); `Judge` reads it the way the
 * loop body does (success, error text, sleep, byte totals), and `Run` is the
 * specification of the retry loop over those verdicts: when it stops, what
 * `last_error` holds, how many times it sleeps, and the running maximum of the byte
 * totals. The loop itself is `Orchestrator.DSTManager.RunUpdateProcess`.
 */
module Installer {
  import opened Wrappers
  import opened Text
  import opened Pattern
  import opened Errors

  const MaxRetries: nat := 5

  /** Both this line in the log and return code 0 make an attempt a success. */
  const SuccessMarker: string := "Success! App '343050' fully installed"
  const NetworkMarker: string := "0x202"
  const DiskMarker: string := "0x6"
  /** Only lines containing this word are searched for a byte total. */
  const DownloadWord: string := "downloading"

  const NetworkFailure: Failure := OSError(ErrNetwork, "Rate Limit/Network (0x202)")
  const DiskFailure: Failure := OSError(ErrDisk, "Disk Write Fail (0x6)")

  /** `progress:\s+\d+\.\d+\s+\(\d+\s+/\s+(\d+)\)`, written in four pieces that each end
      in a literal; the group is the total byte count. */
  const ProgressPattern: seq<Token> :=
    [Lit("progress:"), Spaces(true), Digits(false), Lit(".")] +
    [Digits(false), Spaces(true), Lit("(")] +
    [Digits(false), Spaces(true), Lit("/")] +
    [Spaces(true), Digits(true), Lit(")")]

  lemma ProgressPatternShape()
    ensures Unambiguous(ProgressPattern) && GroupCount(ProgressPattern) == 1
  {
    var a, b, c, d := [Lit("progress:"), Spaces(true), Digits(false), Lit(".")],
                      [Digits(false), Spaces(true), Lit("(")],
                      [Digits(false), Spaces(true), Lit("/")],
                      [Spaces(true), Digits(true), Lit(")")];
    assert a[1..][1..][1..][1..] == [] && b[1..][1..][1..] == [] && c[1..][1..][1..] == [] && d[1..][1..][1..] == [];
    UnambiguousAppend(c, d);
    UnambiguousAppend(b, c + d);
    UnambiguousAppend(a, b + (c + d));
    assert ProgressPattern == a + (b + (c + d));
  }

  /** What one launch of SteamCMD produced: the exception `Popen` raised (its `str`), or
      the return code and what successive `readline` calls on its combined stdout/stderr
      returned. */
  datatype Attempt =
    | LaunchFailed(error: string)
    | Exited(returnCode: int, output: seq<string>)

  /** The lines the reading loop takes in: those before the first empty string, which is
      how `readline` signals end of file (a blank line still holds its newline). */
  function UntilEof(output: seq<string>): (lines: seq<string>)
    ensures lines <= output
    ensures forall j :: 0 <= j < |lines| ==> |lines[j]| > 0
    ensures |lines| < |output| ==> |output[|lines|]| == 0
  {
    if output == [] || |output[0]| == 0 then []
    else [output[0]] + UntilEof(output[1..])
  }

  /** The reading loop stops at the first empty string and nowhere else. */
  lemma {:induction false} UntilEofAt(output: seq<string>, n: nat)
    requires n <= |output| && forall j :: 0 <= j < n ==> |output[j]| > 0
    requires n < |output| ==> |output[n]| == 0
    ensures UntilEof(output) == output[..n]
  {
    var lines := UntilEof(output);
    assert lines == output[..|lines|];
  }

  /** The byte total a stripped output line reports: the group of the progress pattern,
      on a line that mentions downloading. */
  function LineTotal(line: string): (r: Option<nat>)
    ensures r.Some? <==> Contains(line, DownloadWord) && Search(line, ProgressPattern).Some?
  {
    if Contains(line, DownloadWord) then
      match Search(line, ProgressPattern)
      case Some(f) =>
        ProgressPatternShape();
        assert f.m.groups[0] in f.m.groups;
        Some(NumeralValue(f.m.groups[0]))
      case None => None
    else None
  }

  /** The progress pattern's leftmost match in `line` starts at i and is m, whose one
      group is the total's digits. */
  ghost predicate LeftmostProgress(line: string, i: nat, m: Match) {
    && Matches(line, i, ProgressPattern, m)
    && (forall k: nat, m': Match :: k < i ==> !Matches(line, k, ProgressPattern, m'))
    && |m.groups| == 1 && IsNumeral(m.groups[0])
  }

  /** The total a line reports is `int(match.group(1))` of the leftmost progress match,
      on a line that mentions downloading. */
  lemma LineTotalIsLeftmostGroup(line: string, v: nat)
    ensures LineTotal(line) == Some(v) <==>
              && Contains(line, DownloadWord)
              && exists i: nat, m: Match :: LeftmostProgress(line, i, m) && NumeralValue(m.groups[0]) == v
  {
    if LineTotal(line) == Some(v) {
      LineTotalFound(line);
    }
    if Contains(line, DownloadWord) {
      if i: nat, m: Match :| LeftmostProgress(line, i, m) && NumeralValue(m.groups[0]) == v {
        ProgressPatternShape();
        SearchFirst(line, ProgressPattern, i, m);
      }
    }
  }

  lemma LineTotalFound(line: string)
    requires LineTotal(line).Some?
    ensures exists i: nat, m: Match :: LeftmostProgress(line, i, m) && NumeralValue(m.groups[0]) == LineTotal(line).value
  {
    ProgressPatternShape();
    var f := Search(line, ProgressPattern).value;
    SearchFirst(line, ProgressPattern, f.start, f.m);
    assert f.m.groups[0] in f.m.groups;
    assert LeftmostProgress(line, f.start, f.m);
  }

  /** The byte total (if any) each output line reports. */
  function LineTotals(output: seq<string>): (r: seq<Option<nat>>)
    ensures |r| == |output|
  {
    seq(|output|, j requires 0 <= j < |output| => LineTotal(Strip(output[j])))
  }

  /** The lines kept in `output_buffer`: each one stripped. */
  function Stripped(output: seq<string>): (r: seq<string>)
    ensures |r| == |output|
  {
    seq(|output|, j requires 0 <= j < |output| => Strip(output[j]))
  }

  /** Reading one more line appends its stripped text and its byte total. */
  lemma ReadOneMore(lines: seq<string>, line: string)
    ensures Stripped(lines + [line]) == Stripped(lines) + [Strip(line)]
    ensures LineTotals(lines + [line]) == LineTotals(lines) + [LineTotal(Strip(line))]
  {
    var more := lines + [line];
    assert forall j :: 0 <= j < |lines| ==> more[j] == lines[j];
  }

  /** `full_log`: the stripped lines joined by newlines. */
  function FullLog(output: seq<string>): string
  {
    Join(Stripped(output), "\n")
  }

  /** An attempt succeeds when SteamCMD exited with code 0 AND printed the success line. */
  predicate Succeeded(a: Attempt) {
    a.Exited? && a.returnCode == 0 && Contains(FullLog(UntilEof(a.output)), SuccessMarker)
  }

  /** What one pass of the loop body makes of an attempt: the byte totals its lines
      report, and, for a failure, the new `last_error` and whether it slept `RETRY_DELAY`. */
  datatype Verdict =
    | Passed(totals: seq<Option<nat>>)
    | Failed(totals: seq<Option<nat>>, lastError: string, slept: bool)

  /** A launch exception, or a marker found in the log, raises inside the `try`; the
      `except` records its text and sleeps. A plain failure records the return code and
      goes straight on. `0x202` is looked for before `0x6`. */
  function Judge(a: Attempt): (v: Verdict)
    ensures v.Passed? <==> Succeeded(a)
    ensures v.totals == if a.Exited? then LineTotals(UntilEof(a.output)) else []
    ensures v.Failed? ==>
              (v.slept <==> a.LaunchFailed? || Contains(FullLog(UntilEof(a.output)), NetworkMarker) || Contains(FullLog(UntilEof(a.output)), DiskMarker))
  {
    match a
    case LaunchFailed(error) => Failed([], error, true)
    case Exited(code, output) =>
      var lines := UntilEof(output);
      var totals := LineTotals(lines);
      var log := FullLog(lines);
      if code == 0 && Contains(log, SuccessMarker) then Passed(totals)
      else if Contains(log, NetworkMarker) then Failed(totals, Describe(NetworkFailure), true)
      else if Contains(log, DiskMarker) then Failed(totals, Describe(DiskFailure), true)
      else Failed(totals, "SteamCMD failed (Code " + IntToString(code) + ")", false)
  }

  /** The error text each kind of failed attempt leaves: the exception's own text, the
      network error whenever `0x202` is in the log (even with `0x6` there too), the disk
      error for `0x6` alone, and otherwise the return code. */
  lemma FailureText(a: Attempt)
    requires !Succeeded(a)
    ensures a.LaunchFailed? ==> Judge(a).lastError == a.error
    ensures a.Exited? && Contains(FullLog(UntilEof(a.output)), NetworkMarker) ==>
              Judge(a).lastError == Describe(NetworkFailure)
    ensures a.Exited? && !Contains(FullLog(UntilEof(a.output)), NetworkMarker) && Contains(FullLog(UntilEof(a.output)), DiskMarker) ==>
              Judge(a).lastError == Describe(DiskFailure)
    ensures a.Exited? && !Contains(FullLog(UntilEof(a.output)), NetworkMarker) && !Contains(FullLog(UntilEof(a.output)), DiskMarker) ==>
              Judge(a).lastError == "SteamCMD failed (Code " + IntToString(a.returnCode) + ")"
  {
  }

  /** The verdicts of a sequence of attempts. */
  function Judged(attempts: seq<Attempt>): (vs: seq<Verdict>)
    ensures |vs| == |attempts|
  {
    seq(|attempts|, k requires 0 <= k < |attempts| => Judge(attempts[k]))
  }

  /** `download_total_bytes` after reading lines reporting `totals`, starting from
      `total`: a reported total replaces it only when larger. */
  function Peak(total: nat, totals: seq<Option<nat>>): (r: nat)
    ensures r >= total
    decreases |totals|
  {
    if totals == [] then total
    else
      var before := Peak(total, totals[..|totals| - 1]);
      match totals[|totals| - 1]
      case Some(t) => if t > before then t else before
      case None => before
  }

  /** Reading one more line continues from the total reached so far. */
  lemma PeakOneMore(total: nat, totals: seq<Option<nat>>, t: Option<nat>)
    ensures Peak(total, totals + [t]) == Peak(Peak(total, totals), [t])
  {
    assert (totals + [t])[..|totals|] == totals;
    assert [t][..0] == [];
  }

  /** `Peak` is the maximum of the starting total and every reported total. */
  lemma {:induction false} PeakIsMaximum(total: nat, totals: seq<Option<nat>>)
    ensures forall j, v: nat :: 0 <= j < |totals| && totals[j] == Some(v) ==> v <= Peak(total, totals)
    ensures Peak(total, totals) == total || exists j :: 0 <= j < |totals| && totals[j] == Some(Peak(total, totals))
    decreases |totals|
  {
    if totals != [] {
      var init := totals[..|totals| - 1];
      PeakIsMaximum(total, init);
      forall j, v: nat | 0 <= j < |totals| && totals[j] == Some(v) ensures v <= Peak(total, totals) {
        if j < |init| {
          assert init[j] == totals[j];
        }
      }
      if Peak(total, totals) != total && Peak(total, totals) == Peak(total, init) {
        var j :| 0 <= j < |init| && init[j] == Some(Peak(total, init));
        assert totals[j] == init[j];
      }
    }
  }

  /** The loop's variables after some attempts: `success`, `last_error`,
      `download_total_bytes`, and (for the proofs) launches made and sleeps taken. */
  datatype RunState = RunState(success: bool, lastError: string, totalBytes: nat, launches: nat, sleeps: nat)

  /** One pass of the loop body. */
  function Step(st: RunState, v: Verdict): RunState
  {
    var total := Peak(st.totalBytes, v.totals);
    match v
    case Passed(_) => RunState(true, st.lastError, total, st.launches + 1, st.sleeps)
    case Failed(_, error, slept) => RunState(false, error, total, st.launches + 1, st.sleeps + if slept then 1 else 0)
  }

  /** The loop over the verdicts, leaving it at the first success, with
      `download_total_bytes` equal to `start` on entry. */
  function Run(vs: seq<Verdict>, start: nat): RunState
    decreases |vs|
  {
    if vs == [] then RunState(false, "", start, 0, 0)
    else
      var before := Run(vs[..|vs| - 1], start);
      if before.success then before else Step(before, vs[|vs| - 1])
  }

  /** Once an attempt has succeeded, later verdicts are never looked at. */
  lemma {:induction false} RunAfterSuccess(vs: seq<Verdict>, k: nat, start: nat)
    requires k <= |vs| && Run(vs[..k], start).success
    ensures Run(vs, start) == Run(vs[..k], start)
    decreases |vs| - k
  {
    if k < |vs| {
      assert vs[..k + 1][..k] == vs[..k];
      RunAfterSuccess(vs, k + 1, start);
    } else {
      assert vs[..k] == vs;
    }
  }

  /** The loop launches SteamCMD at most once per verdict given; a run that fails has
      used them all, and a run that succeeds stopped at a successful launch. */
  lemma {:induction false} RunLaunches(vs: seq<Verdict>, start: nat)
    ensures Run(vs, start).launches <= |vs|
    ensures !Run(vs, start).success ==> Run(vs, start).launches == |vs|
    ensures Run(vs, start).success ==> 1 <= Run(vs, start).launches && vs[Run(vs, start).launches - 1].Passed?
    decreases |vs|
  {
    if vs != [] {
      var init := vs[..|vs| - 1];
      RunLaunches(init, start);
      var before := Run(init, start);
      if before.success {
        assert init[before.launches - 1] == vs[before.launches - 1];
      }
    }
  }

  /** The run fails exactly when every attempt fails. */
  lemma {:induction false} RunFailsIffAllFail(vs: seq<Verdict>, start: nat)
    ensures !Run(vs, start).success <==> forall k :: 0 <= k < |vs| ==> vs[k].Failed?
    decreases |vs|
  {
    if vs != [] {
      var init := vs[..|vs| - 1];
      RunFailsIffAllFail(init, start);
      if Run(init, start).success {
        var k :| 0 <= k < |init| && init[k].Passed?;
        assert vs[k] == init[k];
      } else if vs[|vs| - 1].Failed? {
        forall k | 0 <= k < |vs| ensures vs[k].Failed? {
          if k < |init| {
            assert vs[k] == init[k];
          }
        }
      }
    }
  }

  /** A successful run stopped at the FIRST successful attempt. */
  lemma {:induction false} RunStopsAtFirstSuccess(vs: seq<Verdict>, start: nat)
    ensures Run(vs, start).success ==>
              forall k :: 0 <= k < |vs| && k < Run(vs, start).launches - 1 ==> vs[k].Failed?
    decreases |vs|
  {
    if vs != [] {
      var init := vs[..|vs| - 1];
      var before := Run(init, start);
      RunLaunches(init, start);
      if before.success {
        RunStopsAtFirstSuccess(init, start);
        forall k | 0 <= k < |vs| && k < before.launches - 1 ensures vs[k].Failed? {
          assert vs[k] == init[k];
        }
      } else {
        RunFailsIffAllFail(init, start);
        forall k | 0 <= k < |init| ensures vs[k].Failed? {
          assert vs[k] == init[k];
        }
      }
    }
  }

  /** `download_total_bytes` never decreases: not within an attempt, not between attempts
      (it is never reset), and not after the loop has stopped. */
  lemma {:induction false} RunTotalNeverDecreases(vs: seq<Verdict>, k: nat, start: nat)
    requires k <= |vs|
    ensures start <= Run(vs[..k], start).totalBytes <= Run(vs, start).totalBytes
    decreases |vs|
  {
    if vs != [] {
      var init := vs[..|vs| - 1];
      if k < |vs| {
        assert init[..k] == vs[..k];
        RunTotalNeverDecreases(init, k, start);
      } else {
        assert vs[..k] == vs;
        RunTotalNeverDecreases(init, 0, start);
      }
    } else {
      assert vs[..k] == [];
    }
  }

  /** Among the first n launches, one read a line reporting the total v. */
  ghost predicate Reported(vs: seq<Verdict>, n: nat, v: nat) {
    exists k, j :: 0 <= k < n && k < |vs| && 0 <= j < |vs[k].totals| && vs[k].totals[j] == Some(v)
  }

  /** No launch that was made reported a total above the final `download_total_bytes`. */
  lemma {:induction false} RunTotalIsUpperBound(vs: seq<Verdict>, start: nat, v: nat)
    requires Reported(vs, Run(vs, start).launches, v)
    ensures v <= Run(vs, start).totalBytes
    decreases |vs|
  {
    var k, j :| 0 <= k < Run(vs, start).launches && k < |vs| && 0 <= j < |vs[k].totals| && vs[k].totals[j] == Some(v);
    var init := vs[..|vs| - 1];
    var before := Run(init, start);
    RunLaunches(init, start);
    if k < |init| {
      assert init[k] == vs[k];
      RunTotalIsUpperBound(init, start, v);
    } else {
      PeakIsMaximum(before.totalBytes, vs[k].totals);
    }
  }

  /** The final `download_total_bytes` is the starting value or a total that some launch
      that was made reported. */
  lemma {:induction false} RunTotalIsAttained(vs: seq<Verdict>, start: nat)
    ensures Run(vs, start).totalBytes == start ||
            Reported(vs, Run(vs, start).launches, Run(vs, start).totalBytes)
    decreases |vs|
  {
    if vs != [] {
      var init := vs[..|vs| - 1];
      var before := Run(init, start);
      var r := Run(vs, start);
      RunLaunches(init, start);
      RunTotalIsAttained(init, start);
      if r.totalBytes != start {
        if r.totalBytes == before.totalBytes {
          var k, j :| 0 <= k < before.launches && k < |init| && 0 <= j < |init[k].totals| && init[k].totals[j] == Some(r.totalBytes);
          assert vs[k] == init[k];
        } else {
          var last := vs[|vs| - 1];
          PeakIsMaximum(before.totalBytes, last.totals);
          var j :| 0 <= j < |last.totals| && last.totals[j] == Some(r.totalBytes);
          assert Reported(vs, r.launches, r.totalBytes);
        }
      }
    }
  }

  /** When every attempt fails, the error raised carries what the LAST attempt left in
      `last_error`. */
  lemma RunLastError(vs: seq<Verdict>, start: nat)
    requires vs != [] && forall k :: 0 <= k < |vs| ==> vs[k].Failed?
    ensures !Run(vs, start).success
    ensures Run(vs, start).lastError == vs[|vs| - 1].lastError
  {
    var init := vs[..|vs| - 1];
    RunFailsIffAllFail(vs, start);
    RunFailsIffAllFail(init, start);
    assert forall k :: 0 <= k < |init| ==> init[k] == vs[k];
  }

  /** Only the exception path sleeps: a run whose every attempt fails without sleeping
      (no launch exception, no marker in its log) never sleeps. */
  lemma {:induction false} PlainFailuresNeverSleep(vs: seq<Verdict>, start: nat)
    requires forall k :: 0 <= k < |vs| ==> vs[k].Failed? && !vs[k].slept
    ensures Run(vs, start).sleeps == 0
    decreases |vs|
  {
    if vs != [] {
      var init := vs[..|vs| - 1];
      assert forall k :: 0 <= k < |init| ==> init[k] == vs[k];
      PlainFailuresNeverSleep(init, start);
    }
  }

  /** A run whose attempts all fail through the exception path sleeps after each one,
      the last included. */
  lemma {:induction false} ExceptionPathAlwaysSleeps(vs: seq<Verdict>, start: nat)
    requires forall k :: 0 <= k < |vs| ==> vs[k].Failed? && vs[k].slept
    ensures Run(vs, start).sleeps == |vs|
    decreases |vs|
  {
    if vs != [] {
      var init := vs[..|vs| - 1];
      assert forall k :: 0 <= k < |init| ==> init[k] == vs[k];
      ExceptionPathAlwaysSleeps(init, start);
      RunFailsIffAllFail(init, start);
    }
  }
}

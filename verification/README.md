# Don't Starve Together dedicated-server installer: update orchestration

This project models the core of `DSTManager` in `install_dst.py`, the script that
installs and updates a Don't Starve Together dedicated server through SteamCMD. The
model covers four pieces:

- **Local version.** `get_local_version` reads the installed build id from the app
  manifest, or gives `"0"`.
- **Remote version.** `get_remote_version` reads the published build id from
  SteamCMD's `app_info_print` output. It first isolates the block of the `public`
  branch, then finds the build id inside that block.
- **Retry loop.** `run_update_process` launches SteamCMD up to `MAX_RETRIES` (5) times.
  It scans each line of output for a download total and stops at the first launch
  that exits 0 with the success marker. On each failed launch it records the error
  text, and it raises `ERR_STEAMCMD` when every launch failed.
- **Execute.** `execute` decides whether to update and assembles the success report,
  or the `{code, message}` pair of the error.

The regular expressions the script uses are modelled by a small pattern engine
(module `Pattern`). Its tokens are literals, `\s*`, `\s+` and `\d+`. The greedy matcher
`MatchAt` is proved equal to a declarative `Matches` for patterns where greediness
cannot matter, and `Search` is proved to find the leftmost match.

On top of that engine:

- `VersionOracle` models both version reads.
- `Installer` models the retry loop as a pure specification:
  - `Judge` gives the verdict of one launch;
  - `Peak` gives the running maximum of download totals;
  - `Run` folds the verdicts into the loop's final state.
- `Orchestrator` holds the decision and `Orchestrate`, the specification of one call of
  `execute`. It also holds the class `DSTManager`. Its methods update
  `downloadTotalBytes` in place, as the script updates `download_total_bytes`, and
  each method is proved against those specifications.

Everything the script obtains from the outside world is an input of the model:

- whether `prepare_steamcmd` failed;
- the manifest file before and after the update;
- SteamCMD's stdout for the version query;
- whether creating the game directory failed;
- the outcome of each launch: an exception at launch, or an exit code with the lines
  `readline` returned.

Five behaviours of the code shape the error and retry model:

- **Marker errors surface as `ERR_STEAMCMD`.** The `OSError(ERR_DISK, …)` raised for
  `0x6` (and likewise the `ERR_NETWORK` one for `0x202`) is raised inside the `try` of the
  retry loop (`install_dst.py:192-193`), so that loop's own `except` catches it at once
  (`install_dst.py:195-198`) and keeps `str(e)` as the last error. When every launch
  fails and its log holds `0x6` but not `0x202`, the run therefore ends, after the fifth
  attempt, in `OSError(ERR_STEAMCMD, "[Errno ERR_DISK] Disk Write Fail (0x6)")`, never
  in an `ERR_DISK` error (`DiskMarkerReportsSteamCmd`). A launch that exits 0 with the
  success marker passes whatever else its log holds, and a log holding both markers
  leaves the network text.
- **Only the exception path sleeps.** A launch that raised, or whose log holds a marker,
  sleeps `RETRY_DELAY` seconds, the last attempt included. A plain non-zero exit goes
  straight to the next attempt (`PlainFailuresNeverSleep`, `ExceptionPathAlwaysSleeps`).
- **Exhausted retries are always `ERR_STEAMCMD`.** Whatever the failures were, including
  launches that all raised, the loop ends in `OSError(ERR_STEAMCMD, last_error)`
  (`install_dst.py:200-201`, `ErrorOrigin`).
- **Directory errors other than permission keep their errno.** `_ensure_dir` turns only
  a `PermissionError` from `os.makedirs` into `OSError(ERR_PERMISSION, …)`
  (`install_dst.py:74-79`). Any other failure, such as a path component that is a file,
  a read-only or a full file system, passes through with `args == (errno, strerror)`.
  This happens for SteamCMD's directory (`install_dst.py:92`, outside the `try` of
  `prepare_steamcmd`) and for the game directory (`install_dst.py:142`). `execute` then
  reports the integer errno as the code (`install_dst.py:249-251`), for instance
  `{"code": 20, "message": "Not a directory"}`, which is none of the six taxonomy codes
  (`ErrnoEscapesTaxonomy`).
- **The disk-space check never raises.** `_check_disk_space` raises its own
  `OSError(ERR_DISK, …)` inside a `try` whose bare `except` swallows it
  (`install_dst.py:84-89`), so a low-disk condition never stops the update. The check
  has no effect on any outcome and is not modelled.

## Model

| member | source | states |
|---|---|---|
| `Text.Strip` | install_dst.py:171 | the stripped line is no longer than the line, and it is empty or neither begins nor ends with whitespace |
| `Text.StripRemovesOnlyEnds` | install_dst.py:171 | the stripped line is a contiguous piece of the line, with only whitespace removed before and after it |
| `Text.IntToString` | install_dst.py:191 | the rendering of a return code reads back as that code, has a leading `-` exactly for negative codes, and has no leading zero |
| `Text.NatToStringUnique` | install_dst.py:191 | the rendering is the only numeral without a leading zero for its value, as `f"{n}"` gives |
| `Pattern.MatchAtSound` | install_dst.py:121 | whatever the greedy matcher returns is a match of the pattern by the declarative definition |
| `Pattern.MatchAtComplete` | install_dst.py:121 | for a pattern where greediness cannot matter, every declarative match is the one the greedy matcher returns |
| `Pattern.SearchFirst` | install_dst.py:121 | `re.search` finds the match that starts leftmost, and finds nothing exactly when the pattern matches nowhere |
| `Pattern.UnambiguousAppend` | install_dst.py:153 | joining two patterns where greediness cannot matter, at a literal, gives another such pattern with the groups of both |
| `Installer.ProgressPatternShape` | install_dst.py:153 | the progress pattern is one where greediness cannot matter, and it has exactly one group (the total) |
| `VersionOracle.FirstBuildIdIsLeftmost` | install_dst.py:121-122 | the build id read is the digits of the leftmost `"buildid" "<digits>"` field, and none is read exactly when no such field occurs |
| `VersionOracle.LocalVersion` | install_dst.py:117-123 | the local version is always a non-empty string of digits |
| `VersionOracle.LocalVersionSpec` | install_dst.py:117-123 | the local version is the leftmost field's build id; a missing or unreadable manifest, or one with no field, reads as `"0"` |
| `VersionOracle.PublicBlockIsFirst` | install_dst.py:134 | the isolated block follows the first `"branches" {` and the first `"public" {` after it, and ends at the first `}` after that |
| `VersionOracle.PublicBlockAbsent` | install_dst.py:134-135 | no block is found exactly when no `"branches" {`, later `"public" {`, later `}` sequence exists |
| `VersionOracle.RemoteVersion` | install_dst.py:125-139 | a remote version, when there is one, is a non-empty string of digits |
| `VersionOracle.RemoteVersionSpec` | install_dst.py:134-139 | the remote version is the leftmost build id inside the public block; it is unknown when SteamCMD raised, no block was found, or the block has no build id |
| `Errors.Normalise` | install_dst.py:249-254 | an `OSError` is given back unchanged as its code and message; any other exception becomes `ERR_UNKNOWN` carrying its `str()` |
| `Errors.NormaliseIsClosed` | install_dst.py:30-35 | a failure whose `OSError` code is a taxonomy code, or any exception that is not a two-argument `OSError`, is reported with one of the six taxonomy codes |
| `Errors.ErrnoIsReportedAsIs` | install_dst.py:249-251 | an `OSError` carrying an errno is reported with that errno as the code and its `strerror` as the message, a code outside the taxonomy |
| `Installer.UntilEof` | install_dst.py:168-170 | the lines read are a prefix of the output, none of them empty, stopping at the first empty read |
| `Installer.UntilEofAt` | install_dst.py:168-170 | a prefix of non-empty reads followed by an empty read, or the end of the output, is exactly what is read |
| `Installer.LineTotal` | install_dst.py:174-177 | a line yields a total exactly when it contains `downloading` and the progress pattern occurs in it |
| `Installer.LineTotalIsLeftmostGroup` | install_dst.py:174-177 | a line reports the total v exactly when it mentions `downloading` and v is `int()` of the group of the progress pattern's leftmost match |
| `Installer.Judge` | install_dst.py:184-198 | a launch passes exactly when it exits 0 with the success marker in the log; a failed launch sleeps exactly when it raised or its log holds `0x202` or `0x6`; its totals are those of the lines it read |
| `Installer.FailureText` | install_dst.py:190-196 | the error a failed launch leaves: the exception's text, the network error whenever `0x202` appears, the disk error for `0x6` alone, otherwise the return code |
| `Installer.Peak` | install_dst.py:178-179 | the running total never falls below its starting value |
| `Installer.PeakIsMaximum` | install_dst.py:174-179 | the running total bounds every reported total and is either its starting value or one of them |
| `Installer.RunAfterSuccess` | install_dst.py:187-189 | once a launch succeeds, later outcomes change nothing |
| `Installer.RunLaunches` | install_dst.py:158-189 | no more launches than outcomes the loop is given (`MAX_RETRIES`); a failed run used them all; a successful run's last launch is the one that passed |
| `Installer.RunFailsIffAllFail` | install_dst.py:200-201 | the run fails exactly when every launch failed |
| `Installer.RunStopsAtFirstSuccess` | install_dst.py:187-189 | every launch before the last one made failed |
| `Installer.RunTotalNeverDecreases` | install_dst.py:178-179 | `download_total_bytes` never decreases, not within an attempt nor across attempts |
| `Installer.RunTotalIsUpperBound` | install_dst.py:174-179 | no launch that was made reported a total above the final `download_total_bytes` |
| `Installer.RunTotalIsAttained` | install_dst.py:174-179 | the final `download_total_bytes` is its starting value or a total some launch reported |
| `Installer.RunLastError` | install_dst.py:195-201 | when every launch fails, the error raised carries the last launch's error text |
| `Installer.PlainFailuresNeverSleep` | install_dst.py:190-193 | launches that only exit non-zero with no marker never sleep |
| `Installer.ExceptionPathAlwaysSleeps` | install_dst.py:195-198 | launches that raise, or whose log holds a marker, sleep once each, the last one included |
| `Orchestrator.Decide` | install_dst.py:209-219 | no update exactly when not forced and the remote version equals the local one; `--force` wins; an unknown remote alone forces an update |
| `Orchestrator.RemoteLabel` | install_dst.py:235 | a known non-empty remote version is shown as is; an unknown one as `"unknown"` |
| `Orchestrator.NumeralIsShown` | install_dst.py:235 | a build id is shown as itself and is never the word `"unknown"` |
| `Orchestrator.NoUpdateNeverRunsUpdater` | install_dst.py:209-225 | when the versions agree and `--force` is off, the report is up to date with old, new and remote version equal, the byte total untouched, and nothing of the updater's inputs matters |
| `Orchestrator.UnknownRemoteForcesUpdate` | install_dst.py:214-215 | an unknown remote version always leads to an update |
| `Orchestrator.SuccessReport` | install_dst.py:220-247 | a success report's old version is the local one; its remote version is `"unknown"` exactly when the remote is unknown; "up to date" exactly when no update ran; otherwise the update succeeded, the new version is re-read, and "fresh install" means the old version read as `"0"` (no manifest, an unreadable one, or one without a build id) |
| `Orchestrator.ErrorOrigin` | install_dst.py:203-254 | an error comes from preparing SteamCMD, from creating the game directory, or is `ERR_STEAMCMD` after every launch failed, with the last launch's text |
| `Orchestrator.ErrorCodeIsClosed` | install_dst.py:249-254 | every error pair `execute` reports carries one of the six taxonomy codes, provided the failures of preparing SteamCMD and of creating the game directory carry taxonomy codes or are not two-argument `OSError`s |
| `Orchestrator.ErrnoEscapesTaxonomy` | install_dst.py:74-79 | an `os.makedirs` errno let through by `_ensure_dir`, while preparing SteamCMD or before the retry loop, is reported as that errno with its `strerror`, outside the six taxonomy codes |
| `Orchestrator.DiskMarkerReportsSteamCmd` | install_dst.py:190-201 | with `0x6` (and no `0x202`) on every attempt, 5 launches and 5 sleeps are made and the error is `ERR_STEAMCMD` carrying the disk error's text, not `ERR_DISK` |
| `Orchestrator.AlwaysExitOne` | install_dst.py:158-201 | a SteamCMD that always exits 1 without markers is launched 5 times with no sleep, and the error is `ERR_STEAMCMD` with `SteamCMD failed (Code 1)` |
| `Orchestrator.FreshInstall` | install_dst.py:220-223 | with no manifest and a first launch that succeeds, the report is "fresh install" from `"0"` to the re-read version |
| `Orchestrator.ReportedAgrees` | install_dst.py:174-177 | the totals the loop read in the launches made are exactly those the verdicts carry |
| `Orchestrator.RunTotalIsLargestReported` | install_dst.py:174-179 | the byte total a run reaches is the largest total any launch made read from a progress line, or the value on entry |
| `Orchestrator.UpdatedTotal` | install_dst.py:220-238 | after a successful update the run succeeded and the reported byte total is the total that run reached |
| `Orchestrator.DSTManager.constructor` | install_dst.py:64-67 | a new manager starts with `download_total_bytes` at 0, and no launch or sleep made |
| `Orchestrator.DSTManager.ScanLine` | install_dst.py:174-179 | a progress line raises `download_total_bytes` to its total when that is larger |
| `Orchestrator.DSTManager.ReadOutput` | install_dst.py:167-185 | the log is the stripped lines read, joined by newlines, and `download_total_bytes` is the running maximum over them |
| `Orchestrator.DSTManager.LaunchOnce` | install_dst.py:161-198 | one launch is made; it passes, fails or sleeps as its verdict says, and leaves the error text the verdict gives |
| `Orchestrator.DSTManager.RunUpdateProcess` | install_dst.py:141-201 | a directory failure is raised with no launch, no sleep and the field untouched; otherwise the field, the sleeps and the launches (at most `MAX_RETRIES`, none after the first success) end as the loop's specification says, and `ERR_STEAMCMD` with the last error is raised exactly when no launch succeeded |
| `Orchestrator.DSTManager.Execute` | install_dst.py:203-254 | the outcome is the one `Orchestrate` specifies; launches, sleeps and `download_total_bytes` change only when the retry loop ran, and then as that run says, with at most `MAX_RETRIES` launches |

## Left out

- Running SteamCMD is left out: the subprocesses, the 60-second timeout of the version query, waiting for the process, and its environment with the proxy variables. Each launch's outcome and the query's output are inputs.
- `prepare_steamcmd` (the download, extraction and `chmod` of SteamCMD) is not modelled beyond its outcome. Its failure, if any, is an input.
- `_ensure_dir` is not modelled beyond its outcome. The failure of creating the game directory is an input, and a failure to create SteamCMD's directory is part of the failure of `prepare_steamcmd`.
- `_check_disk_space` is left out because it can never raise (see above).
- `time.sleep(RETRY_DELAY)` is only counted, in the ghost field `sleeps`. Time is not modelled.
- Logging, the echo of each output line, the JSON rendering of the report and error, argument parsing and `main` are left out. They are I/O.
- The report's `timestamp`, `total_mb`, `note` and `paths` fields are left out. They are clock, floating-point rounding and constants.
- `\d` and `int()` are modelled on ASCII digits only. Python also accepts other Unicode decimal digits.
- An exception from `readline` or `process.wait()` inside an attempt is not modelled separately. It would take the same path as a launch exception (`LaunchFailed`), but the totals read before it, which the script has already counted, are not kept.
- An `OSError` code is modelled as a taxonomy name or an integer errno, the two kinds of first argument that reach `execute`. The filename that `os.makedirs` attaches to its error is not modelled, because `execute` reports only `args[0]` and `args[1]`.
- `Orchestrator.ErrorCodeIsClosed` holds only for failures whose `OSError` code is a taxonomy code. An errno that `_ensure_dir` lets through is reported outside the taxonomy, as `Orchestrator.ErrnoEscapesTaxonomy` states.
- `Orchestrator.DSTManager.RunUpdateProcess`, `Orchestrator.DSTManager.Execute` and `Orchestrator.Orchestrate` take the possible outcomes of exactly `MAX_RETRIES` launches, one per pass of the loop. Only as many as the loop reaches are used.
- `Orchestrator.DSTManager.Execute` leaves the re-read of the manifest after the update to its `after` input. It does not model the file system that connects the update to that read.

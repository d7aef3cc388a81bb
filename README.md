# killIdleProcess in Dafny

killIdleProcess is a small Windows watchdog written in Go. Every ten seconds it:

- lists the running processes named `notepad.exe` through its `ps` package;
- reads each one's CPU time;
- kills each one whose user time plus kernel time exceeds 500 ms.

Any error ends the program through `log.Fatal`.

This project models three parts:

- the Windows process provider of the `ps` package;
- the package's public delegating functions;
- one cycle of the watchdog loop.

For each part it proves the properties listed in the "## Model" table below.

The operating system appears only as oracles: values that the caller supplies and whose answers the model takes as given.

- A process snapshot is `Snapshot`. It holds what `Process32FirstW` reports and the entries that the following `Process32NextW` calls report before the first zero return.
- `Os` bundles the snapshot with four functions: OpenProcess (access mask and pid to a handle or an error), GetProcessTimes, `os.FindProcess` and `Process.Kill`.

Everything between those calls is modelled:

- **Tick-to-duration conversion.** This is `filetimeToDuration` with Go's int64 wrap-around written out (`Go.Wrap64`, `Add64`, `Mul64`, `ShiftLeft32`).
- **Entry decoding.** `newWindowsProcess` is a scan for the first NUL code unit of the 260-unit `ExeFile` buffer.
- **The snapshot walk and its uses.** The walk itself is `processes`, the first-match lookup `findProcess`, and the order-preserving filter `filterProcesses`.
- **The access-mask fallback of `getProcessHandle`.** The source's array literal `[4]uint32{PROCESS_QUERY_INFORMATION}` names one element. The loop therefore tries `PROCESS_QUERY_INFORMATION` and then the zero mask three times.
- **`CPUTime` and `Kill`.** `CPUTime` returns the Win32 calls it made as a list of `OsCall`s. That list shows that an acquired handle is used while open and closed on every exit path.
- **One watchdog cycle (`Watchdog.Cycle`).** It returns a trace of `Event`s, which stand for the `Printf` output and the kill calls, and an `Outcome`: `Completed`, or `Fatal(error)` for `log.Fatal`.

Each imperative operation is a method with loops, proved equal to a specification function:

| method | specification function |
|---|---|
| `Processes` | `Enumerate` |
| `FindProcess` | `Lookup` |
| `FilterProcesses` | `Select` |
| `GetProcessHandle` | `AcquireHandle` |
| `CPUTime` | `QueryCpuTime` |
| `Cycle` | `RunCycle` |

The properties are proved as lemmas about those functions.

A cycle is stated over a `Probe`: the answers the cycle gets from `CPUTime` and `Kill` for each match. `ProbeOf(os)` gives the answers of the provider on an operating system `os`. `Chain` is the control of the inner loop: it runs the per-match results in order, up to and including the first fatal one.

Names are kept as the UTF-16 code units before the NUL (`seq<uint16>`). The watched name `AppName` is the code units of "notepad.exe".

## Model

| member | source | states |
|---|---|---|
| Go.Wrap64 | ps/process_windows.go:195-196 | Go's two's-complement int64 overflow: the exact value brought into range by adding or subtracting 2^64 |
| Go.Add64 | ps/process_windows.go:195 | Go's `+` on int64, wrapping on overflow |
| Go.Mul64 | ps/process_windows.go:196 | Go's `*` on int64, wrapping on overflow |
| Go.ShiftLeft32 | ps/process_windows.go:195 | Go's `<< 32` on int64: bits shifted out of the top are lost |
| Go.Wrap64Residue | ps/process_windows.go:195-196 | the int64 that Go's arithmetic produces is congruent to the exact result modulo 2^64 |
| Go.Wrap64Congruent | ps/process_windows.go:195-196 | two exact results with the same residue modulo 2^64 wrap to the same int64 |
| Go.Wrap64InRange | ps/process_windows.go:195-196 | a result that fits in an int64 is not changed by wrapping |
| ProcessWindows.FiletimeToDuration | ps/process_windows.go:194-197 | filetimeToDuration: the high word shifted left by 32 plus the low word, times 100, each step in int64 |
| ProcessWindows.FiletimeToDurationClosedForm | ps/process_windows.go:194-197 | the conversion equals (High * 2^32 + Low) * 100 reduced to int64, whatever the words |
| ProcessWindows.FiletimeToDurationExact | ps/process_windows.go:194-197 | when the tick count times 100 is below 2^63, the duration is exactly (High * 2^32 + Low) * 100 ns |
| ProcessWindows.FiletimeToDurationLowWord | ps/process_windows.go:195-196 | with High == 0 the duration is Low * 100 ns |
| ProcessWindows.FiletimeToDurationMonotone | ps/process_windows.go:195-196 | below the overflow bound, more ticks give a strictly longer duration |
| ProcessWindows.NameBefore | ps/process_windows.go:99-105 | the name is the part of the buffer before its first NUL: a NUL-free prefix followed by a NUL |
| ProcessWindows.NameInUnique | ps/process_windows.go:99-105 | a buffer has only one NUL-free prefix that is followed by a NUL |
| ProcessWindows.Decode | ps/process_windows.go:107-111 | the record an entry gives: its pid, its parent's pid and the name before the first NUL |
| ProcessWindows.NewWindowsProcess | ps/process_windows.go:97-112 | the loop stops at the first NUL; the name is the prefix before it; pid and ppid are copied unchanged |
| ProcessWindows.WindowsProcess.Pid | ps/process_windows.go:51-53 | the pid the record was built with |
| ProcessWindows.WindowsProcess.PPid | ps/process_windows.go:55-57 | the parent pid the record was built with |
| ProcessWindows.WindowsProcess.Executable | ps/process_windows.go:59-61 | the executable name the record was built with |
| ProcessWindows.QueryCpuTime | ps/process_windows.go:63-79 | what CPUTime returns: the acquisition error, the GetProcessTimes error, or User from userTime and System from kernelTime |
| ProcessWindows.WindowsProcess.CPUTime | ps/process_windows.go:63-79 | no error exactly when the handle is acquired and the times are read; then User comes from userTime and System from kernelTime; otherwise zero CPUTimes and the first error; the masks tried are the fallback's; an acquired handle is used only while open and is closed as the last call on every path |
| ProcessWindows.WindowsProcess.Kill | ps/process_windows.go:81-95 | no error exactly when os.FindProcess and Kill both succeed; otherwise the first error, unchanged |
| ProcessWindows.Enumerate | ps/process_windows.go:129-156 | what processes returns: the First error message, or the records of First's entry and every Next entry |
| ProcessWindows.EnumerateWalk | ps/process_windows.go:138-155 | a failed First gives the "Error retrieving process info." error; otherwise the records are First's entry, then the entry of each Next call up to the first zero return, so there is at least one |
| ProcessWindows.Processes | ps/process_windows.go:129-156 | the First/Next loop returns what the walk specifies, and a non-empty list on success |
| ProcessWindows.FirstWithPid | ps/process_windows.go:120-126 | the position found is the first one with the pid: no earlier record has it, and a position inside the list has it |
| ProcessWindows.Lookup | ps/process_windows.go:114-127 | what findProcess returns: the enumeration error, the first record with the pid, or no record |
| ProcessWindows.FindProcess | ps/process_windows.go:114-127 | the loop with early return gives the first pid match, no process when none matches, and the enumeration error unchanged |
| ProcessWindows.Filter | ps/process_windows.go:165-171 | the result is no longer than the input and every kept record has the name |
| ProcessWindows.FilterIsSubsequence | ps/process_windows.go:158-174 | the filter's result is a subsequence of the enumeration: it keeps the order |
| ProcessWindows.FilterCounts | ps/process_windows.go:158-174 | every occurrence of a record with the name is kept, and no record with another name is |
| ProcessWindows.FilterEmpty | ps/process_windows.go:158-174 | the filter is empty exactly when no record has the name (case-sensitive, exact equality) |
| ProcessWindows.Select | ps/process_windows.go:158-174 | what filterProcesses returns: the enumeration error, or the records with the name in order |
| ProcessWindows.FilterProcesses | ps/process_windows.go:158-174 | the appending loop returns the filter of the enumeration, or the enumeration error |
| ProcessWindows.Attempts | ps/process_windows.go:181-187 | the loop makes between 1 and 4 attempts; every attempt before the last fails, and stopping early means the last one succeeded |
| ProcessWindows.AcquireHandle | ps/process_windows.go:176-189 | what getProcessHandle returns: the answer of its last OpenProcess attempt |
| ProcessWindows.AcquireHandleFirstSuccess | ps/process_windows.go:176-189 | acquisition succeeds exactly when some mask opens the process, with the first such mask's handle; when all fail it returns the last attempt's error |
| ProcessWindows.AcquireHandleFallback | ps/process_windows.go:181-188 | with the masks as written: the PROCESS_QUERY_INFORMATION handle if that open succeeds, otherwise whatever an open with the zero mask gives |
| ProcessWindows.GetProcessHandle | ps/process_windows.go:176-189 | the loop returns the specified handle or error; it lists its OpenProcess calls in mask order with their answers; it opens at most the returned handle and closes nothing |
| ProcessWindows.CallsWithoutHandle | ps/process_windows.go:64-67 | a measurement that acquired no handle uses and closes none |
| ProcessWindows.CallsOfOneHandle | ps/process_windows.go:68-78 | after the opens, one GetProcessTimes and the deferred CloseHandle keep the handle scoped |
| Ps.Processes | ps/process.go:46-48 | returns exactly the platform walk's result |
| Ps.FindProcess | ps/process.go:50-56 | the platform lookup: the enumeration error unchanged; no process exactly when no record has the pid; a returned process has the pid and is in the enumeration |
| Ps.FilterProcesses | ps/process.go:58-61 | returns exactly the platform filter's result |
| Watchdog.Total | main.go:32 | `cpuTime.User + cpuTime.System` as an int64 addition |
| Watchdog.ShouldKill | main.go:32 | the kill decision: the total is strictly greater than 500 ms |
| Watchdog.Step | main.go:24-41 | one pass of the inner loop: the query; then a fatal error, or the report; then, over the limit, the announcement and the kill, fatal on a kill error |
| Watchdog.Chain | main.go:23-42 | the control of the inner loop: the passes in order, up to and including the first fatal one |
| Watchdog.RunMatches | main.go:23-42 | the inner loop over the matches: the chain of their passes |
| Watchdog.RunCycle | main.go:17-42 | one cycle: a filter error is fatal with an empty trace, otherwise the inner loop over the matches |
| Watchdog.ShouldKillStrict | main.go:32 | when User + System fits in an int64, a process is killed exactly when the total is strictly more than 500 ms, so exactly 500 ms is not killed |
| Watchdog.ShouldKillMonotone | main.go:32 | if the decision fires for one total, it fires for every larger total |
| Watchdog.StepMeasured | main.go:25-41 | a pass whose measurement succeeded queries, reports, and announces and kills exactly when over the limit; it is fatal only when that kill fails |
| Watchdog.HandleMatch | main.go:24-41 | one pass of the inner loop does what the specification of a step says |
| Watchdog.Cycle | main.go:17-42 | the cycle's trace and outcome are those of the specification: filter, then the passes up to the first fatal one |
| Watchdog.QueriedStep | main.go:25 | a pass queries its own process and no other |
| Watchdog.ChainQueried | main.go:23-28 | when each pass queries its own match, the loop queries a prefix of the matches in order, all of them on completion |
| Watchdog.QueriedInOrder | main.go:23-24 | matches are queried in the order the filter returned them; all of them when the cycle completes, at least one when it is fatal |
| Watchdog.ChainStopsAtFatal | main.go:23-41 | a fatal loop is split at its first fatal result: the results before it all completed, their traces come first, then that result's trace, and its outcome is the loop's |
| Watchdog.FatalStopsAtFailingMatch | main.go:23-41 | a fatal cycle has a match k whose pass gives its outcome; the matches before k were fully handled, kills included, and no later match is examined |
| Watchdog.StepFollowsPolicy | main.go:25-41 | in one pass, a kill happens exactly after an over-limit report; it is announced first; the report is CPUTime's answer |
| Watchdog.ChainFollowsPolicy | main.go:23-42 | when every pass follows the kill policy, the whole loop does |
| Watchdog.CycleFollowsKillPolicy | main.go:23-42 | over any probe, about the events present: a process is killed right after a report exactly when that report is over the limit; every kill is announced right before; every report is the measured value |
| Watchdog.CycleKillsOverLimit | main.go:17-42 | on an operating system, about the events present: kills happen exactly after reports over the limit and are announced first; each report is what CPUTime returns for that pid |
| Watchdog.StepAbout | main.go:24-41 | every event of a pass is about that pass's process |
| Watchdog.ChainAbout | main.go:23-42 | every event of the loop is about one of the matches |
| Watchdog.CycleTouchesOnlyAppName | main.go:13-24 | only processes whose executable is "notepad.exe" are measured, reported or killed |
| Watchdog.CycleEnumerationError | main.go:17-21 | a failed enumeration ends the cycle with its error before any query or kill |
| Watchdog.CycleWithoutMatches | main.go:23 | with no process of that name, the cycle queries, prints and kills nothing |
| Watchdog.ChainSplit | main.go:23-42 | when the first k passes complete, the loop runs them and then continues with the rest |
| Watchdog.ChainReachesFatal | main.go:26-28 | a fatal pass after completed ones ends the loop with its outcome, right after the earlier traces |
| Watchdog.ChainReaches | main.go:23-42 | a pass after completed ones appears whole in the loop's trace, right after the earlier traces |
| Watchdog.ChainCompletes | main.go:23-42 | the loop completes exactly when every pass completes |
| Watchdog.MatchHandled | main.go:24-36 | a match the loop reaches and measures is reported with that measurement, and killed exactly when it is over the limit |
| Watchdog.MeasureErrorIsFatal | main.go:24-28 | a CPUTime error at a reached match is fatal with that error, right after its query |
| Watchdog.KillErrorIsFatal | main.go:36-40 | a Kill error at a reached match over the limit is fatal with that error, right after the kill call |
| Watchdog.CycleCompletes | main.go:23-42 | the cycle completes exactly when every match is measured and every kill issued succeeds |
| Watchdog.CycleHandlesReachedMatch | main.go:17-42 | on an operating system, for each reached match: a CPUTime error is fatal with it; otherwise the measurement is reported, the match is killed exactly when over the limit, and a Kill error is fatal with it |

## Left out

- `syscall.UTF16ToString` is a foreign library call, so it is not modelled. Names stay the UTF-16 code units before the NUL, and names are compared unit by unit. The Go code decodes first and then compares strings, so the two comparisons can differ when a name holds an unpaired surrogate.
- The Win32 plumbing is not modelled. This covers lazy DLL loading, `CreateToolhelp32Snapshot`, `Process32FirstW`/`Process32NextW`, `OpenProcess`, `GetProcessTimes`, `CloseHandle`, `os.FindProcess`, `Process.Kill` and the passing of structures by raw address. Each of these is an oracle value; the snapshot oracle lists a finite number of entries.
- The `handle < 0` check on the snapshot handle (ps/process_windows.go:133) is not modelled. It compares a `uintptr`, so it can never be true. A snapshot that could not be created surfaces as a failing First call.
- The deferred `CloseHandle` of the snapshot handle (ps/process_windows.go:136) is not traced. Only the process handle of `CPUTime` is.
- OpenProcess is a pure oracle of (mask, pid). The three retries with the zero mask therefore get the same answer; a real system's answers could change between calls.
- The handle that `os.FindProcess` opens is inside the oracle and is not traced.
- The `Process` interface of ps/process.go is not a separate entity, because the model has no interfaces. `WindowsProcess` is its only implementation, and the `Ps` functions return it directly.
- `ERROR_NO_MORE_FILES` is declared but never used by the source, so it does not appear.
- PROCESSENTRY32 fields that the code never reads (size, usage count, heap and module ids, thread count, priority, flags) are not modelled.
- The infinite outer loop and the ten-second `time.Sleep` of main.go are not modelled. `Cycle` is one pass of the loop body.
- `fmt.Printf` formatting is not modelled: a printed measurement is a `Report` event, and the "Killing process" line is an `Announce` event. `log.Fatal` becomes the `Fatal` outcome, since the process exits.
- A whole cycle runs against one fixed `Os` value. A kill does not change the answers of later CPUTime, OpenProcess or Kill calls in the same cycle, and the CPU counters of a process do not advance between the queries of one cycle. Two equal records in the match list get the same answers.
- The model does not establish that the CPU counters grow between cycles. That is a guarantee of the operating system; the code does not rely on it.
- ProcessWindows.NewWindowsProcess requires a NUL within the 260 code units of `ExeFile`; the Go loop indexes out of range and panics without one. The walk and its callers carry this as `Snapshot.WellFormed()`.
- ProcessWindows.FindProcess, ProcessWindows.FilterProcesses and ProcessWindows.Processes require `Snapshot.WellFormed()` for the same reason.
- ProcessWindows.WindowsProcess.CPUTime: the `calls` list covers the Win32 calls that the measurement itself makes; it says nothing about handles that other code holds.

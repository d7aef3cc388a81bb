/** The Windows implementation of the process provider. The Win32 calls it
    makes (the Toolhelp snapshot walk, OpenProcess, GetProcessTimes,
    CloseHandle, os.FindProcess and Kill) are oracles: values the caller
    supplies, whose answers the model takes as given. */
module ProcessWindows {
  import opened Wrappers
  import opened Go
  import opened PsProcess

  const MAX_PATH: nat := 260

  /** syscall.PROCESS_QUERY_INFORMATION. */
  const PROCESS_QUERY_INFORMATION: uint32 := 0x0400

  /** The access masks getProcessHandle tries, in order. The source writes a
      four-element array literal that names one element, so the other three
      are Go's zero value. */
  const AccessMasks: seq<uint32> := [PROCESS_QUERY_INFORMATION, 0, 0, 0]

  /** The message of the error returned when Process32FirstW fails. */
  const RetrieveInfoMessage: string := "Error retrieving process info."

  type Handle = uintptr

  /** The fixed-size `ExeFile` buffer of a PROCESSENTRY32: UTF-16 code units. */
  type ExeBuffer = s: seq<uint16> | |s| == MAX_PATH witness seq(MAX_PATH, _ => 0)

  /** The fields of PROCESSENTRY32 that the provider reads. */
  datatype ProcessEntry = ProcessEntry(processId: uint32, parentProcessId: uint32, exeFile: ExeBuffer)

  /** A Win32 FILETIME: a 64-bit count of 100-nanosecond ticks split into two words. */
  datatype Filetime = Filetime(lowDateTime: uint32, highDateTime: uint32)

  /** What GetProcessTimes writes into its four out-parameters. */
  datatype ProcessTimes = ProcessTimes(creationTime: Filetime, exitTime: Filetime, kernelTime: Filetime, userTime: Filetime)

  /** The *os.Process that os.FindProcess returns. */
  datatype OsProcess = OsProcess(pid: int, handle: Handle)

  /** A Toolhelp32 process snapshot as the walk sees it: what Process32FirstW
      reports (None for a zero return), then the entries the successive
      Process32NextW calls report before the first zero return. */
  datatype Snapshot = Snapshot(first: Option<ProcessEntry>, following: seq<ProcessEntry>) {

    function First(): Option<ProcessEntry>
    {
      first
    }

    /** The answer of the k-th Process32NextW call, counting from 0. */
    function Next(k: nat): Option<ProcessEntry>
    {
      if k < |following| then Some(following[k]) else None
    }

    /** Windows writes a NUL-terminated name into every entry. */
    predicate WellFormed()
    {
      (first.Some? ==> 0 in first.value.exeFile) &&
      forall k :: 0 <= k < |following| ==> 0 in following[k].exeFile
    }
  }

  /** The operating system as the provider sees it. */
  datatype Os = Os(
    snapshot: Snapshot,
    openProcess: (uint32, int) -> Result<Handle, Error>,
    getProcessTimes: Handle -> Result<ProcessTimes, Error>,
    findProcess: int -> Result<OsProcess, Error>,
    kill: OsProcess -> Option<Error>)

  /** One Win32 call made while measuring a process, with what it returned. */
  datatype OsCall =
    | OpenProcess(access: uint32, pid: int, result: Result<Handle, Error>)
    | GetProcessTimes(handle: Handle)
    | CloseHandle(handle: Handle)

  //---------------------------------------------------------------------------
  // Tick-to-duration conversion
  //---------------------------------------------------------------------------

  /** The 64-bit tick count a FILETIME denotes exactly. */
  function Ticks(ft: Filetime): nat
  {
    ft.highDateTime as int * TWO_32 + ft.lowDateTime as int
  }

  /** filetimeToDuration, with Go's int64 arithmetic spelled out:
      `int64(High)<<32 + int64(Low)`, then `* 100`. */
  function FiletimeToDuration(ft: Filetime): Duration
  {
    var n := Add64(ShiftLeft32(ft.highDateTime as int64), ft.lowDateTime as int64);
    Mul64(n, 100)
  }

  /** The conversion is the exact number of nanoseconds, wrapped to int64. */
  lemma FiletimeToDurationClosedForm(ft: Filetime)
    ensures FiletimeToDuration(ft) == Wrap64(Ticks(ft) * 100)
  {
    var hi := ft.highDateTime as int64;
    var lo := ft.lowDateTime as int64;
    var s := ShiftLeft32(hi);
    var n := Add64(s, lo);
    Wrap64Residue(hi as int * TWO_32);
    Wrap64Residue(s as int + lo as int);
    ModuloSum(n as int - (s as int + lo as int), s as int - hi as int * TWO_32);
    assert (n as int - Ticks(ft)) % TWO_64 == 0;
    var d := n as int - Ticks(ft);
    var q := d / TWO_64;
    assert d == q * TWO_64;
    assert n as int * 100 - Ticks(ft) * 100 == (q * 100) * TWO_64;
    Wrap64Congruent(n as int * 100, Ticks(ft) * 100);
  }

  /** Below the int64 limit the conversion is exact: ticks times 100 ns. */
  lemma FiletimeToDurationExact(ft: Filetime)
    requires Ticks(ft) * 100 < TWO_63
    ensures FiletimeToDuration(ft) as int == Ticks(ft) * 100
  {
    FiletimeToDurationClosedForm(ft);
    Wrap64InRange(Ticks(ft) * 100);
  }

  /** With a zero high word the duration is the low word times 100 ns. */
  lemma FiletimeToDurationLowWord(ft: Filetime)
    requires ft.highDateTime == 0
    ensures FiletimeToDuration(ft) as int == ft.lowDateTime as int * 100
  {
    FiletimeToDurationExact(ft);
  }

  /** Within the no-overflow range more ticks give a strictly longer duration. */
  lemma FiletimeToDurationMonotone(a: Filetime, b: Filetime)
    requires Ticks(a) < Ticks(b)
    requires Ticks(b) * 100 < TWO_63
    ensures FiletimeToDuration(a) < FiletimeToDuration(b)
  {
    FiletimeToDurationExact(a);
    FiletimeToDurationExact(b);
  }

  //---------------------------------------------------------------------------
  // Entry decoding
  //---------------------------------------------------------------------------

  /** `name` is the part of `buf` before its first NUL code unit. */
  predicate IsNameIn(buf: seq<uint16>, name: seq<uint16>)
  {
    |name| < |buf| && name == buf[..|name|] && buf[|name|] == 0 && 0 !in name
  }

  /** A buffer has at most one name before its first NUL. */
  lemma NameInUnique(buf: seq<uint16>, a: seq<uint16>, b: seq<uint16>)
    requires IsNameIn(buf, a) && IsNameIn(buf, b)
    ensures a == b
  {
    assert forall k :: 0 <= k < |b| ==> buf[k] == b[k] != 0;
    assert forall k :: 0 <= k < |a| ==> buf[k] == a[k] != 0;
  }

  /** The code units of `buf` before its first NUL. */
  function NameBefore(buf: seq<uint16>): (name: seq<uint16>)
    requires 0 in buf
    ensures IsNameIn(buf, name)
  {
    if buf[0] == 0 then [] else [buf[0]] + NameBefore(buf[1..])
  }

  /** The process an entry describes. */
  function Decode(e: ProcessEntry): WindowsProcess
    requires 0 in e.exeFile
  {
    WindowsProcess(e.processId as int, e.parentProcessId as int, NameBefore(e.exeFile))
  }

  /** newWindowsProcess: find the first NUL by counting up from 0, take the
      name before it, and copy the two ids. */
  method NewWindowsProcess(e: ProcessEntry) returns (p: WindowsProcess)
    requires 0 in e.exeFile
    ensures p == Decode(e)
    ensures IsNameIn(e.exeFile, p.Executable())
    ensures p.Pid() == e.processId as int && p.PPid() == e.parentProcessId as int
  {
    var end := 0;
    while true
      invariant 0 <= end < MAX_PATH
      invariant 0 !in e.exeFile[..end]
      invariant 0 in e.exeFile[end..]
      decreases MAX_PATH - end
    {
      if e.exeFile[end] == 0 {
        break;
      }
      assert e.exeFile[..end + 1] == e.exeFile[..end] + [e.exeFile[end]];
      assert e.exeFile[end..] == [e.exeFile[end]] + e.exeFile[end + 1..];
      end := end + 1;
    }
    p := WindowsProcess(e.processId as int, e.parentProcessId as int, e.exeFile[..end]);
    NameInUnique(e.exeFile, p.exe, NameBefore(e.exeFile));
  }

  //---------------------------------------------------------------------------
  // The process record
  //---------------------------------------------------------------------------

  /** A process seen in a snapshot: its id, its parent's id and the UTF-16
      code units of its executable's base name. */
  datatype WindowsProcess = WindowsProcess(pid: int, ppid: int, exe: seq<uint16>) {

    function Pid(): int
    {
      pid
    }

    function PPid(): int
    {
      ppid
    }

    function Executable(): seq<uint16>
    {
      exe
    }

    /** CPUTime: acquire a handle, read the process times, release the
        handle. Returns the times with no error, or the zero times and the
        first error; `calls` lists the Win32 calls made, in order. */
    method CPUTime(os: Os) returns (times: CPUTimes, err: Option<Error>, calls: seq<OsCall>)
      ensures err.None? <==> QueryCpuTime(os, pid).Ok?
      ensures err.None? ==> times == QueryCpuTime(os, pid).value
      ensures err.Some? ==> err.value == QueryCpuTime(os, pid).error && times == ZeroTimes
      ensures OpenAttempts(calls) == AccessMasks[..Attempts(os.openProcess, AccessMasks, pid)]
      ensures HandleScoped(calls)
      ensures |Opened(calls)| == (if AcquireHandle(os, pid).Ok? then 1 else 0)
    {
      var h;
      h, calls := GetProcessHandle(os, pid);
      if h.Err? {
        CallsWithoutHandle(calls);
        return ZeroTimes, Some(h.error), calls;
      }
      var handle := h.value;
      var opens := calls;
      var pt := os.getProcessTimes(handle);
      // the deferred syscall.CloseHandle(handle) runs on both paths below
      calls := calls + [GetProcessTimes(handle), CloseHandle(handle)];
      CallsOfOneHandle(opens, handle);
      if pt.Err? {
        return ZeroTimes, Some(pt.error), calls;
      }
      times := CPUTimes(FiletimeToDuration(pt.value.userTime), FiletimeToDuration(pt.value.kernelTime));
      err := None;
    }

    /** Kill: look the process up with os.FindProcess, then kill it; the
        first error is returned unchanged. */
    function Kill(os: Os): (err: Option<Error>)
      ensures err.None? <==> os.findProcess(pid).Ok? && os.kill(os.findProcess(pid).value).None?
      ensures os.findProcess(pid).Err? ==> err == Some(os.findProcess(pid).error)
      ensures os.findProcess(pid).Ok? && err.Some? ==> err == os.kill(os.findProcess(pid).value)
    {
      match os.findProcess(pid)
      case Err(e) => Some(e)
      case Ok(process) => os.kill(process)
    }
  }

  //---------------------------------------------------------------------------
  // The snapshot walk
  //---------------------------------------------------------------------------

  /** The entries the walk visits: the First entry, then every Next entry. */
  function Entries(snap: Snapshot): seq<ProcessEntry>
    requires snap.first.Some?
  {
    [snap.first.value] + snap.following
  }

  function DecodeAll(es: seq<ProcessEntry>): seq<WindowsProcess>
    requires forall k :: 0 <= k < |es| ==> 0 in es[k].exeFile
  {
    seq(|es|, k requires 0 <= k < |es| => Decode(es[k]))
  }

  /** What processes() returns for a snapshot. */
  function Enumerate(snap: Snapshot): Result<seq<WindowsProcess>, Error>
    requires snap.WellFormed()
  {
    if snap.first.None? then Err(ErrorString(RetrieveInfoMessage))
    else Ok(DecodeAll(Entries(snap)))
  }

  /** The walk protocol: an error and no records when First fails; otherwise
      one record per call, First's entry first and then the k-th Next entry
      at k + 1, ending at the first Next that reports zero. */
  lemma EnumerateWalk(snap: Snapshot)
    requires snap.WellFormed()
    ensures Enumerate(snap).Err? <==> snap.First().None?
    ensures Enumerate(snap).Err? ==> Enumerate(snap).error == ErrorString(RetrieveInfoMessage)
    ensures Enumerate(snap).Ok? ==>
      var ps := Enumerate(snap).value;
      && |ps| > 0
      && ps[0] == Decode(snap.First().value)
      && (forall k :: 0 <= k < |ps| - 1 ==> snap.Next(k).Some? && ps[k + 1] == Decode(snap.Next(k).value))
      && snap.Next(|ps| - 1).None?
  {
  }

  /** processes(): call First; on success record its entry and keep calling
      Next, recording each entry, until Next reports zero. */
  method Processes(snap: Snapshot) returns (r: Result<seq<WindowsProcess>, Error>)
    requires snap.WellFormed()
    ensures r == Enumerate(snap)
    ensures r.Ok? ==> |r.value| > 0
  {
    var ret := snap.First();
    if ret.None? {
      return Err(ErrorString(RetrieveInfoMessage));
    }
    var entry := ret.value;
    var results: seq<WindowsProcess> := [];
    var calls: nat := 0;
    while true
      invariant calls <= |snap.following|
      invariant entry == Entries(snap)[calls]
      invariant results == DecodeAll(Entries(snap)[..calls])
      decreases |snap.following| - calls
    {
      var p := NewWindowsProcess(entry);
      assert Entries(snap)[..calls + 1] == Entries(snap)[..calls] + [entry];
      assert DecodeAll(Entries(snap)[..calls + 1]) == results + [p];
      results := results + [p];
      var next := snap.Next(calls);
      if next.None? {
        break;
      }
      entry := next.value;
      calls := calls + 1;
    }
    assert Entries(snap)[..calls + 1] == Entries(snap);
    r := Ok(results);
  }

  //---------------------------------------------------------------------------
  // Lookup by pid
  //---------------------------------------------------------------------------

  /** The position of the first record with the given pid, or |ps| if none. */
  function FirstWithPid(ps: seq<WindowsProcess>, pid: int): (k: nat)
    ensures k <= |ps|
    ensures forall j :: 0 <= j < k ==> ps[j].Pid() != pid
    ensures k < |ps| ==> ps[k].Pid() == pid
  {
    if ps == [] then 0
    else if ps[0].Pid() == pid then 0
    else 1 + FirstWithPid(ps[1..], pid)
  }

  /** What findProcess returns for a snapshot. */
  function Lookup(snap: Snapshot, pid: int): Result<Option<WindowsProcess>, Error>
    requires snap.WellFormed()
  {
    match Enumerate(snap)
    case Err(e) => Err(e)
    case Ok(ps) =>
      var k := FirstWithPid(ps, pid);
      Ok(if k < |ps| then Some(ps[k]) else None)
  }

  /** findProcess: enumerate, then return the first record whose pid matches. */
  method FindProcess(snap: Snapshot, pid: int) returns (r: Result<Option<WindowsProcess>, Error>)
    requires snap.WellFormed()
    ensures r == Lookup(snap, pid)
  {
    var ps := Processes(snap);
    if ps.Err? {
      return Err(ps.error);
    }
    var i := 0;
    while i < |ps.value|
      invariant 0 <= i <= |ps.value|
      invariant forall j :: 0 <= j < i ==> ps.value[j].Pid() != pid
    {
      var p := ps.value[i];
      if p.Pid() == pid {
        return Ok(Some(p));
      }
      i := i + 1;
    }
    return Ok(None);
  }

  //---------------------------------------------------------------------------
  // Filter by executable name
  //---------------------------------------------------------------------------

  /** The records whose executable name is exactly `name`, in order. */
  function Filter(ps: seq<WindowsProcess>, name: seq<uint16>): (r: seq<WindowsProcess>)
    ensures |r| <= |ps|
    ensures forall k :: 0 <= k < |r| ==> r[k].Executable() == name
  {
    if ps == [] then []
    else
      var rest := Filter(ps[..|ps| - 1], name);
      if ps[|ps| - 1].Executable() == name then rest + [ps[|ps| - 1]] else rest
  }

  /** `a` can be obtained from `b` by deleting elements. */
  predicate IsSubsequence<T(==)>(a: seq<T>, b: seq<T>)
    decreases |b|
  {
    if a == [] then true
    else if b == [] then false
    else (a[|a| - 1] == b[|b| - 1] && IsSubsequence(a[..|a| - 1], b[..|b| - 1])) || IsSubsequence(a, b[..|b| - 1])
  }

  /** Filtering keeps the order of the enumeration. */
  lemma {:induction false} FilterIsSubsequence(ps: seq<WindowsProcess>, name: seq<uint16>)
    ensures IsSubsequence(Filter(ps, name), ps)
  {
    if ps != [] {
      var init := ps[..|ps| - 1];
      FilterIsSubsequence(init, name);
      var f := Filter(init, name);
      if ps[|ps| - 1].Executable() == name {
        assert (f + [ps[|ps| - 1]])[..|f|] == f;
      }
    }
  }

  /** Filtering keeps every occurrence of a matching record and no other record. */
  lemma {:induction false} FilterCounts(ps: seq<WindowsProcess>, name: seq<uint16>, p: WindowsProcess)
    ensures multiset(Filter(ps, name))[p] == if p.Executable() == name then multiset(ps)[p] else 0
  {
    if ps != [] {
      var init := ps[..|ps| - 1];
      FilterCounts(init, name, p);
      assert ps == init + [ps[|ps| - 1]];
    }
  }

  /** The filter is empty exactly when no record has the name. */
  lemma FilterEmpty(ps: seq<WindowsProcess>, name: seq<uint16>)
    ensures Filter(ps, name) == [] <==> forall k :: 0 <= k < |ps| ==> ps[k].Executable() != name
  {
    if Filter(ps, name) == [] {
      forall k | 0 <= k < |ps|
        ensures ps[k].Executable() != name
      {
        FilterCounts(ps, name, ps[k]);
      }
    } else {
      var p := Filter(ps, name)[0];
      FilterCounts(ps, name, p);
    }
  }

  /** What filterProcesses returns for a snapshot. */
  function Select(snap: Snapshot, name: seq<uint16>): Result<seq<WindowsProcess>, Error>
    requires snap.WellFormed()
  {
    match Enumerate(snap)
    case Err(e) => Err(e)
    case Ok(ps) => Ok(Filter(ps, name))
  }

  /** filterProcesses: enumerate, then append each record whose name is `name`. */
  method FilterProcesses(snap: Snapshot, name: seq<uint16>) returns (r: Result<seq<WindowsProcess>, Error>)
    requires snap.WellFormed()
    ensures r == Select(snap, name)
  {
    var processes := Processes(snap);
    if processes.Err? {
      return Err(processes.error);
    }
    var ps := processes.value;
    var filtered: seq<WindowsProcess> := [];
    var i := 0;
    while i < |ps|
      invariant 0 <= i <= |ps|
      invariant filtered == Filter(ps[..i], name)
    {
      var v := ps[i];
      assert ps[..i + 1][..i] == ps[..i];
      if v.Executable() == name {
        filtered := filtered + [v];
      }
      i := i + 1;
    }
    assert ps[..i] == ps;
    r := Ok(filtered);
  }

  //---------------------------------------------------------------------------
  // Handle acquisition with permission fallback
  //---------------------------------------------------------------------------

  /** How many OpenProcess calls the fallback loop makes: it stops after the
      first success, and after the last mask otherwise. */
  function Attempts(open: (uint32, int) -> Result<Handle, Error>, masks: seq<uint32>, pid: int): (n: nat)
    requires masks != []
    ensures 1 <= n <= |masks|
    ensures forall j :: 0 <= j < n - 1 ==> open(masks[j], pid).Err?
    ensures n < |masks| ==> open(masks[n - 1], pid).Ok?
    decreases |masks|
  {
    if |masks| == 1 || open(masks[0], pid).Ok? then 1
    else 1 + Attempts(open, masks[1..], pid)
  }

  /** What getProcessHandle returns: the answer of its last attempt. */
  function AcquireHandle(os: Os, pid: int): Result<Handle, Error>
  {
    var n := Attempts(os.openProcess, AccessMasks, pid);
    os.openProcess(AccessMasks[n - 1], pid)
  }

  /** With the source's mask table the fallback amounts to: the
      PROCESS_QUERY_INFORMATION handle if that open succeeds, otherwise
      whatever an open with no access rights gives. */
  lemma AcquireHandleFallback(os: Os, pid: int)
    ensures os.openProcess(PROCESS_QUERY_INFORMATION, pid).Ok? ==>
      AcquireHandle(os, pid) == os.openProcess(PROCESS_QUERY_INFORMATION, pid)
    ensures os.openProcess(PROCESS_QUERY_INFORMATION, pid).Err? ==>
      AcquireHandle(os, pid) == os.openProcess(0, pid)
  {
    var n := Attempts(os.openProcess, AccessMasks, pid);
    assert AccessMasks[0] == PROCESS_QUERY_INFORMATION;
    assert forall j :: 1 <= j < 4 ==> AccessMasks[j] == 0;
  }

  /** getProcessHandle succeeds exactly when one of the masks opens the
      process, and then with the handle of the first mask that does; when
      every mask fails it returns the error of the last attempt. */
  lemma AcquireHandleFirstSuccess(os: Os, pid: int)
    ensures AcquireHandle(os, pid).Ok? <==>
      exists j :: 0 <= j < |AccessMasks| && os.openProcess(AccessMasks[j], pid).Ok?
    ensures AcquireHandle(os, pid).Ok? ==>
      var n := Attempts(os.openProcess, AccessMasks, pid);
      && AcquireHandle(os, pid) == os.openProcess(AccessMasks[n - 1], pid)
      && forall j :: 0 <= j < n - 1 ==> os.openProcess(AccessMasks[j], pid).Err?
    ensures (forall j :: 0 <= j < |AccessMasks| ==> os.openProcess(AccessMasks[j], pid).Err?) ==>
      AcquireHandle(os, pid) == os.openProcess(AccessMasks[|AccessMasks| - 1], pid)
  {
    var n := Attempts(os.openProcess, AccessMasks, pid);
    if exists j :: 0 <= j < |AccessMasks| && os.openProcess(AccessMasks[j], pid).Ok? {
      var j :| 0 <= j < |AccessMasks| && os.openProcess(AccessMasks[j], pid).Ok?;
      assert n - 1 <= j;
    }
  }

  /** The OpenProcess calls for the given masks, with the oracle's answers. */
  function OpenCalls(os: Os, masks: seq<uint32>, pid: int): seq<OsCall>
  {
    seq(|masks|, k requires 0 <= k < |masks| => OpenProcess(masks[k], pid, os.openProcess(masks[k], pid)))
  }

  /** The masks of the OpenProcess calls in a call list, in order. */
  function OpenAttempts(calls: seq<OsCall>): seq<uint32>
  {
    if calls == [] then []
    else
      var last := calls[|calls| - 1];
      OpenAttempts(calls[..|calls| - 1]) + (if last.OpenProcess? then [last.access] else [])
  }

  /** The handles successfully opened in a call list, in order. */
  function Opened(calls: seq<OsCall>): seq<Handle>
  {
    if calls == [] then []
    else
      var last := calls[|calls| - 1];
      Opened(calls[..|calls| - 1]) + (if last.OpenProcess? && last.result.Ok? then [last.result.value] else [])
  }

  /** The handles closed in a call list, in order. */
  function Closed(calls: seq<OsCall>): seq<Handle>
  {
    if calls == [] then []
    else
      var last := calls[|calls| - 1];
      Closed(calls[..|calls| - 1]) + (if last.CloseHandle? then [last.handle] else [])
  }

  /** Scoped acquisition: every handle opened is closed once, in opening
      order; a handle is only used while it is open; and when a handle was
      opened, closing it is the last call. */
  ghost predicate HandleScoped(calls: seq<OsCall>)
  {
    && Closed(calls) == Opened(calls)
    && (forall i :: 0 <= i < |calls| && calls[i].GetProcessTimes? ==>
          calls[i].handle in Opened(calls[..i]) && calls[i].handle !in Closed(calls[..i]))
    && (Opened(calls) != [] ==> calls[|calls| - 1].CloseHandle?)
  }

  /** getProcessHandle: try the masks in order and stop at the first success;
      the result is that of the last attempt. */
  method GetProcessHandle(os: Os, pid: int) returns (r: Result<Handle, Error>, calls: seq<OsCall>)
    ensures r == AcquireHandle(os, pid)
    ensures calls == OpenCalls(os, AccessMasks[..Attempts(os.openProcess, AccessMasks, pid)], pid)
    ensures OpenAttempts(calls) == AccessMasks[..Attempts(os.openProcess, AccessMasks, pid)]
    ensures Opened(calls) == (if r.Ok? then [r.value] else [])
    ensures Closed(calls) == []
    ensures forall i :: 0 <= i < |calls| ==> calls[i].OpenProcess?
  {
    r := Ok(0);  // Go's zero values: handle 0, err nil
    calls := [];
    var i := 0;
    while i < |AccessMasks|
      invariant 0 <= i <= |AccessMasks|
      invariant forall j :: 0 <= j < i ==> os.openProcess(AccessMasks[j], pid).Err?
      invariant calls == OpenCalls(os, AccessMasks[..i], pid)
      invariant OpenAttempts(calls) == AccessMasks[..i]
      invariant Opened(calls) == [] && Closed(calls) == []
      invariant i > 0 ==> r == os.openProcess(AccessMasks[i - 1], pid)
    {
      r := os.openProcess(AccessMasks[i], pid);
      var call := OpenProcess(AccessMasks[i], pid, r);
      assert (calls + [call])[..|calls|] == calls;
      assert AccessMasks[..i + 1] == AccessMasks[..i] + [AccessMasks[i]];
      calls := calls + [call];
      i := i + 1;
      if r.Ok? {
        break;
      }
    }
  }

  /** A call list of failed opens only is trivially scoped. */
  lemma CallsWithoutHandle(opens: seq<OsCall>)
    requires Opened(opens) == [] && Closed(opens) == []
    requires forall i :: 0 <= i < |opens| ==> opens[i].OpenProcess?
    ensures HandleScoped(opens)
  {
  }

  /** The call list of a measurement that acquired `h`: the opens, one read and one close. */
  lemma CallsOfOneHandle(opens: seq<OsCall>, h: Handle)
    requires Opened(opens) == [h] && Closed(opens) == []
    requires forall i :: 0 <= i < |opens| ==> opens[i].OpenProcess?
    ensures var calls := opens + [GetProcessTimes(h), CloseHandle(h)];
      HandleScoped(calls) && Opened(calls) == [h] &&
      OpenAttempts(calls) == OpenAttempts(opens)
  {
    var mid := opens + [GetProcessTimes(h)];
    var calls := mid + [CloseHandle(h)];
    assert calls[..|mid|] == mid;
    assert mid[..|opens|] == opens;
    assert calls == opens + [GetProcessTimes(h), CloseHandle(h)];
    forall i | 0 <= i < |calls| && calls[i].GetProcessTimes?
      ensures calls[i].handle in Opened(calls[..i]) && calls[i].handle !in Closed(calls[..i])
    {
      assert i == |opens|;
      assert calls[..i] == opens;
    }
  }

  /** What CPUTime returns for a pid: the user and kernel times of the
      process, read through the handle the fallback acquires. */
  function QueryCpuTime(os: Os, pid: int): Result<CPUTimes, Error>
  {
    match AcquireHandle(os, pid)
    case Err(e) => Err(e)
    case Ok(h) =>
      match os.getProcessTimes(h)
      case Err(e) => Err(e)
      case Ok(pt) => Ok(CPUTimes(FiletimeToDuration(pt.userTime), FiletimeToDuration(pt.kernelTime)))
  }
}

/** The platform-independent types of the `ps` package. */
module PsProcess {
  import opened Go

  /** The CPU time a process has used since it was created: `user` is its
      user-mode time and `system` its kernel-mode time, two independent
      durations. */
  datatype CPUTimes = CPUTimes(user: Duration, system: Duration)

  /** The zero value `CPUTimes{}` returned beside an error. */
  const ZeroTimes: CPUTimes := CPUTimes(0, 0)
}

/** The public functions of the `ps` package. Each one delegates to the
    Windows implementation and adds nothing of its own. */
module Ps {
  import opened Wrappers
  import opened Go
  import PW = ProcessWindows

  /** All processes in the snapshot, exactly as the platform walk returns them. */
  method Processes(snap: PW.Snapshot) returns (r: Result<seq<PW.WindowsProcess>, Error>)
    requires snap.WellFormed()
    ensures r == PW.Enumerate(snap)
  {
    r := PW.Processes(snap);
  }

  /** The first process with the given pid; no process and no error when there is none. */
  method FindProcess(snap: PW.Snapshot, pid: int) returns (r: Result<Option<PW.WindowsProcess>, Error>)
    requires snap.WellFormed()
    ensures r == PW.Lookup(snap, pid)
    ensures PW.Enumerate(snap).Err? ==> r == Err(PW.Enumerate(snap).error)
    ensures PW.Enumerate(snap).Ok? ==>
      var ps := PW.Enumerate(snap).value;
      r.Ok? && (r.value.None? <==> forall k :: 0 <= k < |ps| ==> ps[k].Pid() != pid)
    ensures r.Ok? && r.value.Some? ==> r.value.value.Pid() == pid && r.value.value in PW.Enumerate(snap).value
  {
    r := PW.FindProcess(snap, pid);
  }

  /** The processes whose executable name is exactly `name`, in enumeration order. */
  method FilterProcesses(snap: PW.Snapshot, name: seq<uint16>) returns (r: Result<seq<PW.WindowsProcess>, Error>)
    requires snap.WellFormed()
    ensures r == PW.Select(snap, name)
  {
    r := PW.FilterProcesses(snap, name);
  }
}

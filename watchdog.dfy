/** One cycle of the watchdog loop in main.go: list the processes named
    AppName, measure each one's CPU time in order, and kill every one whose
    user plus kernel time exceeds 500 ms. Any error ends the program. */
module Watchdog {
  import opened Wrappers
  import opened Go
  import opened PsProcess
  import opened ProcessWindows
  import Ps

  /** "notepad.exe" as UTF-16 code units. */
  const AppName: seq<uint16> := [0x6E, 0x6F, 0x74, 0x65, 0x70, 0x61, 0x64, 0x2E, 0x65, 0x78, 0x65]

  /** The CPU-time limit: 500 ms. */
  const Threshold: Duration := 500 * Millisecond

  /** `cpuTime.User + cpuTime.System`, an int64 addition. */
  function Total(t: CPUTimes): Duration
  {
    Add64(t.user, t.system)
  }

  /** The kill decision of one measurement. */
  predicate ShouldKill(t: CPUTimes)
  {
    Total(t) > Threshold
  }

  /** When the sum fits in an int64, a process is killed exactly when its
      user and kernel times add up to strictly more than 500 ms. */
  lemma ShouldKillStrict(t: CPUTimes)
    requires -TWO_63 <= t.user as int + t.system as int < TWO_63
    ensures ShouldKill(t) <==> t.user as int + t.system as int > 500_000_000
  {
    Wrap64InRange(t.user as int + t.system as int);
  }

  /** The decision is monotone: if it fires for one total it fires for every
      larger total. */
  lemma ShouldKillMonotone(a: CPUTimes, b: CPUTimes)
    requires -TWO_63 <= a.user as int + a.system as int <= b.user as int + b.system as int < TWO_63
    ensures ShouldKill(a) ==> ShouldKill(b)
  {
    Wrap64InRange(a.user as int + a.system as int);
    Wrap64InRange(b.user as int + b.system as int);
  }

  /** What one cycle does, as seen from outside: a measurement is started,
      a measurement is printed, a kill is announced, a kill is issued. */
  datatype Event =
    | Query(p: WindowsProcess)
    | Report(p: WindowsProcess, times: CPUTimes)
    | Announce(p: WindowsProcess)
    | KillCall(p: WindowsProcess)

  /** How a cycle ends: it runs to completion, or log.Fatal ends the program. */
  datatype Outcome = Completed | Fatal(error: Error)

  datatype CycleResult = CycleResult(trace: seq<Event>, outcome: Outcome)

  /** What a cycle learns about a matched process: the answer of its CPUTime
      and the answer of its Kill. */
  datatype Probe = Probe(measure: WindowsProcess -> Result<CPUTimes, Error>, kill: WindowsProcess -> Option<Error>)

  /** The answers the provider gives on a given operating system. */
  function ProbeOf(os: Os): Probe
  {
    Probe((p: WindowsProcess) => QueryCpuTime(os, p.Pid()), (p: WindowsProcess) => p.Kill(os))
  }

  /** The loop body for one matched process. */
  function Step(pr: Probe, p: WindowsProcess): CycleResult
  {
    match pr.measure(p)
    case Err(e) => CycleResult([Query(p)], Fatal(e))
    case Ok(t) =>
      if !ShouldKill(t) then CycleResult([Query(p), Report(p, t)], Completed)
      else
        var outcome := match pr.kill(p) case None => Completed case Some(e) => Fatal(e);
        CycleResult([Query(p), Report(p, t), Announce(p), KillCall(p)], outcome)
  }

  /** The trace `prefix` followed by the result `r`. */
  function Then(prefix: seq<Event>, r: CycleResult): CycleResult
  {
    CycleResult(prefix + r.trace, r.outcome)
  }

  /** The control of the inner loop: the passes' results in order, up to
      and including the first fatal one. */
  function Chain(rs: seq<CycleResult>): CycleResult
  {
    if rs == [] then CycleResult([], Completed)
    else if rs[0].outcome.Fatal? then rs[0]
    else Then(rs[0].trace, Chain(rs[1..]))
  }

  /** The result each pass would have, one per match. */
  function Steps(pr: Probe, ms: seq<WindowsProcess>): seq<CycleResult>
  {
    seq(|ms|, k requires 0 <= k < |ms| => Step(pr, ms[k]))
  }

  /** The inner loop over the matches, stopping at the first fatal step. */
  function RunMatches(pr: Probe, ms: seq<WindowsProcess>): CycleResult
  {
    Chain(Steps(pr, ms))
  }

  /** One cycle: filter by name, then the inner loop. */
  function RunCycle(os: Os): CycleResult
    requires os.snapshot.WellFormed()
  {
    match Select(os.snapshot, AppName)
    case Err(e) => CycleResult([], Fatal(e))
    case Ok(ms) => RunMatches(ProbeOf(os), ms)
  }

  lemma ChainAt(rs: seq<CycleResult>, i: nat)
    requires i < |rs|
    ensures Chain(rs[i..]) ==
      if rs[i].outcome.Fatal? then rs[i] else Then(rs[i].trace, Chain(rs[i + 1..]))
  {
    assert rs[i..][0] == rs[i] && rs[i..][1..] == rs[i + 1..];
  }

  lemma ThenThen(a: seq<Event>, b: seq<Event>, r: CycleResult)
    ensures Then(a, Then(b, r)) == Then(a + b, r)
  {
    assert a + (b + r.trace) == (a + b) + r.trace;
  }

  /** The shape of a step whose measurement succeeded. */
  lemma StepMeasured(pr: Probe, p: WindowsProcess, t: CPUTimes)
    requires pr.measure(p) == Ok(t)
    ensures Step(pr, p).trace ==
      [Query(p), Report(p, t)] + (if ShouldKill(t) then [Announce(p), KillCall(p)] else [])
    ensures Step(pr, p).outcome ==
      if ShouldKill(t) && pr.kill(p).Some? then Fatal(pr.kill(p).value) else Completed
  {
  }

  /** One pass of the inner loop: measure, print, and kill when over the
      limit; `events` is what the pass did, `outcome` whether it ended the
      program. */
  method HandleMatch(os: Os, proc: WindowsProcess) returns (events: seq<Event>, outcome: Outcome)
    ensures CycleResult(events, outcome) == Step(ProbeOf(os), proc)
  {
    ghost var pr := ProbeOf(os);
    events := [Query(proc)];
    var cpuTime, err, _ := proc.CPUTime(os);
    assert pr.measure(proc) == QueryCpuTime(os, proc.Pid());
    if err.Some? {
      return events, Fatal(err.value);
    }
    StepMeasured(pr, proc, cpuTime);
    events := events + [Report(proc, cpuTime)];
    outcome := Completed;
    if ShouldKill(cpuTime) {
      events := events + [Announce(proc)];
      events := events + [KillCall(proc)];
      var killErr := proc.Kill(os);
      assert pr.kill(proc) == killErr;
      if killErr.Some? {
        outcome := Fatal(killErr.value);
      }
    }
  }

  /** The body of main's outer loop, without the sleep. */
  method Cycle(os: Os) returns (trace: seq<Event>, outcome: Outcome)
    requires os.snapshot.WellFormed()
    ensures CycleResult(trace, outcome) == RunCycle(os)
  {
    var processes := Ps.FilterProcesses(os.snapshot, AppName);
    if processes.Err? {
      return [], Fatal(processes.error);
    }
    var ms := processes.value;
    ghost var rs := Steps(ProbeOf(os), ms);
    trace := [];
    var i := 0;
    while i < |ms|
      invariant 0 <= i <= |ms|
      invariant Chain(rs) == Then(trace, Chain(rs[i..]))
    {
      ChainAt(rs, i);
      var events, result := HandleMatch(os, ms[i]);
      if result.Fatal? {
        return trace + events, result;
      }
      ThenThen(trace, events, Chain(rs[i + 1..]));
      trace := trace + events;
      i := i + 1;
    }
    assert rs[i..] == [];
    outcome := Completed;
  }

  //---------------------------------------------------------------------------
  // Properties of a cycle
  //---------------------------------------------------------------------------

  /** The processes queried, in order. */
  function Queried(trace: seq<Event>): seq<WindowsProcess>
  {
    if trace == [] then []
    else (if trace[0].Query? then [trace[0].p] else []) + Queried(trace[1..])
  }

  lemma {:induction false} QueriedAppend(a: seq<Event>, b: seq<Event>)
    ensures Queried(a + b) == Queried(a) + Queried(b)
  {
    if a == [] {
      assert a + b == b;
    } else {
      assert (a + b)[0] == a[0];
      assert (a + b)[1..] == a[1..] + b;
      QueriedAppend(a[1..], b);
    }
  }

  lemma QueriedOne(e: Event)
    ensures Queried([e]) == if e.Query? then [e.p] else []
  {
    assert [e][1..] == [];
  }

  /** A step queries its own process and no other. */
  lemma QueriedStep(pr: Probe, p: WindowsProcess)
    ensures Queried(Step(pr, p).trace) == [p]
  {
    var t := Step(pr, p).trace;
    QueriedOne(Query(p));
    if |t| > 1 {
      QueriedOne(t[1]);
      QueriedAppend([t[0]], [t[1]]);
      assert t[..2] == [t[0]] + [t[1]];
      if |t| > 2 {
        QueriedOne(t[2]);
        QueriedOne(t[3]);
        QueriedAppend([t[2]], [t[3]]);
        QueriedAppend(t[..2], [t[2]] + [t[3]]);
        assert t == t[..2] + ([t[2]] + [t[3]]);
      } else {
        assert t == t[..2];
      }
    }
  }

  /** When every pass queries exactly its own match, the loop queries a
      prefix of the matches in order, all of them when it completes. */
  lemma {:induction false} ChainQueried(rs: seq<CycleResult>, ms: seq<WindowsProcess>)
    requires |rs| == |ms|
    requires forall k :: 0 <= k < |rs| ==> Queried(rs[k].trace) == [ms[k]]
    ensures var q := Queried(Chain(rs).trace);
      && |q| <= |ms| && q == ms[..|q|]
      && (Chain(rs).outcome.Completed? ==> q == ms)
      && (Chain(rs).outcome.Fatal? ==> |q| > 0)
  {
    if rs != [] {
      assert Queried(rs[0].trace) == [ms[0]];
      if !rs[0].outcome.Fatal? {
        var rest := Chain(rs[1..]);
        ChainQueried(rs[1..], ms[1..]);
        QueriedAppend(rs[0].trace, rest.trace);
        var q := Queried(rest.trace);
        assert [ms[0]] + ms[1..][..|q|] == ms[..|q| + 1];
        assert [ms[0]] + ms[1..] == ms;
      } else {
        assert ms[..1] == [ms[0]];
      }
    }
  }

  /** Matches are queried in the order the filter returned them: the queried
      processes are a prefix of the matches, all of them when the cycle
      completes. */
  lemma QueriedInOrder(pr: Probe, ms: seq<WindowsProcess>)
    ensures var q := Queried(RunMatches(pr, ms).trace);
      && |q| <= |ms| && q == ms[..|q|]
      && (RunMatches(pr, ms).outcome.Completed? ==> q == ms)
      && (RunMatches(pr, ms).outcome.Fatal? ==> |q| > 0)
  {
    var rs := Steps(pr, ms);
    forall k | 0 <= k < |rs|
      ensures Queried(rs[k].trace) == [ms[k]]
    {
      QueriedStep(pr, ms[k]);
    }
    ChainQueried(rs, ms);
  }

  /** A fatal result at position k ends the loop there: the results before
      it all completed and their traces come first. */
  lemma {:induction false} ChainStopsAtFatal(rs: seq<CycleResult>) returns (k: nat)
    requires Chain(rs).outcome.Fatal?
    ensures k < |rs|
    ensures Chain(rs[..k]).outcome.Completed?
    ensures rs[k].outcome == Chain(rs).outcome
    ensures Chain(rs).trace == Chain(rs[..k]).trace + rs[k].trace
  {
    if rs[0].outcome.Fatal? {
      k := 0;
      assert rs[..0] == [];
    } else {
      var tail := rs[1..];
      var j := ChainStopsAtFatal(tail);
      k := j + 1;
      var pre := rs[..k];
      assert pre[0] == rs[0] && pre[1..] == tail[..j] && rs[k] == tail[j];
      var head := Chain(tail[..j]).trace;
      assert rs[0].trace + (head + tail[j].trace) == (rs[0].trace + head) + tail[j].trace;
    }
  }

  /** A fatal error at the k-th match ends the cycle there: the matches
      before it were fully handled, kills included, and no later match is
      examined. */
  lemma FatalStopsAtFailingMatch(pr: Probe, ms: seq<WindowsProcess>) returns (k: nat)
    requires RunMatches(pr, ms).outcome.Fatal?
    ensures k < |ms|
    ensures RunMatches(pr, ms[..k]).outcome.Completed?
    ensures Step(pr, ms[k]).outcome == RunMatches(pr, ms).outcome
    ensures RunMatches(pr, ms).trace == RunMatches(pr, ms[..k]).trace + Step(pr, ms[k]).trace
  {
    k := ChainStopsAtFatal(Steps(pr, ms));
    assert Steps(pr, ms[..k]) == Steps(pr, ms)[..k];
  }

  /** Every printed measurement is followed by an announcement and a kill of
      the same process exactly when the measurement is over the limit. */
  ghost predicate KilledIffOverLimit(trace: seq<Event>)
  {
    forall i {:trigger trace[i]} :: 0 <= i < |trace| && trace[i].Report? ==>
      (ShouldKill(trace[i].times) <==>
         i + 2 < |trace| && trace[i + 1] == Announce(trace[i].p) && trace[i + 2] == KillCall(trace[i].p))
  }

  /** Every kill comes right after its announcement, which comes right after
      the printed measurement of the same process. */
  ghost predicate KillAnnounced(trace: seq<Event>)
  {
    forall i :: 0 <= i < |trace| && trace[i].KillCall? ==>
      2 <= i && trace[i - 1] == Announce(trace[i].p) &&
      trace[i - 2].Report? && trace[i - 2].p == trace[i].p
  }

  /** Every printed measurement is what CPUTime returned for that process,
      right after the query of that process. */
  ghost predicate ReportsMeasured(pr: Probe, trace: seq<Event>)
  {
    forall i :: 0 <= i < |trace| && trace[i].Report? ==>
      0 < i && trace[i - 1] == Query(trace[i].p) && pr.measure(trace[i].p) == Ok(trace[i].times)
  }

  /** The trace of one step obeys the policy. */
  lemma StepFollowsPolicy(pr: Probe, p: WindowsProcess)
    ensures KilledIffOverLimit(Step(pr, p).trace)
    ensures KillAnnounced(Step(pr, p).trace)
    ensures ReportsMeasured(pr, Step(pr, p).trace)
    ensures Step(pr, p).trace[0] == Query(p)
  {
  }

  lemma GlueKilledIffOverLimit(a: seq<Event>, b: seq<Event>)
    requires KilledIffOverLimit(a) && KilledIffOverLimit(b)
    requires b == [] || b[0].Query?
    ensures KilledIffOverLimit(a + b)
  {
    var t := a + b;
    forall i | 0 <= i < |t| && t[i].Report?
      ensures ShouldKill(t[i].times) <==>
        i + 2 < |t| && t[i + 1] == Announce(t[i].p) && t[i + 2] == KillCall(t[i].p)
    {
      if i < |a| {
        assert t[i] == a[i];
        var p := a[i].p;
        assert ShouldKill(a[i].times) <==> i + 2 < |a| && a[i + 1] == Announce(p) && a[i + 2] == KillCall(p);
        if i + 2 < |a| {
          assert t[i + 1] == a[i + 1] && t[i + 2] == a[i + 2];
        } else if i + 2 < |t| {
          assert b != [] && b[0].Query?;
          if i + 1 < |a| {
            assert t[i + 2] == b[0];
          } else {
            assert t[i + 1] == b[0];
          }
        }
      } else {
        var j := i - |a|;
        assert t[i] == b[j];
        var p := b[j].p;
        assert ShouldKill(b[j].times) <==> j + 2 < |b| && b[j + 1] == Announce(p) && b[j + 2] == KillCall(p);
        if i + 2 < |t| {
          assert t[i + 1] == b[j + 1] && t[i + 2] == b[j + 2];
        }
      }
    }
  }

  lemma GlueKillAnnounced(a: seq<Event>, b: seq<Event>)
    requires KillAnnounced(a) && KillAnnounced(b)
    ensures KillAnnounced(a + b)
  {
    var t := a + b;
    forall i | 0 <= i < |t| && t[i].KillCall?
      ensures 2 <= i && t[i - 1] == Announce(t[i].p) && t[i - 2].Report? && t[i - 2].p == t[i].p
    {
      if i < |a| {
        assert t[i] == a[i];
      } else {
        var j := i - |a|;
        assert t[i] == b[j];
        assert t[i - 1] == b[j - 1] && t[i - 2] == b[j - 2];
      }
    }
  }

  lemma GlueReportsMeasured(pr: Probe, a: seq<Event>, b: seq<Event>)
    requires ReportsMeasured(pr, a) && ReportsMeasured(pr, b)
    ensures ReportsMeasured(pr, a + b)
  {
    var t := a + b;
    forall i | 0 <= i < |t| && t[i].Report?
      ensures 0 < i && t[i - 1] == Query(t[i].p) && pr.measure(t[i].p) == Ok(t[i].times)
    {
      if i < |a| {
        assert t[i] == a[i];
      } else {
        var j := i - |a|;
        assert t[i] == b[j];
        assert t[i - 1] == b[j - 1];
      }
    }
  }

  /** The policy holds for the loop when it holds for every pass that the
      loop runs. */
  lemma {:induction false} ChainFollowsPolicy(pr: Probe, rs: seq<CycleResult>)
    requires forall k :: 0 <= k < |rs| ==>
      && KilledIffOverLimit(rs[k].trace) && KillAnnounced(rs[k].trace)
      && ReportsMeasured(pr, rs[k].trace) && rs[k].trace != [] && rs[k].trace[0].Query?
    ensures KilledIffOverLimit(Chain(rs).trace)
    ensures KillAnnounced(Chain(rs).trace)
    ensures ReportsMeasured(pr, Chain(rs).trace)
    ensures Chain(rs).trace == [] || Chain(rs).trace[0].Query?
  {
    if rs != [] && !rs[0].outcome.Fatal? {
      var s := rs[0].trace;
      var rest := Chain(rs[1..]).trace;
      assert forall k :: 1 <= k < |rs| ==> rs[1..][k - 1] == rs[k];
      ChainFollowsPolicy(pr, rs[1..]);
      GlueKilledIffOverLimit(s, rest);
      GlueKillAnnounced(s, rest);
      GlueReportsMeasured(pr, s, rest);
    }
  }

  /** A process is killed exactly when its measured total is over the limit,
      every kill is announced first, and every printed measurement is the
      one CPUTime returned for that process. */
  lemma CycleFollowsKillPolicy(pr: Probe, ms: seq<WindowsProcess>)
    ensures KilledIffOverLimit(RunMatches(pr, ms).trace)
    ensures KillAnnounced(RunMatches(pr, ms).trace)
    ensures ReportsMeasured(pr, RunMatches(pr, ms).trace)
    ensures RunMatches(pr, ms).trace == [] || RunMatches(pr, ms).trace[0].Query?
  {
    var rs := Steps(pr, ms);
    forall k | 0 <= k < |rs|
      ensures KilledIffOverLimit(rs[k].trace) && KillAnnounced(rs[k].trace)
      ensures ReportsMeasured(pr, rs[k].trace) && rs[k].trace != [] && rs[k].trace[0].Query?
    {
      StepFollowsPolicy(pr, ms[k]);
    }
    ChainFollowsPolicy(pr, rs);
  }

  /** On an operating system: a process is killed exactly when the CPU time
      CPUTime reported for it is over the limit, and every kill is announced
      right after that report. */
  lemma CycleKillsOverLimit(os: Os)
    requires os.snapshot.WellFormed()
    ensures var t := RunCycle(os).trace;
      && KilledIffOverLimit(t) && KillAnnounced(t)
      && forall i :: 0 <= i < |t| && t[i].Report? ==> QueryCpuTime(os, t[i].p.Pid()) == Ok(t[i].times)
  {
    match Select(os.snapshot, AppName)
    case Err(_) =>
    case Ok(ms) =>
      var pr := ProbeOf(os);
      CycleFollowsKillPolicy(pr, ms);
      var t := RunCycle(os).trace;
      forall i | 0 <= i < |t| && t[i].Report?
        ensures QueryCpuTime(os, t[i].p.Pid()) == Ok(t[i].times)
      {
        assert pr.measure(t[i].p) == Ok(t[i].times);
      }
  }

  /** Every event of a pass is about that pass's process. */
  lemma StepAbout(pr: Probe, p: WindowsProcess)
    ensures forall i :: 0 <= i < |Step(pr, p).trace| ==> Step(pr, p).trace[i].p == p
  {
  }

  /** Every event of the loop is about one of the matches. */
  lemma {:induction false} ChainAbout(rs: seq<CycleResult>, ms: seq<WindowsProcess>)
    requires |rs| == |ms|
    requires forall k, i :: 0 <= k < |rs| && 0 <= i < |rs[k].trace| ==> rs[k].trace[i].p == ms[k]
    ensures forall i :: 0 <= i < |Chain(rs).trace| ==> Chain(rs).trace[i].p in ms
  {
    if rs != [] {
      assert rs[0].trace != [] ==> rs[0].trace[0].p == ms[0];
      if !rs[0].outcome.Fatal? {
        ChainAbout(rs[1..], ms[1..]);
        var t := Chain(rs).trace;
        forall i | 0 <= i < |t|
          ensures t[i].p in ms
        {
          if i >= |rs[0].trace| {
            assert t[i] == Chain(rs[1..]).trace[i - |rs[0].trace|];
          }
        }
      }
    }
  }

  /** Only processes whose executable is AppName are measured, reported or
      killed. */
  lemma CycleTouchesOnlyAppName(os: Os)
    requires os.snapshot.WellFormed()
    ensures forall i :: 0 <= i < |RunCycle(os).trace| ==> RunCycle(os).trace[i].p.Executable() == AppName
  {
    match Select(os.snapshot, AppName)
    case Err(_) =>
    case Ok(ms) =>
      var pr := ProbeOf(os);
      var rs := Steps(pr, ms);
      forall k | 0 <= k < |rs|
        ensures forall i :: 0 <= i < |rs[k].trace| ==> rs[k].trace[i].p == ms[k]
      {
        StepAbout(pr, ms[k]);
      }
      ChainAbout(rs, ms);
  }

  /** A failed enumeration ends the cycle before any measurement or kill. */
  lemma CycleEnumerationError(os: Os)
    requires os.snapshot.WellFormed()
    requires os.snapshot.First().None?
    ensures RunCycle(os) == CycleResult([], Fatal(ErrorString(RetrieveInfoMessage)))
  {
  }

  /** With no process of that name the cycle measures nothing, prints
      nothing and kills nothing. */
  lemma CycleWithoutMatches(os: Os)
    requires os.snapshot.WellFormed()
    requires Enumerate(os.snapshot).Ok?
    requires forall k :: 0 <= k < |Enumerate(os.snapshot).value| ==> Enumerate(os.snapshot).value[k].Executable() != AppName
    ensures RunCycle(os) == CycleResult([], Completed)
  {
    FilterEmpty(Enumerate(os.snapshot).value, AppName);
  }

  //---------------------------------------------------------------------------
  // What happens to each match the loop reaches
  //---------------------------------------------------------------------------

  /** When the first k passes complete, the loop runs them and then goes on
      with the rest. */
  lemma {:induction false} ChainSplit(rs: seq<CycleResult>, k: nat)
    requires k <= |rs|
    requires forall j :: 0 <= j < k ==> rs[j].outcome.Completed?
    ensures Chain(rs[..k]).outcome.Completed?
    ensures Chain(rs) == Then(Chain(rs[..k]).trace, Chain(rs[k..]))
  {
    if k == 0 {
      assert rs[..0] == [] && rs[0..] == rs;
    } else {
      var tail := rs[1..];
      assert forall j :: 0 <= j < k - 1 ==> tail[j] == rs[j + 1];
      ChainSplit(tail, k - 1);
      var pre := rs[..k];
      assert pre[0] == rs[0] && pre[1..] == tail[..k - 1];
      assert tail[k - 1..] == rs[k..];
      ThenThen(rs[0].trace, Chain(tail[..k - 1]).trace, Chain(rs[k..]));
    }
  }

  /** A fatal pass reached after completed ones ends the loop with its
      outcome, right after the traces of the passes before it. */
  lemma ChainReachesFatal(rs: seq<CycleResult>, k: nat)
    requires k < |rs|
    requires forall j :: 0 <= j < k ==> rs[j].outcome.Completed?
    requires rs[k].outcome.Fatal?
    ensures Chain(rs).outcome == rs[k].outcome
    ensures Chain(rs).trace == Chain(rs[..k]).trace + rs[k].trace
  {
    ChainSplit(rs, k);
    ChainAt(rs, k);
  }

  /** A pass reached after completed ones has its whole trace in the loop's
      trace, right after the traces of the passes before it. */
  lemma ChainReaches(rs: seq<CycleResult>, k: nat)
    requires k < |rs|
    requires forall j :: 0 <= j < k ==> rs[j].outcome.Completed?
    ensures var o := |Chain(rs[..k]).trace|;
      o + |rs[k].trace| <= |Chain(rs).trace| && Chain(rs).trace[o..o + |rs[k].trace|] == rs[k].trace
  {
    ChainSplit(rs, k);
    ChainAt(rs, k);
    var pre := Chain(rs[..k]).trace;
    if rs[k].outcome.Completed? {
      var rest := Chain(rs[k + 1..]).trace;
      assert Chain(rs).trace == pre + (rs[k].trace + rest);
      assert (pre + (rs[k].trace + rest))[|pre|..|pre| + |rs[k].trace|] == rs[k].trace;
    } else {
      assert (pre + rs[k].trace)[|pre|..|pre| + |rs[k].trace|] == rs[k].trace;
    }
  }

  /** The loop completes exactly when every pass does. */
  lemma {:induction false} ChainCompletes(rs: seq<CycleResult>)
    ensures Chain(rs).outcome.Completed? <==> forall j :: 0 <= j < |rs| ==> rs[j].outcome.Completed?
  {
    if rs != [] {
      ChainCompletes(rs[1..]);
      assert forall j :: 1 <= j < |rs| ==> rs[1..][j - 1] == rs[j];
    }
  }

  /** The loop reaches match k: every pass before it completed. */
  predicate Reached(pr: Probe, ms: seq<WindowsProcess>, k: nat)
  {
    k <= |ms| && forall j :: 0 <= j < k ==> Step(pr, ms[j]).outcome.Completed?
  }

  /** A match the loop reaches and measures is reported with that
      measurement, and killed exactly when the measurement is over the
      limit. */
  lemma MatchHandled(pr: Probe, ms: seq<WindowsProcess>, k: nat, t: CPUTimes)
    requires k < |ms| && Reached(pr, ms, k)
    requires pr.measure(ms[k]) == Ok(t)
    ensures Report(ms[k], t) in RunMatches(pr, ms).trace
    ensures KillCall(ms[k]) in RunMatches(pr, ms).trace <==> ShouldKill(t)
  {
    var rs := Steps(pr, ms);
    var p := ms[k];
    ChainReaches(rs, k);
    StepMeasured(pr, p, t);
    var tr := RunMatches(pr, ms).trace;
    var o := |Chain(rs[..k]).trace|;
    var st := rs[k].trace;
    assert tr[o..o + |st|] == st;
    assert tr[o + 1] == st[1] == Report(p, t);
    if ShouldKill(t) {
      assert tr[o + 3] == st[3] == KillCall(p);
    }
    if KillCall(p) in tr {
      var i :| 0 <= i < |tr| && tr[i] == KillCall(p);
      CycleFollowsKillPolicy(pr, ms);
      assert tr[i].KillCall?;
      var r := tr[i - 2];
      assert r.Report? && r.p == p && tr[i - 1] == Announce(p);
      assert pr.measure(p) == Ok(r.times);
    }
  }

  /** A CPUTime error at a match the loop reaches ends the cycle with that
      error, right after the query of that match. */
  lemma MeasureErrorIsFatal(pr: Probe, ms: seq<WindowsProcess>, k: nat)
    requires k < |ms| && Reached(pr, ms, k)
    requires pr.measure(ms[k]).Err?
    ensures RunMatches(pr, ms).outcome == Fatal(pr.measure(ms[k]).error)
    ensures RunMatches(pr, ms).trace == RunMatches(pr, ms[..k]).trace + [Query(ms[k])]
  {
    var rs := Steps(pr, ms);
    ChainReachesFatal(rs, k);
    assert Steps(pr, ms[..k]) == rs[..k];
  }

  /** A Kill error at a match the loop reaches and finds over the limit
      ends the cycle with that error, right after the kill call. */
  lemma KillErrorIsFatal(pr: Probe, ms: seq<WindowsProcess>, k: nat, t: CPUTimes)
    requires k < |ms| && Reached(pr, ms, k)
    requires pr.measure(ms[k]) == Ok(t) && ShouldKill(t) && pr.kill(ms[k]).Some?
    ensures RunMatches(pr, ms).outcome == Fatal(pr.kill(ms[k]).value)
    ensures RunMatches(pr, ms).trace ==
      RunMatches(pr, ms[..k]).trace + [Query(ms[k]), Report(ms[k], t), Announce(ms[k]), KillCall(ms[k])]
  {
    var rs := Steps(pr, ms);
    StepMeasured(pr, ms[k], t);
    ChainReachesFatal(rs, k);
    assert Steps(pr, ms[..k]) == rs[..k];
  }

  /** The cycle completes exactly when every match is measured and every
      kill it issues succeeds. */
  lemma CycleCompletes(pr: Probe, ms: seq<WindowsProcess>)
    ensures RunMatches(pr, ms).outcome.Completed? <==>
      forall j :: 0 <= j < |ms| ==>
        pr.measure(ms[j]).Ok? && (ShouldKill(pr.measure(ms[j]).value) ==> pr.kill(ms[j]).None?)
  {
    var rs := Steps(pr, ms);
    ChainCompletes(rs);
    forall j | 0 <= j < |ms|
      ensures rs[j].outcome.Completed? <==>
        pr.measure(ms[j]).Ok? && (ShouldKill(pr.measure(ms[j]).value) ==> pr.kill(ms[j]).None?)
    {
      if pr.measure(ms[j]).Ok? {
        StepMeasured(pr, ms[j], pr.measure(ms[j]).value);
      }
    }
  }

  /** On an operating system, for each match the cycle reaches: a CPUTime
      error ends the cycle with that error; otherwise the measurement is
      reported, the match is killed exactly when its total is over the
      limit, and a Kill error then ends the cycle with that error. */
  lemma CycleHandlesReachedMatch(os: Os, ms: seq<WindowsProcess>, k: nat)
    requires os.snapshot.WellFormed()
    requires Select(os.snapshot, AppName) == Ok(ms)
    requires k < |ms| && Reached(ProbeOf(os), ms, k)
    ensures QueryCpuTime(os, ms[k].Pid()).Err? ==>
      RunCycle(os).outcome == Fatal(QueryCpuTime(os, ms[k].Pid()).error)
    ensures QueryCpuTime(os, ms[k].Pid()).Ok? ==>
      var t := QueryCpuTime(os, ms[k].Pid()).value;
      && Report(ms[k], t) in RunCycle(os).trace
      && (KillCall(ms[k]) in RunCycle(os).trace <==> ShouldKill(t))
      && (ShouldKill(t) && ms[k].Kill(os).Some? ==> RunCycle(os).outcome == Fatal(ms[k].Kill(os).value))
  {
    var pr := ProbeOf(os);
    assert pr.measure(ms[k]) == QueryCpuTime(os, ms[k].Pid());
    assert pr.kill(ms[k]) == ms[k].Kill(os);
    assert RunCycle(os) == RunMatches(pr, ms);
    match pr.measure(ms[k])
    case Err(_) =>
      MeasureErrorIsFatal(pr, ms, k);
    case Ok(t) =>
      MatchHandled(pr, ms, k, t);
      if ShouldKill(t) && pr.kill(ms[k]).Some? {
        KillErrorIsFatal(pr, ms, k, t);
      }
  }
}

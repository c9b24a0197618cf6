/**
 The Pablo supervisor of userland/pablo/src/supervisor.c.  What it may do is said by
 `Legal`, a property of the log of everything that happens to services; the class keeps
 the fields the program keeps and every event it logs is legal.
 */
module Supervisor {

  import opened Services

  datatype State = Stopped | Running | Backoff | Complete | Failed

  datatype Kind = Spawn | ForkFail | Stop | Finish | Fail

  datatype Event = Event(service: nat, kind: Kind, tick: nat)

  datatype Config = Config(services: seq<Service>, limit: nat, delay: nat)

  function After(k: Kind): State {
    match k
    case Spawn => Running
    case ForkFail => Backoff
    case Stop => Backoff
    case Finish => Complete
    case Fail => Failed
  }

  function StateOf(log: seq<Event>, i: nat): State {
    if log == [] then Stopped
    else if log[|log| - 1].service == i then After(log[|log| - 1].kind)
    else StateOf(log[..|log| - 1], i)
  }

  /** The tick of the last event of service `i`. */
  function LastTick(log: seq<Event>, i: nat): nat {
    if log == [] then 0
    else if log[|log| - 1].service == i then log[|log| - 1].tick
    else LastTick(log[..|log| - 1], i)
  }

  function Count(log: seq<Event>, i: nat, k: Kind): nat {
    if log == [] then 0
    else Count(log[..|log| - 1], i, k) + if log[|log| - 1].service == i && log[|log| - 1].kind == k then 1 else 0
  }

  predicate Up(s: State) {
    s == Running || s == Complete
  }

  /** The last stop or failed fork of `i` is at least the delay before `tick`. */
  ghost predicate Rested(c: Config, log: seq<Event>, i: nat, tick: nat) {
    forall k :: 0 <= k < |log| && log[k].service == i && log[k].kind in {Stop, ForkFail} ==>
      log[k].tick + c.delay <= tick
  }

  ghost predicate MayStart(c: Config, log: seq<Event>, i: nat, tick: nat)
    requires i < |c.services|
  {
    && StateOf(log, i) in {Stopped, Backoff} && Rested(c, log, i, tick)
    && (Parent(c.services, i) >= 0 ==> Up(StateOf(log, Parent(c.services, i))))
  }

  /** What may happen next. */
  ghost predicate Allowed(c: Config, log: seq<Event>, e: Event) {
    && e.service < |c.services|
    && (log != [] ==> log[|log| - 1].tick <= e.tick)
    && var i := e.service;
       var state := StateOf(log, i);
       var parent := Parent(c.services, i);
       var once := c.services[i].policy == Once;
       match e.kind
       case Spawn => MayStart(c, log, i, e.tick)
       case ForkFail => MayStart(c, log, i, e.tick)
       case Stop => state == Running && !once && Count(log, i, Stop) < c.limit
       case Finish => state == Running && once
       case Fail =>
         || (state == Running && (once || Count(log, i, Stop) >= c.limit))
         || ((state == Stopped || state == Backoff) && parent >= 0 && StateOf(log, parent) == Failed)
  }

  ghost predicate Legal(c: Config, log: seq<Event>) {
    log == [] || (Legal(c, log[..|log| - 1]) && Allowed(c, log[..|log| - 1], log[|log| - 1]))
  }

  // ----- What every legal log has

  /** Starts follow restarts: the state says by how many they differ. */
  lemma {:induction false} SpawnCount(c: Config, log: seq<Event>, i: nat)
    requires Legal(c, log) && i < |c.services|
    ensures Count(log, i, Stop) <= (if c.services[i].policy == Once then 0 else c.limit)
    ensures match StateOf(log, i)
      case Running => Count(log, i, Spawn) == Count(log, i, Stop) + 1
      case Complete => Count(log, i, Spawn) == Count(log, i, Stop) + 1 && Count(log, i, Finish) == 1
      case Failed => Count(log, i, Spawn) <= Count(log, i, Stop) + 1
      case _ => Count(log, i, Spawn) == Count(log, i, Stop)
  {
    if log != [] {
      SpawnCount(c, log[..|log| - 1], i);
      NoFinish(c, log[..|log| - 1], i);
    }
  }

  lemma {:induction false} NoFinish(c: Config, log: seq<Event>, i: nat)
    requires Legal(c, log)
    ensures StateOf(log, i) in {Stopped, Running, Backoff} ==> Count(log, i, Finish) == 0
  {
    if log != [] {
      NoFinish(c, log[..|log| - 1], i);
    }
  }

  /** A once service is started at most once, a respawn service at most `limit + 1` times. */
  lemma SpawnBound(c: Config, log: seq<Event>, i: nat)
    requires Legal(c, log) && i < |c.services|
    ensures Count(log, i, Spawn) <= (if c.services[i].policy == Once then 1 else c.limit + 1)
  {
    SpawnCount(c, log, i);
  }

  lemma {:induction false} LegalPrefix(c: Config, log: seq<Event>, k: nat)
    requires Legal(c, log) && k <= |log|
    ensures Legal(c, log[..k])
    ensures k < |log| ==> Allowed(c, log[..k], log[k])
    decreases |log|
  {
    if k == |log| {
      assert log[..k] == log;
    } else if k < |log| - 1 {
      var shorter := log[..|log| - 1];
      LegalPrefix(c, shorter, k);
      assert shorter[..k] == log[..k] && shorter[k] == log[k];
    }
  }

  /** A service that is not stopped has an event, one that has run has a start. */
  lemma {:induction false} Started(c: Config, log: seq<Event>, i: nat)
    requires Legal(c, log) && Up(StateOf(log, i))
    ensures exists k :: 0 <= k < |log| && log[k].service == i && log[k].kind == Spawn
  {
    var last := |log| - 1;
    if log[last].service != i || log[last].kind == Finish {
      Started(c, log[..last], i);
      var k :| 0 <= k < last && log[..last][k].service == i && log[..last][k].kind == Spawn;
      assert log[k].service == i && log[k].kind == Spawn;
    }
  }

  /** Before a service starts, everything it depends on, however indirectly, has been started. */
  lemma {:induction false} StartOrder(c: Config, log: seq<Event>, k: nat, n: nat)
    requires Legal(c, log) && k < |log| && log[k].kind == Spawn && log[k].service < |c.services|
    requires n > 0 && Follow(c.services, log[k].service, n) >= 0
    ensures exists j :: 0 <= j < k && log[j].kind == Spawn && log[j].service == Follow(c.services, log[k].service, n)
    decreases n
  {
    LegalPrefix(c, log, k);
    var parent := Parent(c.services, log[k].service);
    assert Follow(c.services, log[k].service, n) == Follow(c.services, parent, n - 1);
    Started(c, log[..k], parent);
    var j :| 0 <= j < k && log[..k][j].service == parent && log[..k][j].kind == Spawn;
    assert log[j] == log[..k][j];
    if n > 1 {
      StartOrder(c, log, j, n - 1);
    }
  }

  /** At least the delay separates a stop from any later start. */
  lemma DelayKept(c: Config, log: seq<Event>, j: nat, k: nat)
    requires Legal(c, log) && j < k < |log| && log[j].service == log[k].service
    requires log[j].kind in {Stop, ForkFail} && log[k].kind in {Spawn, ForkFail}
    ensures log[j].tick + c.delay <= log[k].tick
  {
    LegalPrefix(c, log, k);
    assert log[..k][j] == log[j];
  }

  /** Nothing happens to a service that completed or failed. */
  lemma {:induction false} Final(c: Config, log: seq<Event>, j: nat)
    requires Legal(c, log) && j < |log| && log[j].kind in {Finish, Fail}
    ensures StateOf(log, log[j].service) == After(log[j].kind)
    ensures forall k :: j < k < |log| ==> log[k].service != log[j].service
    decreases |log|
  {
    var last := |log| - 1;
    if j < last {
      assert log[..last][j] == log[j];
      Final(c, log[..last], j);
      forall k | j < k < last ensures log[k].service != log[j].service {
        assert log[..last][k] == log[k];
      }
    }
  }

  /** A service that failed without ever starting depends on one that failed. */
  lemma {:induction false} FailsAfter(c: Config, log: seq<Event>, i: nat)
    requires Legal(c, log) && i < |c.services| && StateOf(log, i) == Failed && Count(log, i, Spawn) == 0
    ensures Parent(c.services, i) >= 0 && StateOf(log, Parent(c.services, i)) == Failed
  {
    var last := |log| - 1;
    var before := log[..last];
    if log[last].service == i {
      if StateOf(before, i) == Running {
        SpawnCount(c, before, i);
      }
    } else {
      FailsAfter(c, before, i);
    }
  }

  ghost predicate Culprit(log: seq<Event>, i: int) {
    i >= 0 && StateOf(log, i) == Failed && Count(log, i, Spawn) > 0
  }

  /** Every failure goes back to a service that was started and failed. */
  lemma {:induction false} FailureRoot(c: Config, log: seq<Event>, i: nat, n: nat)
    requires Legal(c, log) && i < |c.services| && StateOf(log, i) == Failed && Follow(c.services, i, n) == -1
    ensures exists m: nat :: m < n && Culprit(log, Follow(c.services, i, m))
    decreases n
  {
    if Count(log, i, Spawn) > 0 {
      assert Culprit(log, Follow(c.services, i, 0));
    } else {
      FailsAfter(c, log, i);
      var parent := Parent(c.services, i);
      FailureRoot(c, log, parent, n - 1);
      var m: nat :| m < n - 1 && Culprit(log, Follow(c.services, parent, m));
      assert Follow(c.services, i, m + 1) == Follow(c.services, parent, m);
    }
  }

  // ----- The fields of one service

  datatype Run = Run(state: State, pid: int, restarts: nat, ready: nat, exit: nat)

  predicate Active(s: State) {
    s == Running || s == Backoff
  }

  predicate Terminal(s: State) {
    s == Complete || s == Failed
  }

  /** The fields agree with the log; a service in backoff is ready exactly the delay after its last event. */
  ghost predicate Tied(c: Config, log: seq<Event>, run: Run, i: nat) {
    && run.state == StateOf(log, i) && run.restarts == Count(log, i, Stop) && Rested(c, log, i, run.ready)
    && (run.state == Backoff ==> run.ready == LastTick(log, i) + c.delay)
  }

  /** An event of one service leaves the fields of the others tied. */
  lemma TiedOther(c: Config, log: seq<Event>, run: Run, i: nat, e: Event)
    requires Tied(c, log, run, i) && e.service != i
    ensures Tied(c, log + [e], run, i)
  {
    assert (log + [e])[..|log|] == log;
  }

  lemma TiedSelf(c: Config, log: seq<Event>, run: Run, next: Run, e: Event)
    requires Tied(c, log, run, e.service) && next.state == After(e.kind)
    requires next.restarts == run.restarts + if e.kind == Stop then 1 else 0
    requires if e.kind in {Stop, ForkFail} then next.ready == e.tick + c.delay else next.ready == run.ready
    requires forall k :: 0 <= k < |log| ==> log[k].tick <= e.tick
    ensures Tied(c, log + [e], next, e.service)
  {
    assert (log + [e])[..|log|] == log;
  }

  lemma LegalOn(c: Config, log: seq<Event>, e: Event)
    requires Legal(c, log) && Allowed(c, log, e)
    ensures Legal(c, log + [e])
  {
    assert (log + [e])[..|log|] == log;
  }

  lemma {:induction false} Untouched(log: seq<Event>, i: nat)
    requires StateOf(log, i) == Stopped
    ensures forall k :: 0 <= k < |log| ==> log[k].service != i
  {
    if log != [] {
      var last := |log| - 1;
      Untouched(log[..last], i);
      forall k | 0 <= k < last ensures log[k].service != i {
        assert log[..last][k] == log[k];
      }
    }
  }

  /** If no service is active and every stopped one waits for a stopped one, none is stopped. */
  lemma {:induction false} StuckOnlyIfDone(s: seq<Service>, runs: seq<Run>, i: nat, n: nat)
    requires |runs| == |s| && i < |s| && Follow(s, i, n) == -1
    requires forall k :: 0 <= k < |s| && runs[k].state == Stopped ==>
               Parent(s, k) >= 0 && runs[Parent(s, k)].state == Stopped
    ensures runs[i].state != Stopped
    decreases n
  {
    hide Parent;
    if runs[i].state == Stopped {
      StuckOnlyIfDone(s, runs, Parent(s, i), n - 1);
    }
  }

  // ----- The supervisor

  /** Exit status as `WIFEXITED` and `WEXITSTATUS` read it. */
  function ExitStatus(status: nat): nat {
    if status % 128 == 0 then status / 256 % 256 else 128
  }

  /** What an exit with that status does to a running service. */
  function Verdict(c: Config, i: nat, restarts: nat, status: nat): Kind
    requires i < |c.services|
  {
    if c.services[i].policy == Once then (if ExitStatus(status) == 0 then Finish else Fail)
    else if restarts >= c.limit then Fail
    else Stop
  }

  /** A process that exits with any code is seen with its low byte, from the status word the kernel makes of it. */
  lemma ExitCodeSeen(code: int)
    ensures ExitStatus(code % 256 * 256) == code % 256
  {
    var low := code % 256;
    assert low * 256 == 128 * (2 * low) && (low * 256) % 128 == 0;
  }

  /** Any other end counts as 128. */
  lemma OtherEndSeen(status: nat)
    ensures status % 128 != 0 ==> ExitStatus(status) == 128
  {
  }

  /** What `record_exit` makes of the fields of a running service, from the status word. */
  ghost predicate Recorded(c: Config, policy: Policy, before: Run, status: nat, tick: nat, after: Run) {
    var good := status % 128 == 0 && status / 256 % 256 == 0;
    && after.pid == 0
    && after.exit == (if status % 128 == 0 then status / 256 % 256 else 128)
    && (policy == Once ==>
          after.state == (if good then Complete else Failed)
          && after.restarts == before.restarts && after.ready == before.ready)
    && (policy != Once && before.restarts >= c.limit ==>
          after.state == Failed && after.restarts == before.restarts && after.ready == before.ready)
    && (policy != Once && before.restarts < c.limit ==>
          after.state == Backoff && after.restarts == before.restarts + 1 && after.ready == tick + c.delay)
  }

  lemma ChargeRecords(c: Config, i: nat, run: Run, status: nat, tick: nat)
    requires i < |c.services|
    ensures Recorded(c, c.services[i].policy, run, status, tick, Charge(c, i, run, status, tick))
  {
  }

  /** The event of an exit may happen. */
  lemma ExitAllowed(c: Config, log: seq<Event>, run: Run, i: nat, status: nat, tick: nat)
    requires i < |c.services| && Tied(c, log, run, i) && run.state == Running
    requires forall k :: 0 <= k < |log| ==> log[k].tick <= tick
    ensures Allowed(c, log, Event(i, Verdict(c, i, run.restarts, status), tick))
  {
  }

  /** So may the event of a start attempt that is due. */
  lemma StartAllowed(c: Config, log: seq<Event>, runs: seq<Run>, i: nat, tick: nat)
    requires |runs| == |c.services| && i < |runs| && forall k :: 0 <= k < |runs| ==> Tied(c, log, runs[k], k)
    requires forall k :: 0 <= k < |log| ==> log[k].tick <= tick
    requires runs[i].state == Stopped || (runs[i].state == Backoff && runs[i].ready <= tick)
    ensures var p := Parent(c.services, i);
            && (p >= 0 && runs[p].state == Failed ==> Allowed(c, log, Event(i, Fail, tick)))
            && (p < 0 || Up(runs[p].state) ==>
                  Allowed(c, log, Event(i, Spawn, tick)) && Allowed(c, log, Event(i, ForkFail, tick)))
  {
    hide Parent;
    if runs[i].state == Stopped {
      Untouched(log, i);
    }
  }

  predicate Owns(runs: seq<Run>, i: int, pid: int) {
    0 <= i < |runs| && runs[i].state == Running && runs[i].pid == pid
  }

  /** `fork` never returns the pid of a process that has not been reaped. */
  ghost predicate Fresh(runs: seq<Run>, forks: seq<int>) {
    && (forall i, j :: 0 <= i < j < |forks| && forks[i] >= 0 ==> forks[i] != forks[j])
    && (forall i, j :: 0 <= i < |forks| && Owns(runs, j, forks[i]) ==> forks[i] < 0)
  }

  ghost predicate DistinctPids(runs: seq<Run>) {
    forall i, j :: 0 <= i < j < |runs| && runs[i].state == Running && runs[j].state == Running ==>
      runs[i].pid != runs[j].pid
  }

  // ----- Processes

  type Exit = (int, nat)           // pid and status, as `waitpid` reports them
  type Round = (seq<Exit>, seq<int>)  // the exits of one turn, and what `fork` returns for each service

  /** What the exit of its process with that status makes of a running service. */
  function Charge(c: Config, i: nat, run: Run, status: nat, tick: nat): Run
    requires i < |c.services|
  {
    var kind := Verdict(c, i, run.restarts, status);
    run.(state := After(kind), pid := 0, exit := ExitStatus(status),
         restarts := run.restarts + (if kind == Stop then 1 else 0),
         ready := if kind == Stop then tick + c.delay else run.ready)
  }

  /** Which of the first `n` exits is the first to report that process, or -1. */
  function FirstReport(exits: seq<Exit>, n: nat, pid: int): (f: int)
    requires n <= |exits|
    ensures -1 <= f < n && (f >= 0 ==> exits[f].0 == pid)
  {
    if n == 0 then -1
    else if FirstReport(exits, n - 1, pid) >= 0 then FirstReport(exits, n - 1, pid)
    else if exits[n - 1].0 == pid then n - 1 else -1
  }

  lemma {:induction false} ReportFirst(exits: seq<Exit>, n: nat, pid: int)
    requires n <= |exits|
    ensures var f := FirstReport(exits, n, pid); forall k :: 0 <= k < (if f < 0 then n else f) ==> exits[k].0 != pid
  {
    if n > 0 {
      ReportFirst(exits, n - 1, pid);
    }
  }

  /** Every service whose process is among the first `n` exits has been charged with it, and no other has changed. */
  ghost predicate Reaped(c: Config, before: seq<Run>, exits: seq<Exit>, n: nat, tick: nat, runs: seq<Run>)
    requires |before| == |c.services| && n <= |exits|
  {
    |runs| == |before| && forall k :: 0 <= k < |runs| ==>
      var f := FirstReport(exits, n, before[k].pid);
      runs[k] == if before[k].state == Running && f >= 0 then Charge(c, k, before[k], exits[f].1, tick) else before[k]
  }

  /** The service that runs that process, or -1. */
  ghost function OwnerOf(runs: seq<Run>, pid: int): (k: int)
    ensures k >= 0 ==> Owns(runs, k, pid)
    ensures k < 0 ==> forall j :: !Owns(runs, j, pid)
  {
    if exists k :: Owns(runs, k, pid) then var k :| Owns(runs, k, pid); k else -1
  }

  /** The events of the first `n` exits: one for each process of a service, the first time it is reported. */
  ghost function ExitEvents(c: Config, before: seq<Run>, exits: seq<Exit>, n: nat, tick: nat): seq<Event>
    requires |before| == |c.services| && n <= |exits|
  {
    if n == 0 then []
    else
      var (pid, status) := exits[n - 1];
      var k := OwnerOf(before, pid);
      ExitEvents(c, before, exits, n - 1, tick) +
      if k >= 0 && FirstReport(exits, n - 1, pid) < 0
      then [Event(k, Verdict(c, k, before[k].restarts, status), tick)] else []
  }

  lemma ReapedNone(c: Config, before: seq<Run>, exits: seq<Exit>, tick: nat)
    requires |before| == |c.services|
    ensures Reaped(c, before, exits, 0, tick, before)
  {
  }

  /** One more exit, charged to the service that owns the process now, or to none. */
  lemma ReapedMore(c: Config, before: seq<Run>, exits: seq<Exit>, n: nat, tick: nat, runs: seq<Run>, runs': seq<Run>,
                   k: int)
    requires |before| == |c.services| && n < |exits| && DistinctPids(before) && Reaped(c, before, exits, n, tick, runs)
    requires k >= 0 ==> Owns(runs, k, exits[n].0)
                        && runs' == runs[k := Charge(c, k, runs[k], exits[n].1, tick)]
    requires k < 0 ==> runs' == runs && forall j :: !Owns(runs, j, exits[n].0)
    ensures Reaped(c, before, exits, n + 1, tick, runs')
    ensures k >= 0 ==> OwnerOf(before, exits[n].0) == k && FirstReport(exits, n, exits[n].0) < 0 && runs[k] == before[k]
    ensures k < 0 ==> OwnerOf(before, exits[n].0) < 0 || FirstReport(exits, n, exits[n].0) >= 0
  {
    hide DistinctPids, Charge, Verdict;
    var pid := exits[n].0;
    if k >= 0 {
      NotCharged(c, before, exits, n, tick, runs, k);
      OwnerUnique(before, k, pid);
    }
    forall j | 0 <= j < |runs|
      ensures var f := FirstReport(exits, n + 1, before[j].pid);
              runs'[j] == if before[j].state == Running && f >= 0 then Charge(c, j, before[j], exits[f].1, tick)
                          else before[j]
    {
      StillOwns(c, before, exits, n, tick, runs, j);
      OwnersEqual(before, j, k, pid);
    }
    var owner := OwnerOf(before, pid);
    if owner >= 0 {
      StillOwns(c, before, exits, n, tick, runs, owner);
    }
  }

  /** A process that has not been reported is still its service's. */
  lemma StillOwns(c: Config, before: seq<Run>, exits: seq<Exit>, n: nat, tick: nat, runs: seq<Run>, j: nat)
    requires |before| == |c.services| && n <= |exits| && Reaped(c, before, exits, n, tick, runs) && j < |runs|
    ensures before[j].state == Running && FirstReport(exits, n, before[j].pid) < 0 ==> Owns(runs, j, before[j].pid)
  {
  }

  lemma OwnersEqual(runs: seq<Run>, j: int, k: int, pid: int)
    requires DistinctPids(runs)
    ensures Owns(runs, j, pid) && Owns(runs, k, pid) ==> j == k
  {
  }

  lemma NotCharged(c: Config, before: seq<Run>, exits: seq<Exit>, n: nat, tick: nat, runs: seq<Run>, k: nat)
    requires |before| == |c.services| && n <= |exits| && Reaped(c, before, exits, n, tick, runs) && k < |runs|
    requires runs[k].state == Running
    ensures runs[k] == before[k] && FirstReport(exits, n, runs[k].pid) < 0
  {
  }

  lemma OwnerUnique(runs: seq<Run>, k: int, pid: int)
    requires DistinctPids(runs) && Owns(runs, k, pid)
    ensures OwnerOf(runs, pid) == k
  {
  }

  /** How many events in the log are about service `i`. */
  function EventsOf(log: seq<Event>, i: nat): nat {
    if log == [] then 0 else EventsOf(log[..|log| - 1], i) + if log[|log| - 1].service == i then 1 else 0
  }

  /** A service has exactly one exit event if its process is reported, however often, and otherwise none. */
  lemma {:induction false} ExitOnce(c: Config, before: seq<Run>, exits: seq<Exit>, n: nat, tick: nat, k: nat)
    requires |before| == |c.services| && n <= |exits| && k < |before| && DistinctPids(before)
    ensures EventsOf(ExitEvents(c, before, exits, n, tick), k) ==
            if before[k].state == Running && FirstReport(exits, n, before[k].pid) >= 0 then 1 else 0
  {
    hide DistinctPids, Verdict;
    if n > 0 {
      ExitOnce(c, before, exits, n - 1, tick, k);
      if Owns(before, k, exits[n - 1].0) {
        OwnerUnique(before, k, exits[n - 1].0);
      }
      var earlier, log := ExitEvents(c, before, exits, n - 1, tick), ExitEvents(c, before, exits, n, tick);
      assert log != earlier ==> log[..|log| - 1] == earlier;
    }
  }

  /** Reaping leaves processes distinct. */
  lemma ReapedDistinct(c: Config, before: seq<Run>, exits: seq<Exit>, n: nat, tick: nat, runs: seq<Run>)
    requires |before| == |c.services| && n <= |exits| && Reaped(c, before, exits, n, tick, runs) && DistinctPids(before)
    ensures DistinctPids(runs)
  {
    forall i, j | 0 <= i < j < |runs| && runs[i].state == Running && runs[j].state == Running
      ensures runs[i].pid != runs[j].pid
    {
      NotCharged(c, before, exits, n, tick, runs, i);
      NotCharged(c, before, exits, n, tick, runs, j);
    }
  }

  // ----- Processes over a run

  ghost function Pids(runs: seq<Run>): set<int> {
    set k | 0 <= k < |runs| && runs[k].state == Running :: runs[k].pid
  }

  ghost function Reports(exits: seq<Exit>): set<int> {
    set k | 0 <= k < |exits| :: exits[k].0
  }

  ghost function Forked(forks: seq<int>): set<int> {
    set k | 0 <= k < |forks| && forks[k] >= 0 :: forks[k]
  }

  /** Every pid that `fork` returns belongs to no process that is still to be reaped, and to one service. */
  ghost predicate Honest(alive: set<int>, turns: seq<Round>)
    decreases |turns|
  {
    turns != [] ==>
      var left := alive - Reports(turns[0].0);
      var forks := turns[0].1;
      && (forall i, j :: 0 <= i < j < |forks| && forks[i] >= 0 ==> forks[i] != forks[j])
      && Forked(forks) !! left
      && Honest(left + Forked(forks), turns[1..])
  }

  /** The fields and the log between two turns. */
  datatype Moment = Moment(runs: seq<Run>, log: seq<Event>)

  /** One turn from `a` to `b`: each exit is charged to the service whose process it is, and a process that
      runs at the end ran before and was not reported, or was forked for its service. */
  ghost predicate TurnDone(c: Config, tick: nat, a: Moment, turn: Round, b: Moment) {
    && |a.runs| == |b.runs| == |c.services| == |turn.1|
    && a.log + ExitEvents(c, a.runs, turn.0, |turn.0|, tick) <= b.log
    && exists mid :: Reaped(c, a.runs, turn.0, |turn.0|, tick, mid) && AllFrom(mid, b.runs, turn.1)
  }

  ghost predicate AllFrom(before: seq<Run>, runs: seq<Run>, forks: seq<int>) {
    |before| == |runs| == |forks| && forall k :: 0 <= k < |runs| ==> From(before, runs, forks, k)
  }

  lemma Done(c: Config, tick: nat, a: Moment, turn: Round, mid: seq<Run>, b: Moment)
    requires |a.runs| == |b.runs| == |c.services| == |turn.1| && Reaped(c, a.runs, turn.0, |turn.0|, tick, mid)
    requires a.log + ExitEvents(c, a.runs, turn.0, |turn.0|, tick) <= b.log && |mid| == |b.runs|
    requires AllFrom(mid, b.runs, turn.1)
    ensures TurnDone(c, tick, a, turn, b)
  {
  }

  lemma HonestFresh(c: Config, before: seq<Run>, turn: Round, alive: set<int>, tick: nat, mid: seq<Run>, runs: seq<Run>,
                    rest: seq<Round>)
    requires |before| == |c.services| && Pids(before) <= alive && Honest(alive, [turn] + rest)
    requires Reaped(c, before, turn.0, |turn.0|, tick, mid)
    ensures Fresh(mid, turn.1)
    ensures AllFrom(mid, runs, turn.1) ==> Pids(runs) <= alive - Reports(turn.0) + Forked(turn.1)
    ensures Honest(alive - Reports(turn.0) + Forked(turn.1), rest)
  {
    var left, forks := alive - Reports(turn.0), turn.1;
    assert ([turn] + rest)[0] == turn && ([turn] + rest)[1..] == rest;
    forall k | 0 <= k < |mid| && mid[k].state == Running ensures mid[k].pid in left {
      NotCharged(c, before, turn.0, |turn.0|, tick, mid, k);
      NoReport(turn.0, |turn.0|, mid[k].pid);
      assert before[k].pid in Pids(before);
    }
    forall i | 0 <= i < |forks| && forks[i] >= 0 ensures forks[i] in Forked(forks) {
    }
    if AllFrom(mid, runs, turn.1) {
      forall p | p in Pids(runs) ensures p in left + Forked(forks) {
        var k :| 0 <= k < |runs| && runs[k].state == Running && runs[k].pid == p;
        assert From(mid, runs, turn.1, k);
      }
    }
  }

  lemma {:induction false} NoReport(exits: seq<Exit>, n: nat, pid: int)
    requires n <= |exits| && FirstReport(exits, n, pid) < 0
    ensures forall k :: 0 <= k < n ==> exits[k].0 != pid
  {
    if n > 0 {
      NoReport(exits, n - 1, pid);
    }
  }

  /** Service `i` is due, and its dependency has been decided. */
  predicate Due(c: Config, runs: seq<Run>, tick: nat, i: nat)
    requires i < |runs| == |c.services|
  {
    && (runs[i].state == Stopped || (runs[i].state == Backoff && runs[i].ready <= tick))
    && (Parent(c.services, i) >= 0 ==> runs[Parent(c.services, i)].state in {Running, Complete, Failed})
  }

  /** What a start attempt makes of the fields, `pid` being the result of `fork`: a service that is stopped or whose
      wait is over fails with the one it starts after, or runs when that one has come up, or waits again. */
  ghost predicate Attempted(c: Config, before: seq<Run>, tick: nat, i: nat, pid: int, after: seq<Run>)
    requires i < |before| == |after| == |c.services|
  {
    var p, run := Parent(c.services, i), before[i];
    var over := run.state == Stopped || (run.state == Backoff && run.ready <= tick);
    && (forall k :: 0 <= k < |before| && k != i ==> after[k] == before[k])
    && after[i] ==
       if over && p >= 0 && before[p].state == Failed then run.(state := Failed)
       else if over && (p < 0 || before[p].state in {Running, Complete}) then
         if pid < 0 then run.(state := Backoff, ready := tick + c.delay) else run.(state := Running, pid := pid)
       else run
  }

  /** With nothing active and nothing due, nothing is stopped. */
  lemma NothingDue(c: Config, runs: seq<Run>, tick: nat)
    requires Acceptable(c.services) && |runs| == |c.services|
    requires forall k :: 0 <= k < |runs| ==> !Due(c, runs, tick, k) && !Active(runs[k].state)
    ensures forall k :: 0 <= k < |runs| ==> Terminal(runs[k].state)
  {
    hide OnCycle, Index, Follow;
    forall k | 0 <= k < |runs| && runs[k].state == Stopped
      ensures Parent(c.services, k) >= 0 && runs[Parent(c.services, k)].state == Stopped
    {
      assert !Due(c, runs, tick, k);
    }
    forall k | 0 <= k < |runs| ensures Terminal(runs[k].state) {
      assert !Active(runs[k].state);
      AcyclicRooted(c.services, k);
      var n: nat :| Follow(c.services, k, n) == -1;
      StuckOnlyIfDone(c.services, runs, k, n);
    }
  }

  /** Service `i` has an event from position `from` on. */
  ghost predicate Acted(log: seq<Event>, from: nat, i: nat) {
    exists j :: from <= j < |log| && log[j].service == i
  }

  lemma ActedMore(before: seq<Event>, log: seq<Event>, from: nat, i: nat)
    requires Acted(before, from, i) && before <= log
    ensures Acted(log, from, i)
  {
    var j :| from <= j < |before| && before[j].service == i;
    assert log[j].service == i;
  }

  /** Where the pids of running services come from in a start pass. */
  ghost predicate From(before: seq<Run>, runs: seq<Run>, forks: seq<int>, k: nat)
    requires |before| == |runs| == |forks| && k < |runs|
  {
    runs[k].state == Running ==>
      if before[k].state == Running then runs[k].pid == before[k].pid else 0 <= forks[k] == runs[k].pid
  }

  lemma DistinctWithout(runs: seq<Run>, i: nat)
    requires i < |runs|
    ensures forall next: Run {:trigger runs[i := next]} :: DistinctPids(runs) && next.state != Running ==>
              DistinctPids(runs[i := next])
  {
  }

  lemma StillDistinct(before: seq<Run>, runs: seq<Run>, forks: seq<int>)
    requires AllFrom(before, runs, forks)
    requires DistinctPids(before) && Fresh(before, forks)
    ensures DistinctPids(runs)
  {
    forall j, k | 0 <= j < k < |runs| && runs[j].state == Running && runs[k].state == Running
      ensures runs[j].pid != runs[k].pid
    {
      assert From(before, runs, forks, j) && From(before, runs, forks, k);
      assert !(Owns(before, j, forks[k]) && forks[k] >= 0) && !(Owns(before, k, forks[j]) && forks[j] >= 0);
    }
  }

  class Supervisor {
    const config: Config
    var runs: seq<Run>
    var tick: nat
    var reported: bool
    ghost var log: seq<Event>

    ghost predicate Valid()
      reads this
    {
      && Acceptable(config.services) && |runs| == |config.services|
      && Legal(config, log)
      && (forall k :: 0 <= k < |log| ==> log[k].tick <= tick)
      && (forall i :: 0 <= i < |runs| ==> Tied(config, log, runs[i], i))
      && (reported ==> Settled())
    }

    predicate Settled()
      reads this
    {
      forall i :: 0 <= i < |runs| ==> Terminal(runs[i].state)
    }

    predicate Idle()
      reads this
    {
      forall i :: 0 <= i < |runs| ==> !Active(runs[i].state)
    }

    constructor (c: Config)
      requires Acceptable(c.services)
      ensures Valid() && config == c && log == [] && tick == 0 && !reported
    {
      config := c;
      runs := seq(|c.services|, _ => Run(Stopped, 0, 0, 0, 0));
      tick, reported, log := 0, false, [];
    }

    /** One event of service `i`, with its new fields. */
    ghost predicate Changed(before: seq<Run>, beforeLog: seq<Event>, i: nat, kind: Kind)
      reads this
    {
      && i < |before| && log == beforeLog + [Event(i, kind, tick)]
      && |runs| == |before| && runs == before[i := runs[i]] && runs[i].state == After(kind)
    }

    /** Stores the new fields of service `i` and the event that goes with them. */
    method Apply(i: nat, kind: Kind, next: Run)
      requires Valid() && i < |runs| && next.state == After(kind) && !Terminal(runs[i].state)
      requires Allowed(config, log, Event(i, kind, tick))
      requires next.restarts == runs[i].restarts + if kind == Stop then 1 else 0
      requires if kind in {Stop, ForkFail} then next.ready == tick + config.delay else next.ready == runs[i].ready
      modifies this`runs, this`log
      ensures Valid() && Changed(old(runs), old(log), i, kind) && runs[i] == next
    {
      ghost var e := Event(i, kind, tick);
      TiedSelf(config, log, runs[i], next, e);
      forall k | 0 <= k < |runs| && k != i ensures Tied(config, log + [e], runs[k], k) {
        TiedOther(config, log, runs[k], k, e);
      }
      LegalOn(config, log, e);
      runs := runs[i := next];
      log := log + [e];
    }

    /** The running service with that process, or -1. */
    method ServiceByPid(pid: int) returns (r: int)
      ensures -1 <= r < |runs|
      ensures r >= 0 ==> Owns(runs, r, pid)
      ensures r < 0 ==> forall k :: !Owns(runs, k, pid)
    {
      var i := 0;
      while i < |runs|
        invariant 0 <= i <= |runs|
        invariant forall k :: 0 <= k < i ==> !Owns(runs, k, pid)
      {
        if runs[i].state == Running && runs[i].pid == pid {
          return i;
        }
        i := i + 1;
      }
      return -1;
    }

    /** The exit of service `i` has been recorded. */
    ghost predicate Charged(before: seq<Run>, beforeLog: seq<Event>, i: nat, status: nat)
      requires i < |before| == |config.services|
      reads this
    {
      && Changed(before, beforeLog, i, Verdict(config, i, before[i].restarts, status))
      && runs[i] == Charge(config, i, before[i], status, tick)
    }

    /** A reported exit touches only the service that ran the process. */
    method RecordExit(pid: int, status: nat) returns (ghost charged: int)
      requires Valid()
      modifies this`runs, this`log
      ensures Valid()
      ensures (forall k :: !Owns(old(runs), k, pid)) ==> runs == old(runs) && log == old(log)
      ensures -1 <= charged < |old(runs)| && (charged < 0 <==> forall k :: !Owns(old(runs), k, pid))
      ensures charged >= 0 ==> Owns(old(runs), charged, pid) && Charged(old(runs), old(log), charged, status)
      ensures charged >= 0 ==>
                && runs == old(runs)[charged := runs[charged]]
                && Recorded(config, config.services[charged].policy, old(runs)[charged], status, tick, runs[charged])
      ensures DistinctPids(old(runs)) ==> DistinctPids(runs)
    {
      var i := ServiceByPid(pid);
      charged := i;
      if i < 0 {
        return;
      }
      ChargeRecords(config, i, runs[i], status, tick);
      ExitAllowed(config, log, runs[i], i, status, tick);
      DistinctWithout(runs, i);
      hide Recorded, Allowed, Tied, Legal, Acceptable, DistinctPids;
      var exit := ExitStatus(status);
      var run := runs[i].(pid := 0, exit := exit);
      if config.services[i].policy == Once {
        if exit == 0 {
          Apply(i, Finish, run.(state := Complete));
        } else {
          Apply(i, Fail, run.(state := Failed));
        }
        return;
      }
      if run.restarts >= config.limit {
        Apply(i, Fail, run.(state := Failed));
        return;
      }
      Apply(i, Stop, run.(state := Backoff, restarts := run.restarts + 1, ready := tick + config.delay));
    }

    /** What a start attempt does: `pid` is the result of `fork`. */
    function Attempt(i: nat, pid: int): Kind
      requires i < |runs| == |config.services|
      reads this
    {
      if Parent(config.services, i) >= 0 && runs[Parent(config.services, i)].state == Failed then Fail
      else if pid < 0 then ForkFail
      else Spawn
    }

    method StartOne(i: nat, pid: int)
      requires Valid() && i < |runs|
      modifies this`runs, this`log
      ensures Valid()
      ensures !Due(config, old(runs), tick, i) ==> runs == old(runs) && log == old(log)
      ensures Due(config, old(runs), tick, i) ==> Changed(old(runs), old(log), i, old(Attempt(i, pid)))
      ensures Due(config, old(runs), tick, i) && runs[i].state == Running ==> runs[i].pid == pid >= 0
      ensures |runs| == |old(runs)| && Attempted(config, old(runs), tick, i, pid, runs)
    {
      hide Allowed, Tied, Legal, Acceptable, Parent;
      var run := runs[i];
      if run.state != Stopped && run.state != Backoff {
        return;
      }
      if run.state == Backoff && run.ready > tick {
        return;
      }
      StartAllowed(config, log, runs, i, tick);
      var parent := Parent(config.services, i);
      if parent >= 0 {
        if runs[parent].state == Failed {
          Apply(i, Fail, run.(state := Failed));
          return;
        }
        if runs[parent].state != Running && runs[parent].state != Complete {
          return;
        }
      }
      if pid < 0 {
        Apply(i, ForkFail, run.(state := Backoff, ready := tick + config.delay));
      } else {
        Apply(i, Spawn, run.(state := Running, pid := pid));
      }
    }

    /** One start pass.  Something happens if anything is left to do and nothing is active. */
    method StartReady(forks: seq<int>)
      requires Valid() && |forks| == |runs|
      modifies this`runs, this`log
      ensures Valid() && |runs| == |old(runs)|
      ensures old(log) <= log
      ensures old(Settled()) ==> runs == old(runs) && log == old(log)
      ensures old(Idle()) && !old(Settled()) ==> |log| > |old(log)|
      ensures DistinctPids(old(runs)) && Fresh(old(runs), forks) ==> DistinctPids(runs)
      ensures AllFrom(old(runs), runs, forks)
      ensures forall k :: 0 <= k < |runs| && Due(config, old(runs), tick, k) ==> Acted(log, |old(log)|, k)
    {
      hide Acceptable, Legal, Tied, Parent, DistinctPids, Fresh;
      var i := 0;
      while i < |runs|
        invariant 0 <= i <= |runs| == |old(runs)| && Valid() && old(log) <= log
        invariant log == old(log) ==> runs == old(runs)
        invariant forall k :: i <= k < |runs| ==> runs[k] == old(runs)[k]
        invariant forall k :: 0 <= k < |runs| ==> From(old(runs), runs, forks, k)
        invariant forall k :: 0 <= k < |runs| && old(runs)[k].state in {Running, Complete, Failed} ==>
                    runs[k] == old(runs)[k]
        invariant forall k :: 0 <= k < i && Due(config, old(runs), tick, k) ==> Acted(log, |old(log)|, k)
        invariant log == old(log) ==> forall k :: 0 <= k < i ==> !Due(config, old(runs), tick, k)
        invariant old(Settled()) ==> log == old(log)
      {
        ghost var before, beforeLog := runs, log;
        StartOne(i, forks[i]);
        assert Due(config, old(runs), tick, i) ==> Due(config, before, tick, i) && log[|beforeLog|].service == i;
        forall k | 0 <= k < i && Due(config, old(runs), tick, k) ensures Acted(log, |old(log)|, k) {
          ActedMore(beforeLog, log, |old(log)|, k);
        }
        assert forall k :: 0 <= k < |runs| && k != i ==> runs[k] == before[k] && From(old(runs), before, forks, k);
        i := i + 1;
      }
      if DistinctPids(old(runs)) && Fresh(old(runs), forks) {
        StillDistinct(old(runs), runs, forks);
      }
      if log == old(log) && old(Idle()) {
        NothingDue(config, runs, tick);
      }
    }

    /** The reaping loop of a turn: each exit is charged to the one service whose process it is. */
    method ReapAll(exits: seq<Exit>)
      requires Valid()
      modifies this`runs, this`log
      ensures Valid() && |runs| == |old(runs)| && old(log) <= log
      ensures DistinctPids(old(runs)) ==>
                Reaped(config, old(runs), exits, |exits|, tick, runs) && DistinctPids(runs)
                && log == old(log) + ExitEvents(config, old(runs), exits, |exits|, tick)
      ensures old(Settled()) || old(Idle()) ==> runs == old(runs) && log == old(log)
    {
      hide Acceptable, Legal, Tied, DistinctPids, Reaped, Charge, Verdict, Recorded;
      ReapedNone(config, runs, exits, tick);
      var i := 0;
      while i < |exits|
        invariant 0 <= i <= |exits| && Valid() && |runs| == |old(runs)| && old(log) <= log
        invariant DistinctPids(old(runs)) ==>
                    Reaped(config, old(runs), exits, i, tick, runs)
                    && log == old(log) + ExitEvents(config, old(runs), exits, i, tick)
        invariant old(Settled()) || old(Idle()) ==> runs == old(runs) && log == old(log)
      {
        ghost var before := runs;
        ghost var k := RecordExit(exits[i].0, exits[i].1);
        if DistinctPids(old(runs)) {
          ReapedMore(config, old(runs), exits, i, tick, before, runs, k);
        }
        i := i + 1;
      }
      if DistinctPids(old(runs)) {
        ReapedDistinct(config, old(runs), exits, |exits|, tick, runs);
      }
    }

    /** One turn of the main loop: `exits` is what `waitpid` reports, `forks` what `fork` returns, and `mid` the
        services between reaping and starting. */
    method Turn(exits: seq<Exit>, forks: seq<int>) returns (ghost mid: seq<Run>)
      requires Valid() && |forks| == |runs|
      modifies this
      ensures Valid() && |runs| == |old(runs)| == |mid| && old(log) <= log && tick == old(tick) + 1
      ensures DistinctPids(old(runs)) ==>
                Reaped(config, old(runs), exits, |exits|, old(tick), mid)
                && old(log) + ExitEvents(config, old(runs), exits, |exits|, old(tick)) <= log
      ensures AllFrom(mid, runs, forks)
      ensures DistinctPids(old(runs)) && Fresh(mid, forks) ==> DistinctPids(runs)
      ensures old(Settled()) ==> runs == old(runs) && log == old(log) && reported
      ensures old(Idle()) && !old(Settled()) ==> |log| > |old(log)|
      ensures reported <==> old(reported) || Settled()
    {
      hide Acceptable, Legal, Tied, Parent, DistinctPids, Fresh, Reaped, ExitEvents, From;
      ReapAll(exits);
      mid := runs;
      StartReady(forks);
      if !reported {
        var done := true;
        var i := 0;
        while i < |runs|
          invariant 0 <= i <= |runs| && (done <==> forall k :: 0 <= k < i ==> Terminal(runs[k].state))
        {
          done := done && Terminal(runs[i].state);
          i := i + 1;
        }
        reported := done;
      }
      tick := tick + 1;
    }

    /** Every run, whatever the processes do, keeps a legal log.  With pids as the kernel gives them out,
        running processes stay distinct and every reported exit is charged to the service whose process it is. */
    method RunAll(turns: seq<Round>) returns (ghost history: seq<Moment>)
      requires Valid() && forall k :: 0 <= k < |turns| ==> |turns[k].1| == |runs|
      modifies this
      ensures Valid() && old(log) <= log && tick == old(tick) + |turns|
      ensures |history| == |turns| + 1 && history[0] == Moment(old(runs), old(log))
      ensures history[|turns|] == Moment(runs, log)
      ensures DistinctPids(old(runs)) && Honest(Pids(old(runs)), turns) ==>
                DistinctPids(runs) && forall t :: 0 <= t < |turns| ==>
                  DistinctPids(history[t].runs)
                  && TurnDone(config, old(tick) + t, history[t], turns[t], history[t + 1])
      ensures forall i :: 0 <= i < |runs| ==>
        Count(log, i, Spawn) <= (if config.services[i].policy == Once then 1 else config.limit + 1)
      ensures old(reported) ==> reported && log == old(log)
    {
      hide Acceptable, Legal, Tied, Honest, Pids, DistinctPids, Fresh, TurnDone, Reaped, Reports, Forked, AllFrom,
           ExitEvents;
      history := [Moment(runs, log)];
      ghost var honest := DistinctPids(runs) && Honest(Pids(runs), turns);
      ghost var alive := Pids(runs);
      var t := 0;
      assert turns[0..] == turns;
      while t < |turns|
        invariant 0 <= t <= |turns| && Valid() && |runs| == |old(runs)| && old(log) <= log && tick == old(tick) + t
        invariant honest ==> DistinctPids(runs) && Pids(runs) <= alive && Honest(alive, turns[t..])
        invariant |history| == t + 1 && history[0] == Moment(old(runs), old(log)) && history[t] == Moment(runs, log)
        invariant honest ==> forall u :: 0 <= u < t ==>
                    DistinctPids(history[u].runs)
                    && TurnDone(config, old(tick) + u, history[u], turns[u], history[u + 1])
        invariant old(reported) ==> reported && log == old(log)
      {
        ghost var a := Moment(runs, log);
        assert turns[t..] == [turns[t]] + turns[t + 1..];
        ghost var mid := Turn(turns[t].0, turns[t].1);
        if honest {
          HonestFresh(config, a.runs, turns[t], alive, old(tick) + t, mid, runs, turns[t + 1..]);
          Done(config, old(tick) + t, a, turns[t], mid, Moment(runs, log));
          alive := alive - Reports(turns[t].0) + Forked(turns[t].1);
        }
        history := history + [Moment(runs, log)];
        t := t + 1;
      }
      forall i | 0 <= i < |runs|
        ensures Count(log, i, Spawn) <= (if config.services[i].policy == Once then 1 else config.limit + 1)
      {
        SpawnBound(config, log, i);
      }
    }
  }
}

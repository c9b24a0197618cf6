/**
 The process life cycle of kernel/task.c as a state machine over the task list.

 The linked list `task_list` is a sequence in list order.  `current` is a pid
 (0 once the machine has halted).  `exits` and `reports` are the history of what
 user space asked for and what `wait` handed back; no step reads them.
 */
module Sched {

  const INT32_MAX: int := 0x7fff_ffff

  datatype Status = Runnable | Blocked | Zombie

  /** `writable` is the set of user addresses the task may write (its address space). */
  datatype Task = Task(pid: int, ppid: int, status: Status, exitStatus: int,
                       waitPid: int, waitAddr: nat, writable: set<nat>)

  /** One successful wait: who waited, for whom, the status word, and whether it was stored. */
  datatype Report = Report(waiter: int, child: int, status: int, addr: nat, stored: bool)

  /** One exit: the code passed to the call and the pid of the parent. */
  datatype Death = Death(code: int, parent: int)

  datatype State = State(tasks: seq<Task>, nextPid: int, current: int,
                         exits: map<int, Death>, reports: seq<Report>)

  /** How far `task_fork` gets before memory runs out. */
  datatype ForkOutcome = NoTask | NoSpace | Forked

  datatype Op =
    | Yield
    | Fork(outcome: ForkOutcome)
    | Wait(pid: int, addr: nat, nohang: bool)
    | Exit(code: int)
    | Remap(writable: set<nat>)

  datatype WaitResult = Failed | NotYet | Reaped(pid: int) | Suspended

  // ----- Searches over the list

  /** First index at or after `i` with the given pid, or -1. */
  function FindFrom(tasks: seq<Task>, pid: int, i: nat): (r: int)
    requires i <= |tasks|
    ensures r == -1 || i <= r < |tasks|
    ensures r >= 0 ==> tasks[r].pid == pid && forall j :: i <= j < r ==> tasks[j].pid != pid
    ensures r < 0 ==> forall j :: i <= j < |tasks| ==> tasks[j].pid != pid
    decreases |tasks| - i
  {
    if i == |tasks| then -1 else if tasks[i].pid == pid then i else FindFrom(tasks, pid, i + 1)
  }

  function Find(tasks: seq<Task>, pid: int): (r: int)
    ensures -1 <= r < |tasks|
    ensures r >= 0 ==> tasks[r].pid == pid
    ensures r < 0 ==> forall j :: 0 <= j < |tasks| ==> tasks[j].pid != pid
  {
    FindFrom(tasks, pid, 0)
  }

  /** First runnable index in [lo, hi), or -1. */
  function FirstRunnable(tasks: seq<Task>, lo: nat, hi: nat): (r: int)
    requires lo <= hi <= |tasks|
    ensures r == -1 || lo <= r < hi
    ensures r >= 0 ==> tasks[r].status.Runnable? && forall j :: lo <= j < r ==> !tasks[j].status.Runnable?
    ensures r < 0 ==> forall j :: lo <= j < hi ==> !tasks[j].status.Runnable?
    decreases hi - lo
  {
    if lo == hi then -1 else if tasks[lo].status.Runnable? then lo else FirstRunnable(tasks, lo + 1, hi)
  }

  /** Steps of `after` from position `c` until position `j` is visited, less one. */
  function Distance(n: nat, c: nat, j: nat): (d: nat)
    requires c < n && j < n
    ensures d < n
  {
    if j > c then j - c - 1 else j + n - c - 1
  }

  /** The nearest runnable task after position `c` in the circular order, `c` itself last. */
  function Next(tasks: seq<Task>, c: nat): (r: int)
    requires c < |tasks|
    ensures -1 <= r < |tasks|
    ensures r < 0 <==> forall j :: 0 <= j < |tasks| ==> !tasks[j].status.Runnable?
    ensures r >= 0 ==> tasks[r].status.Runnable?
    ensures r >= 0 ==> forall j :: 0 <= j < |tasks| && tasks[j].status.Runnable? ==>
                         Distance(|tasks|, c, r) <= Distance(|tasks|, c, j)
  {
    var a := FirstRunnable(tasks, c + 1, |tasks|);
    if a >= 0 then a else FirstRunnable(tasks, 0, c + 1)
  }

  predicate Matches(child: Task, parent: int, pid: int) {
    child.ppid == parent && (pid == -1 || pid == child.pid)
  }

  /** First zombie at or after `i` that a wait by `parent` for `pid` would take, or -1. */
  function ZombieFrom(tasks: seq<Task>, parent: int, pid: int, i: nat): (r: int)
    requires i <= |tasks|
    ensures r == -1 || i <= r < |tasks|
    ensures r >= 0 ==> Matches(tasks[r], parent, pid) && tasks[r].status.Zombie?
    ensures r < 0 ==> forall j :: i <= j < |tasks| && Matches(tasks[j], parent, pid) ==> !tasks[j].status.Zombie?
    decreases |tasks| - i
  {
    if i == |tasks| then -1
    else if Matches(tasks[i], parent, pid) && tasks[i].status.Zombie? then i
    else ZombieFrom(tasks, parent, pid, i + 1)
  }

  predicate HasChild(tasks: seq<Task>, parent: int, pid: int) {
    exists j :: 0 <= j < |tasks| && Matches(tasks[j], parent, pid)
  }

  predicate StatusWritable(t: Task, addr: nat) {
    addr == 0 || (forall k :: addr <= k < addr + 4 ==> k in t.writable)
  }

  function Without<T>(s: seq<T>, i: nat): (r: seq<T>)
    requires i < |s|
    ensures |r| == |s| - 1
  {
    s[..i] + s[i + 1..]
  }

  // ----- Pids

  function SuccPid(pid: int): int {
    if pid == INT32_MAX then 1 else pid + 1
  }

  predicate FreePid(tasks: seq<Task>, pid: int) {
    1 <= pid <= INT32_MAX && Find(tasks, pid) < 0
  }

  /** The first unused pid at or after `next` in the wrapping order.  `free` witnesses
      that one exists; the source loops for ever when none does. */
  function AllocPid(tasks: seq<Task>, next: int, ghost free: int): (r: int)
    requires 1 <= next <= INT32_MAX && FreePid(tasks, free)
    ensures FreePid(tasks, r)
    ensures Find(tasks, next) < 0 ==> r == next
    decreases if free >= next then free - next else free + INT32_MAX - next
  {
    if Find(tasks, next) < 0 then next else AllocPid(tasks, SuccPid(next), free)
  }

  // ----- Steps

  function Init(writable: set<nat>): State {
    State([Task(1, 0, Runnable, 0, 0, 0, writable)], 2, 1, map[], [])
  }

  /** Position of the running task. */
  function Cur(s: State): (c: int)
    ensures -1 <= c < |s.tasks|
    ensures c >= 0 ==> s.tasks[c].pid == s.current
  {
    Find(s.tasks, s.current)
  }

  function DoYield(s: State): State
    requires Cur(s) >= 0
  {
    var next := Next(s.tasks, Cur(s));
    if next < 0 then s else s.(current := s.tasks[next].pid)
  }

  ghost function DoFork(s: State, outcome: ForkOutcome): State
    requires Cur(s) >= 0
    requires 1 <= s.nextPid <= INT32_MAX && exists w :: FreePid(s.tasks, w)
  {
    var free :| FreePid(s.tasks, free);
    var pid := AllocPid(s.tasks, s.nextPid, free);
    var parent := s.tasks[Cur(s)];
    match outcome
    case NoTask => s
    case NoSpace => s.(nextPid := SuccPid(pid))
    case Forked => s.(nextPid := SuccPid(pid),
                      tasks := s.tasks + [Task(pid, parent.pid, Runnable, 0, 0, 0, parent.writable)])
  }

  /** Taking the zombie at index `z` out of the list and handing its status to `waiter`. */
  function Reap(s: State, waiter: Task, z: nat, addr: nat): State
    requires z < |s.tasks|
  {
    var child := s.tasks[z];
    s.(tasks := Without(s.tasks, z),
       reports := s.reports + [Report(waiter.pid, child.pid, child.exitStatus * 256, addr,
                                      StatusWritable(waiter, addr))])
  }

  function DoWait(s: State, pid: int, addr: nat, nohang: bool): (r: (State, WaitResult))
    requires Cur(s) >= 0
  {
    var c := Cur(s);
    var me := s.tasks[c];
    if !StatusWritable(me, addr) then (s, Failed) else
    var z := ZombieFrom(s.tasks, me.pid, pid, 0);
    if z >= 0 then (Reap(s, me, z, addr), Reaped(s.tasks[z].pid))
    else if !HasChild(s.tasks, me.pid, pid) then (s, Failed)
    else if nohang then (s, NotYet)
    else
      var blocked := s.tasks[c := me.(status := Blocked, waitPid := pid, waitAddr := addr)];
      var next := Next(blocked, c);
      if next < 0 then (s.(tasks := s.tasks[c := me.(waitPid := pid, waitAddr := addr)]), Failed)
      else (s.(tasks := blocked, current := blocked[next].pid), Suspended)
  }

  /** Index of the parent that the exit of `dead` wakes, or -1. */
  function Woken(tasks: seq<Task>, dead: Task): (r: int)
    ensures -1 <= r < |tasks|
    ensures r >= 0 ==> tasks[r].pid == dead.ppid && tasks[r].status.Blocked?
                       && (tasks[r].waitPid == -1 || tasks[r].waitPid == dead.pid)
  {
    var p := Find(tasks, dead.ppid);
    if p >= 0 && tasks[p].status.Blocked? && (tasks[p].waitPid == -1 || tasks[p].waitPid == dead.pid)
    then p else -1
  }

  function DoExit(s: State, code: int): State
    requires Cur(s) >= 0
  {
    var c := Cur(s);
    var dead := s.tasks[c].(status := Zombie, exitStatus := code % 256);
    var tasks := s.tasks[c := dead];
    var s1 := s.(tasks := tasks, exits := s.exits[dead.pid := Death(code, dead.ppid)]);
    var p := Woken(tasks, dead);
    if p < 0 then
      var next := Next(tasks, c);
      s1.(current := if next < 0 then 0 else tasks[next].pid)
    else
      var woken := tasks[p := tasks[p].(status := Runnable)];
      var next := Next(woken, c);
      Reap(s1.(tasks := woken, current := if next < 0 then 0 else woken[next].pid), tasks[p], c, tasks[p].waitAddr)
  }

  function DoRemap(s: State, writable: set<nat>): State
    requires Cur(s) >= 0
  {
    s.(tasks := s.tasks[Cur(s) := s.tasks[Cur(s)].(writable := writable)])
  }

  /** One system call by the running task.  A halted machine takes no step, and a fork
      that finds no unused pid never returns. */
  ghost function Step(s: State, op: Op): State {
    if Cur(s) < 0 then s else
    match op
    case Yield => DoYield(s)
    case Fork(outcome) =>
      if 1 <= s.nextPid <= INT32_MAX && exists w :: FreePid(s.tasks, w) then DoFork(s, outcome) else s
    case Wait(pid, addr, nohang) => DoWait(s, pid, addr, nohang).0
    case Exit(code) => DoExit(s, code)
    case Remap(writable) => DoRemap(s, writable)
  }

  ghost function Run(s: State, ops: seq<Op>): State
    decreases |ops|
  {
    if ops == [] then s else Step(Run(s, ops[..|ops| - 1]), ops[|ops| - 1])
  }

  /** A fork that got as far as drawing a pid. */
  predicate Drawing(op: Op) {
    op.Fork? && !op.outcome.NoTask?
  }

  /** How many of the steps draw a pid. */
  function Draws(ops: seq<Op>): (n: nat)
    ensures n <= |ops|
  {
    if ops == [] then 0
    else Draws(ops[..|ops| - 1]) + (if Drawing(ops[|ops| - 1]) then 1 else 0)
  }
}

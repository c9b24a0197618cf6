/**
 What each life-cycle step of kernel/task.c does, told on the task list itself: which task is found,
 what exactly changes, and who runs next.
 */
module SchedLaws {
  import opened Sched

  /** `r` is the first task to run after position `c` going round the list; `c` itself is the last choice. */
  ghost predicate Nearest(tasks: seq<Task>, c: int, r: int) {
    && 0 <= r < |tasks| && tasks[r].status.Runnable?
    && forall j :: 0 <= j < |tasks| && (if c < r then c < j < r else j > c || j < r) ==> !tasks[j].status.Runnable?
  }

  ghost predicate NobodyRuns(tasks: seq<Task>) {
    forall j :: 0 <= j < |tasks| ==> !tasks[j].status.Runnable?
  }

  /** The pid of the nearest runnable task, or 0 when there is none. */
  ghost predicate RunsNext(tasks: seq<Task>, c: int, current: int) {
    if NobodyRuns(tasks) then current == 0 else exists r :: Nearest(tasks, c, r) && current == tasks[r].pid
  }

  lemma NextNearest(tasks: seq<Task>, c: nat)
    requires c < |tasks|
    ensures Next(tasks, c) < 0 <==> NobodyRuns(tasks)
    ensures Next(tasks, c) >= 0 ==> Nearest(tasks, c, Next(tasks, c))
  {
  }

  // ----- Wait

  ghost predicate Wanted(t: Task, me: int, pid: int) {
    t.ppid == me && (pid == -1 || t.pid == pid)
  }

  /** Position `z` holds the first zombie in list order that a wait by `me` for `pid` is about. */
  ghost predicate FirstDead(tasks: seq<Task>, me: int, pid: int, z: int) {
    && 0 <= z < |tasks| && Wanted(tasks[z], me, pid) && tasks[z].status.Zombie?
    && forall j :: 0 <= j < z && Wanted(tasks[j], me, pid) ==> !tasks[j].status.Zombie?
  }

  /** No status is asked for, or all four bytes of it can be stored. */
  ghost predicate Storable(t: Task, addr: nat) {
    addr == 0 || {addr, addr + 1, addr + 2, addr + 3} <= t.writable
  }

  /** The task at `z` is gone, and its status in the form of `wait` has been reported to `me`. */
  ghost predicate TakenOut(s: State, me: int, z: int, addr: nat, stored: bool, t: State)
    requires 0 <= z < |s.tasks|
  {
    && t.tasks == s.tasks[..z] + s.tasks[z + 1..]
    && t.reports == s.reports + [Report(me, s.tasks[z].pid, s.tasks[z].exitStatus * 256, addr, stored)]
  }

  /** The wait of the task at `c` takes `s` to `t` with result `r`. */
  ghost predicate WaitDone(s: State, c: int, pid: int, addr: nat, nohang: bool, t: State, r: WaitResult)
    requires 0 <= c < |s.tasks|
  {
    var me := s.tasks[c];
    var waiting := me.(waitPid := pid, waitAddr := addr);
    var blocked := s.tasks[c := waiting.(status := Blocked)];
    if !Storable(me, addr) then r == Failed && t == s
    else if exists z :: FirstDead(s.tasks, me.pid, pid, z) then
      exists z :: FirstDead(s.tasks, me.pid, pid, z) && r == Reaped(s.tasks[z].pid)
                  && TakenOut(s, me.pid, z, addr, true, t) && t == s.(tasks := t.tasks, reports := t.reports)
    else if forall j :: 0 <= j < |s.tasks| ==> !Wanted(s.tasks[j], me.pid, pid) then r == Failed && t == s
    else if nohang then r == NotYet && t == s
    else if NobodyRuns(blocked) then r == Failed && t == s.(tasks := s.tasks[c := waiting])
    else r == Suspended && RunsNext(blocked, c, t.current) && t == s.(tasks := blocked, current := t.current)
  }

  lemma {:induction false} NoneDeadBefore(tasks: seq<Task>, me: int, pid: int, i: nat, j: nat)
    requires i <= j < |tasks| && Wanted(tasks[j], me, pid) && tasks[j].status.Zombie?
    ensures 0 <= ZombieFrom(tasks, me, pid, i) <= j
    decreases |tasks| - i
  {
    if i < j {
      NoneDeadBefore(tasks, me, pid, i + 1, j);
    }
  }

  lemma FirstDeadIff(tasks: seq<Task>, me: int, pid: int)
    ensures var z := ZombieFrom(tasks, me, pid, 0);
            if z >= 0 then FirstDead(tasks, me, pid, z) else forall k :: !FirstDead(tasks, me, pid, k)
    ensures HasChild(tasks, me, pid) <==> exists j :: 0 <= j < |tasks| && Wanted(tasks[j], me, pid)
  {
    forall j | 0 <= j < |tasks| ensures Wanted(tasks[j], me, pid) <==> Matches(tasks[j], me, pid) {
    }
    forall j: nat | j < |tasks| && Wanted(tasks[j], me, pid) && tasks[j].status.Zombie?
      ensures 0 <= ZombieFrom(tasks, me, pid, 0) <= j
    {
      NoneDeadBefore(tasks, me, pid, 0, j);
    }
  }

  /** Of several dead children the first in list order is taken, and no other task is touched. */
  lemma WaitLaw(s: State, pid: int, addr: nat, nohang: bool)
    requires Cur(s) >= 0 && s.tasks[Cur(s)].status.Runnable?
    ensures var r := DoWait(s, pid, addr, nohang);
            WaitDone(s, Cur(s), pid, addr, nohang, r.0, r.1)
  {
    hide ZombieFrom, HasChild, Next, FirstRunnable, Find, FindFrom, FirstDead;
    var c := Cur(s);
    var me := s.tasks[c];
    FirstDeadIff(s.tasks, me.pid, pid);
    assert Storable(me, addr) <==> StatusWritable(me, addr) by { StorableIff(me, addr); }
    var blocked := s.tasks[c := me.(status := Blocked, waitPid := pid, waitAddr := addr)];
    NextNearest(blocked, c);
    var z := ZombieFrom(s.tasks, me.pid, pid, 0);
    assert z >= 0 ==> FirstDead(s.tasks, me.pid, pid, z);
    assert me.(waitPid := pid, waitAddr := addr).(status := Blocked) == blocked[c];
  }

  lemma StorableIff(t: Task, addr: nat)
    ensures Storable(t, addr) <==> StatusWritable(t, addr)
  {
  }

  // ----- Fork

  /** Position `p` in the order of pids from `from` on comes before `to`. */
  predicate PidBefore(from: int, p: int, to: int) {
    if from <= to then from <= p < to else from <= p || p < to
  }

  ghost predicate PidTaken(tasks: seq<Task>, p: int) {
    exists j :: 0 <= j < |tasks| && tasks[j].pid == p
  }

  /** `pid` is the first one from the counter on, wrapping after INT32_MAX, that no task has. */
  ghost predicate FirstPid(tasks: seq<Task>, counter: int, pid: int) {
    && 1 <= pid <= INT32_MAX && !PidTaken(tasks, pid)
    && forall p :: 1 <= p <= INT32_MAX && PidBefore(counter, p, pid) ==> PidTaken(tasks, p)
  }

  lemma TakenFound(tasks: seq<Task>, p: int)
    ensures PidTaken(tasks, p) <==> Find(tasks, p) >= 0
  {
    if Find(tasks, p) >= 0 {
      assert tasks[Find(tasks, p)].pid == p;
    }
  }

  lemma {:induction false} DrawnFirst(tasks: seq<Task>, next: int, free: int)
    requires 1 <= next <= INT32_MAX && FreePid(tasks, free)
    ensures FirstPid(tasks, next, AllocPid(tasks, next, free))
    decreases if free >= next then free - next else free + INT32_MAX - next
  {
    hide Find;
    var pid := AllocPid(tasks, next, free);
    TakenFound(tasks, pid);
    TakenFound(tasks, next);
    if Find(tasks, next) >= 0 {
      DrawnFirst(tasks, SuccPid(next), free);
      forall p | 1 <= p <= INT32_MAX && PidBefore(next, p, pid) ensures PidTaken(tasks, p) {
        assert p == next || PidBefore(SuccPid(next), p, pid);
      }
    }
  }

  /** A fork by the task at `c`: on success a runnable child with the first unused pid, the running task as
      its parent and the same writable memory, behind all others; when memory runs out later, the pid is used up. */
  ghost predicate ForkDone(s: State, c: int, outcome: ForkOutcome, t: State)
    requires 0 <= c < |s.tasks|
  {
    if outcome.NoTask? then t == s
    else exists pid ::
      && FirstPid(s.tasks, s.nextPid, pid)
      && t == s.(nextPid := if pid == INT32_MAX then 1 else pid + 1, tasks := t.tasks)
      && if outcome.NoSpace? then t.tasks == s.tasks
         else && |t.tasks| == |s.tasks| + 1 && t.tasks[..|s.tasks|] == s.tasks
              && ChildOf(s.tasks[c], pid, t.tasks[|s.tasks|])
  }

  ghost predicate ChildOf(parent: Task, pid: int, child: Task) {
    child.pid == pid && child.ppid == parent.pid && child.status.Runnable? && child.writable == parent.writable
  }

  lemma ForkLaw(s: State, outcome: ForkOutcome)
    requires Cur(s) >= 0 && 1 <= s.nextPid <= INT32_MAX && exists w :: FreePid(s.tasks, w)
    ensures ForkDone(s, Cur(s), outcome, DoFork(s, outcome))
  {
    hide Find, FirstPid, AllocPid;
    if !outcome.NoTask? {
      forall free | FreePid(s.tasks, free) ensures FirstPid(s.tasks, s.nextPid, AllocPid(s.tasks, s.nextPid, free)) {
        DrawnFirst(s.tasks, s.nextPid, free);
      }
    }
  }

  // ----- Yield and exit

  lemma YieldLaw(s: State)
    requires Cur(s) >= 0 && s.tasks[Cur(s)].status.Runnable?
    ensures var t := DoYield(s); RunsNext(s.tasks, Cur(s), t.current) && t == s.(current := t.current)
  {
    hide Find;
    NextNearest(s.tasks, Cur(s));
    assert s.tasks[Cur(s)].status.Runnable?;
  }

  /** The first task with that pid, if it is blocked in a wait that is about `child`. */
  ghost predicate WaitsFor(tasks: seq<Task>, p: int, parent: int, child: int) {
    && 0 <= p < |tasks| && tasks[p].pid == parent && (forall j :: 0 <= j < p ==> tasks[j].pid != parent)
    && tasks[p].status.Blocked? && (tasks[p].waitPid == -1 || tasks[p].waitPid == child)
  }

  /** The task at `c` exits with `code`: it is a zombie with the low byte, unless its parent waits for it; then
      the parent is runnable again, has the report, and the dead task is gone.  The nearest runnable task is next. */
  ghost predicate ExitDone(s: State, c: int, code: int, t: State)
    requires 0 <= c < |s.tasks|
  {
    var me := s.tasks[c];
    var dead := me.(status := Zombie, exitStatus := code % 256);
    var after := s.tasks[c := dead];
    && t.nextPid == s.nextPid && t.exits == s.exits[me.pid := Death(code, me.ppid)]
    && if forall p :: !WaitsFor(after, p, me.ppid, me.pid) then
         t.tasks == after && t.reports == s.reports && RunsNext(after, c, t.current)
       else
         exists p :: WaitsFor(after, p, me.ppid, me.pid) && p != c && Woke(s.(tasks := after), c, p, t)
  }

  ghost predicate Woke(s: State, c: int, p: int, t: State)
    requires 0 <= c < |s.tasks| && 0 <= p < |s.tasks|
  {
    var parent := s.tasks[p];
    var woken := s.tasks[p := parent.(status := Runnable)];
    && RunsNext(woken, c, t.current)
    && TakenOut(s.(tasks := woken), parent.pid, c, parent.waitAddr, Storable(parent, parent.waitAddr), t)
  }

  lemma WokenIff(tasks: seq<Task>, dead: Task)
    ensures var p := Woken(tasks, dead);
            if p >= 0 then WaitsFor(tasks, p, dead.ppid, dead.pid)
            else forall q :: !WaitsFor(tasks, q, dead.ppid, dead.pid)
  {
    var p := Find(tasks, dead.ppid);
    forall q | WaitsFor(tasks, q, dead.ppid, dead.pid) ensures q == p {
      assert tasks[q].pid == dead.ppid;
    }
  }

  lemma ExitLaw(s: State, code: int)
    requires Cur(s) >= 0
    ensures ExitDone(s, Cur(s), code, DoExit(s, code))
  {
    hide Find, FindFrom, Woken, Next, WaitsFor, StatusWritable, Storable;
    var c := Cur(s);
    var dead := s.tasks[c].(status := Zombie, exitStatus := code % 256);
    var tasks := s.tasks[c := dead];
    WokenIff(tasks, dead);
    NextNearest(tasks, c);
    var p := Woken(tasks, dead);
    if p >= 0 {
      assert p != c;
      assert WaitsFor(tasks, p, dead.ppid, dead.pid);
      NextNearest(tasks[p := tasks[p].(status := Runnable)], c);
      StorableIff(tasks[p], tasks[p].waitAddr);
      assert Woke(s.(tasks := tasks), c, p, DoExit(s, code));
    }
  }
}

/**
 Which zombies can still be reaped: exactly those whose parent is alive.  Nothing reparents a
 task, so a zombie without a live parent stays until its parent's pid is handed out again.
 */
module Orphans {
  import opened Sched
  import opened SchedSafety
  import opened SchedLedger

  /** A zombie that no live task has as its child. */
  ghost predicate Orphan(tasks: seq<Task>, z: Task) {
    z in tasks && z.status.Zombie? && !HasLive(tasks, z.ppid)
  }

  ghost predicate HasLive(tasks: seq<Task>, pid: int) {
    exists t :: t in tasks && t.pid == pid && !t.status.Zombie?
  }

  // ----- Orphans stay

  lemma OrphanUpdate(tasks: seq<Task>, i: nat, t: Task, z: Task)
    requires Unique(tasks) && Orphan(tasks, z) && i < |tasks|
    requires t.pid == tasks[i].pid && !tasks[i].status.Zombie?
    ensures Orphan(tasks[i := t], z)
  {
    UpdateMembers(tasks, i, t);
    FindMember(tasks, z);
    assert tasks[i] in tasks;
    FindMember(tasks, tasks[i]);
  }

  lemma OrphanWithout(tasks: seq<Task>, k: nat, z: Task, parent: Task)
    requires Unique(tasks) && Orphan(tasks, z) && k < |tasks|
    requires parent in tasks && !parent.status.Zombie? && tasks[k].ppid == parent.pid
    ensures Orphan(Without(tasks, k), z)
  {
    WithoutMembers(tasks, k);
    FindMember(tasks, z);
    assert tasks[k] in tasks;
    FindMember(tasks, tasks[k]);
  }

  lemma ForkKeepsOrphan(s: State, outcome: ForkOutcome, z: Task)
    requires Inv(s) && Cur(s) >= 0 && 2 <= s.nextPid <= INT32_MAX && Orphan(s.tasks, z)
    requires exists w :: FreePid(s.tasks, w)
    ensures Orphan(DoFork(s, outcome).tasks, z)
  {
    ForkKeeps(s, outcome);
    var after := DoFork(s, outcome).tasks;
    if outcome.Forked? {
      assert after == s.tasks + [after[|s.tasks|]];
      assert z.ppid < s.nextPid;
    } else {
      assert after == s.tasks;
    }
  }

  lemma WaitKeepsOrphan(s: State, pid: int, addr: nat, nohang: bool, z: Task)
    requires Inv(s) && Cur(s) >= 0 && Orphan(s.tasks, z)
    ensures Orphan(DoWait(s, pid, addr, nohang).0.tasks, z)
  {
    hide Orphan, Unique, Ordered, Waits, CurrentOk;
    var c := Cur(s);
    CurrentRuns(s);
    var r := DoWait(s, pid, addr, nohang);
    if r.1.Reaped? {
      assert s.tasks[c] in s.tasks;
      OrphanWithout(s.tasks, ZombieFrom(s.tasks, s.current, pid, 0), z, s.tasks[c]);
    } else if r.0 != s {
      OrphanUpdate(s.tasks, c, r.0.tasks[c], z);
      assert r.0.tasks == s.tasks[c := r.0.tasks[c]];
    }
  }

  lemma ExitKeepsOrphan(s: State, code: int, z: Task)
    requires Inv(s) && Cur(s) >= 0 && Orphan(s.tasks, z)
    ensures Orphan(DoExit(s, code).tasks, z)
  {
    hide Orphan, Waits, CurrentOk, Unique;
    var c := Cur(s);
    var dead := s.tasks[c].(status := Zombie, exitStatus := code % 256);
    var mid := s.tasks[c := dead];
    var r := AfterExit(s, code);
    CurrentRuns(s);
    OrphanUpdate(s.tasks, c, dead, z);
    UpdateMembers(s.tasks, c, dead);
    var p := Woken(mid, dead);
    if p >= 0 {
      OrphanUpdate(mid, p, mid[p].(status := Runnable), z);
      UpdateMembers(mid, p, mid[p].(status := Runnable));
      OrphanWithout(r, c, z, mid[p].(status := Runnable));
    }
  }

  lemma StepKeepsOrphan(s: State, op: Op, z: Task)
    requires Inv(s) && 1 <= s.nextPid <= INT32_MAX && Orphan(s.tasks, z)
    requires Drawing(op) ==> s.nextPid != 1
    ensures Orphan(Step(s, op).tasks, z)
  {
    if Cur(s) < 0 { return; }
    var c := Cur(s);
    CurrentRuns(s);
    hide Inv, Orphan, DoWait, DoExit;
    match op
    case Yield =>
    case Fork(outcome) =>
      if !outcome.NoTask? && exists w :: FreePid(s.tasks, w) {
        ForkKeepsOrphan(s, outcome, z);
      }
    case Remap(writable) => OrphanUpdate(s.tasks, c, s.tasks[c].(writable := writable), z) by { InvUnique(s); }
    case Wait(pid, addr, nohang) => WaitKeepsOrphan(s, pid, addr, nohang, z);
    case Exit(code) => ExitKeepsOrphan(s, code, z);
  }

  lemma InvUnique(s: State)
    requires Inv(s)
    ensures Unique(s.tasks)
  {
  }

  /** A run that does not wrap the pid counter. */
  predicate Unwrapped(s: State, ops: seq<Op>) {
    1 <= s.nextPid <= INT32_MAX && Bound(s.nextPid) + Draws(ops) <= INT32_MAX + 1
  }

  lemma {:induction false} RunKeepsFrom(s: State, ops: seq<Op>)
    requires Inv(s) && Unwrapped(s, ops)
    ensures Inv(Run(s, ops)) && 1 <= Run(s, ops).nextPid <= INT32_MAX
    ensures Bound(Run(s, ops).nextPid) <= Bound(s.nextPid) + Draws(ops)
  {
    if ops != [] {
      var front := ops[..|ops| - 1];
      RunKeepsFrom(s, front);
      StepKeeps(Run(s, front), ops[|ops| - 1]);
    }
  }

  /** No step before the wrap removes an orphan. */
  lemma {:induction false} OrphanStays(s: State, ops: seq<Op>, z: Task)
    requires Inv(s) && Unwrapped(s, ops) && Orphan(s.tasks, z)
    ensures Orphan(Run(s, ops).tasks, z)
  {
    if ops != [] {
      var front := ops[..|ops| - 1];
      OrphanStays(s, front, z);
      RunKeepsFrom(s, front);
      StepKeepsOrphan(Run(s, front), ops[|ops| - 1], z);
    }
  }

  // ----- Everyone else can be reaped

  /** What bringing a task with pid `pid` to run leaves alone: zombies and older tasks. */
  ghost predicate Spared(before: seq<Task>, after: seq<Task>, pid: int) {
    forall t :: t in before && (t.status.Zombie? || t.pid < pid) ==> t in after
  }

  lemma {:induction false} YieldsRun(s: State, n: nat)
    requires Inv(s) && Cur(s) >= 0
    ensures Inv(Yields(s, n)) && Yields(s, n) == s.(current := Yields(s, n).current) && Cur(Yields(s, n)) >= 0
    ensures Run(s, seq(n, _ => Yield)) == Yields(s, n) && Draws(seq(n, _ => Yield)) == 0
  {
    hide Inv;
    var ops := seq(n, _ => Yield);
    if n == 0 {
      assert ops == [];
    } else {
      YieldsRun(s, n - 1);
      var front := seq(n - 1, _ => Yield);
      assert ops[..n - 1] == front;
      var m := Yields(s, n - 1);
      YieldsSnoc(s, n - 1);
      YieldKeeps(m);
      YieldStays(m);
    }
  }

  lemma YieldStays(s: State)
    requires Inv(s) && Cur(s) >= 0
    ensures DoYield(s) == s.(current := DoYield(s).current) && Cur(DoYield(s)) >= 0
  {
    var next := Next(s.tasks, Cur(s));
    if next >= 0 {
      FindMember(s.tasks, s.tasks[next]);
    }
  }

  lemma {:induction false} YieldsSnoc(s: State, n: nat)
    requires Inv(s) && Cur(s) >= 0
    ensures Cur(Yields(s, n)) >= 0 && Yields(s, n + 1) == DoYield(Yields(s, n))
    decreases n
  {
    hide Inv;
    YieldKeeps(s);
    YieldStays(s);
    if n > 0 {
      YieldsSnoc(DoYield(s), n - 1);
    }
  }

  /** A runnable task gets its turn by yields alone. */
  lemma Schedule(s: State, t: Task) returns (ops: seq<Op>)
    requires Inv(s) && t in s.tasks && t.status.Runnable?
    ensures Draws(ops) == 0 && Inv(Run(s, ops)) && Run(s, ops) == s.(current := t.pid)
  {
    LiveCurrent(s, t);
    FindMember(s.tasks, t);
    var n := RoundRobin(s, Find(s.tasks, t.pid));
    YieldsRun(s, n);
    ops := seq(n, _ => Yield);
  }

  lemma LiveCurrent(s: State, t: Task)
    requires Inv(s) && t in s.tasks && !t.status.Zombie?
    ensures Cur(s) >= 0
  {
    assert s.current != 0;
    var c :| c in s.tasks && c.pid == s.current && c.status.Runnable?;
    FindMember(s.tasks, c);
  }

  /** The exit of a child that its blocked parent waits for: the child is gone, the parent can run. */
  lemma ExitUnblocks(s: State, t: Task, u: Task)
    requires Inv(s) && t in s.tasks && t.status.Blocked? && Cur(s) >= 0 && s.tasks[Cur(s)] == u
    requires Matches(u, t.pid, t.waitPid)
    ensures t.(status := Runnable) in DoExit(s, 0).tasks
    ensures forall x :: x in s.tasks && x.pid != t.pid && x.pid != u.pid ==> x in DoExit(s, 0).tasks
  {
    var c := Cur(s);
    var dead := u.(status := Zombie, exitStatus := 0);
    var mid := s.tasks[c := dead];
    CurrentRuns(s);
    UpdateMembers(s.tasks, c, dead);
    assert t in mid;
    FindMember(mid, t);
    var p := Woken(mid, dead);
    assert p == Find(mid, t.pid) && mid[p] == t;
    var r := mid[p := t.(status := Runnable)];
    UpdateMembers(mid, p, t.(status := Runnable));
    WithoutMembers(r, c);
    assert DoExit(s, 0).tasks == Without(r, c);
  }

  /** Every live task can be brought to run: if it is blocked, by letting a child it waits for run and exit. */
  lemma {:induction false} BringToRun(s: State, t: Task) returns (ops: seq<Op>, r: Task)
    requires Inv(s) && t in s.tasks && !t.status.Zombie?
    ensures Draws(ops) == 0 && Inv(Run(s, ops)) && Run(s, ops).nextPid == s.nextPid
    ensures r in Run(s, ops).tasks && r.pid == t.pid && r.ppid == t.ppid && r.status.Runnable?
    ensures Run(s, ops).current == t.pid && Spared(s.tasks, Run(s, ops).tasks, t.pid)
    decreases Bound(s.nextPid) - t.pid
  {
    hide Inv, Run, Draws, Step, DoExit, Cur, Matches, Bound;
    if t.status.Runnable? {
      ops := Schedule(s, t);
      r := t;
    } else {
      var u := WaitedFor(s, t);
      var first, v := BringToRun(s, u);
      var s1 := Run(s, first);
      assert t in s1.tasks;
      var s2 := LetExit(s, s1, t, u, v);
      hide Spared;
      r := t.(status := Runnable);
      var last := Schedule(s2, r);
      RunSnoc(s, first, Exit(0));
      RunAppend(s, first + [Exit(0)], last);
      ops := first + [Exit(0)] + last;
    }
  }

  /** One round: the child that `t` waits for has been brought to run, and exits. */
  lemma LetExit(s: State, s1: State, t: Task, u: Task, v: Task) returns (s2: State)
    requires Inv(s) && Inv(s1) && t in s.tasks && t.status.Blocked? && t in s1.tasks && t.pid < u.pid
    requires Matches(u, t.pid, t.waitPid) && v in s1.tasks && v.pid == u.pid && v.ppid == u.ppid && v.status.Runnable?
    requires s1.current == v.pid && Spared(s.tasks, s1.tasks, u.pid)
    ensures s2 == Step(s1, Exit(0)) && Inv(s2) && s2.nextPid == s1.nextPid
    ensures t.(status := Runnable) in s2.tasks && Spared(s.tasks, s2.tasks, t.pid)
  {
    hide Inv, Spared, Unique, Cur, DoExit, Step;
    RunsNow(s1, v);
    s2 := DoExit(s1, 0);
    ExitStep(s1);
    ExitUnblocks(s1, t, v);
    ExitKeeps(s1, 0);
    InvUnique(s);
    InvUnique(s1);
    SparedTwice(s, s1, s2, t, v);
  }

  lemma ExitStep(s: State)
    requires Cur(s) >= 0
    ensures Step(s, Exit(0)) == DoExit(s, 0) && DoExit(s, 0).nextPid == s.nextPid
  {
  }

  lemma WaitedFor(s: State, t: Task) returns (u: Task)
    requires Inv(s) && t in s.tasks && t.status.Blocked?
    ensures u in s.tasks && Matches(u, t.pid, t.waitPid) && !u.status.Zombie? && t.pid < u.pid < Bound(s.nextPid)
  {
    assert LiveMatch(s.tasks, t.pid, t.waitPid);
    u :| u in s.tasks && Matches(u, t.pid, t.waitPid) && !u.status.Zombie?;
  }

  lemma RunsNow(s: State, v: Task)
    requires Inv(s) && v in s.tasks && s.current == v.pid
    ensures Cur(s) >= 0 && s.tasks[Cur(s)] == v
  {
    FindMember(s.tasks, v);
  }

  lemma SparedTwice(s: State, s1: State, s2: State, t: Task, u: Task)
    requires Unique(s.tasks) && Unique(s1.tasks) && t in s.tasks && !t.status.Zombie? && t.pid < u.pid
    requires Spared(s.tasks, s1.tasks, u.pid) && u in s1.tasks && !u.status.Zombie?
    requires forall x :: x in s1.tasks && x.pid != t.pid && x.pid != u.pid ==> x in s2.tasks
    ensures Spared(s.tasks, s2.tasks, t.pid)
  {
    forall x | x in s.tasks && (x.status.Zombie? || x.pid < t.pid) ensures x in s2.tasks {
      assert x in s1.tasks;
      if x.pid == t.pid {
        FindMember(s.tasks, x);
        FindMember(s.tasks, t);
      }
      if x.pid == u.pid {
        FindMember(s1.tasks, x);
        FindMember(s1.tasks, u);
      }
    }
  }

  /** A zombie with a live parent can be reaped without drawing a single pid. */
  lemma Reapable(s: State, z: Task) returns (ops: seq<Op>)
    requires Inv(s) && z in s.tasks && z.status.Zombie? && HasLive(s.tasks, z.ppid)
    ensures Draws(ops) == 0 && z !in Run(s, ops).tasks
  {
    var t :| t in s.tasks && t.pid == z.ppid && !t.status.Zombie?;
    var first, r := BringToRun(s, t);
    var s1 := Run(s, first);
    assert z in s1.tasks;
    RunsNow(s1, r);
    RunSnoc(s, first, Wait(z.pid, 0, false));
    ops := first + [Wait(z.pid, 0, false)];
    ReapsIt(s1, z);
  }

  lemma ReapsIt(s: State, z: Task)
    requires Inv(s) && z in s.tasks && z.status.Zombie? && Cur(s) >= 0 && s.current == z.ppid
    ensures z !in Step(s, Wait(z.pid, 0, false)).tasks
  {
    var k := ZombieFrom(s.tasks, s.current, z.pid, 0);
    FindMember(s.tasks, z);
    var i := Find(s.tasks, z.pid);
    assert Matches(s.tasks[i], s.current, z.pid);
    assert k >= 0 && s.tasks[k].pid == z.pid;
    WithoutMembers(s.tasks, k);
  }

  /** Some continuation that does not wrap the pid counter removes the zombie. */
  ghost predicate CanGo(s: State, z: Task) {
    exists ops :: Unwrapped(s, ops) && z !in Run(s, ops).tasks
  }

  /** Before the wrap a zombie can be removed if and only if its parent is alive. */
  lemma ReapableIff(s: State, z: Task)
    requires Inv(s) && 1 <= s.nextPid <= INT32_MAX && z in s.tasks && z.status.Zombie?
    ensures CanGo(s, z) <==> HasLive(s.tasks, z.ppid)
  {
    if HasLive(s.tasks, z.ppid) {
      var ops := Reapable(s, z);
      assert Unwrapped(s, ops);
    } else if CanGo(s, z) {
      var ops :| Unwrapped(s, ops) && z !in Run(s, ops).tasks;
      OrphanStays(s, ops, z);
    }
  }

  // ----- An orphan, and what a reused pid does to it

  lemma Generations(s: State)
    requires s.tasks == [Plain(1, 0, Runnable), Plain(2, 1, Runnable), Plain(3, 2, Runnable)] && s.current == 2
    ensures var s3 := Step(Step(Step(s, Yield), Exit(0)), Yield);
            s3.tasks == [Plain(1, 0, Runnable), Plain(2, 1, Runnable), Plain(3, 2, Zombie)]
            && s3.current == 2 && s3.nextPid == s.nextPid
  {
    assert s.tasks[1].pid == 2 && s.tasks[2].status.Runnable?;
    assert Find(s.tasks, 2) == 1 && Next(s.tasks, 1) == 2;
    var s1 := Step(s, Yield);
    assert s1.current == 3 && s1.tasks == s.tasks;
    ChildExits(s1);
    var s2 := Step(s1, Exit(0));
    assert s2.tasks[1].status.Runnable?;
    assert Find(s2.tasks, 1) == 0 && Next(s2.tasks, 0) == 1;
  }

  lemma ChildExits(s: State)
    requires s.tasks == [Plain(1, 0, Runnable), Plain(2, 1, Runnable), Plain(3, 2, Runnable)] && s.current == 3
    ensures var s1 := Step(s, Exit(0));
            s1.tasks == [Plain(1, 0, Runnable), Plain(2, 1, Runnable), Plain(3, 2, Zombie)]
            && s1.current == 1 && s1.nextPid == s.nextPid
  {
    assert s.tasks[2].pid == 3 && Find(s.tasks, 3) == 2;
    var dead := s.tasks[2].(status := Zombie, exitStatus := 0);
    var mid := s.tasks[2 := dead];
    assert mid == [Plain(1, 0, Runnable), Plain(2, 1, Runnable), Plain(3, 2, Zombie)];
    assert mid[1].pid == 2 && Find(mid, 2) == 1 && Woken(mid, dead) < 0;
    assert Next(mid, 2) == 0;
  }

  lemma ParentGoes(s: State)
    requires s.tasks == [Plain(1, 0, Runnable), Plain(2, 1, Runnable), Plain(3, 2, Zombie)] && s.current == 2
    ensures var s2 := Step(Step(s, Exit(0)), Wait(2, 0, false));
            s2.tasks == [Plain(1, 0, Runnable), Plain(3, 2, Zombie)] && s2.current == 1 && s2.nextPid == s.nextPid
  {
    assert s.tasks[1].pid == 2 && Find(s.tasks, 2) == 1;
    var dead := s.tasks[1].(status := Zombie, exitStatus := 0);
    var mid := s.tasks[1 := dead];
    assert mid == [Plain(1, 0, Runnable), Plain(2, 1, Zombie), Plain(3, 2, Zombie)];
    assert Find(mid, 1) == 0 && Woken(mid, dead) < 0 && Next(mid, 1) == 0;
    var s1 := Step(s, Exit(0));
    assert s1.tasks == mid && s1.current == 1;
    assert ZombieFrom(s1.tasks, 1, 2, 1) == 1;
  }

  /** Orphans exist: a child that exits before its parent, whose own parent then reaps it. */
  lemma OrphanReached() returns (ops: seq<Op>)
    ensures Draws(ops) == 2
    ensures var s := Run(Init({}), ops);
            s.tasks == [Plain(1, 0, Runnable), Plain(3, 2, Zombie)] && s.current == 1 && s.nextPid == 4
            && Orphan(s.tasks, Plain(3, 2, Zombie))
  {
    hide Step;
    var s0 := Init({});
    assert Run(s0, []) == s0;
    hide Run;
    var o1: seq<Op> := [] + [Fork(Forked), Yield, Fork(Forked)];
    RunThree(s0, [], Fork(Forked), Yield, Fork(Forked));
    TwoGenerations(s0);
    hide Draws, Init;
    var o2 := o1 + [Yield, Exit(0), Yield];
    RunThree(s0, o1, Yield, Exit(0), Yield);
    Generations(Run(s0, o1));
    RunSnoc(s0, o2, Exit(0));
    RunSnoc(s0, o2 + [Exit(0)], Wait(2, 0, false));
    ParentGoes(Run(s0, o2));
    ops := o2 + [Exit(0)] + [Wait(2, 0, false)];
    assert Run(s0, ops).tasks[1] == Plain(3, 2, Zombie);
  }

  lemma PidsWrap(s: State)
    requires s.tasks == [Plain(1, 0, Runnable), Plain(3, 2, Zombie)] && s.nextPid == INT32_MAX && s.current == 1
    ensures Step(s, Fork(NoSpace)) == s.(nextPid := 1)
  {
    assert FreePid(s.tasks, 2);
    assert Find(s.tasks, INT32_MAX) < 0;
    assert Find(s.tasks, 1) == 0;
  }

  lemma ParentReborn(s: State)
    requires s.tasks == [Plain(1, 0, Runnable), Plain(3, 2, Zombie)] && s.nextPid == 1 && s.current == 1
    ensures Step(s, Fork(Forked)) == s.(nextPid := 3, tasks := s.tasks + [Plain(2, 1, Runnable)])
  {
    assert FreePid(s.tasks, 2);
    assert Find(s.tasks, 1) == 0;
    assert Find(s.tasks, 2) < 0;
    forall free | FreePid(s.tasks, free) ensures AllocPid(s.tasks, 1, free) == 2 {
      assert AllocPid(s.tasks, 1, free) == AllocPid(s.tasks, 2, free);
    }
  }

  lemma StrangerReaps(s: State)
    requires s.tasks == [Plain(1, 0, Runnable), Plain(3, 2, Zombie), Plain(2, 1, Runnable)] && s.current == 1
    ensures var s2 := Step(Step(s, Yield), Wait(-1, 0, false));
            s2.tasks == [Plain(1, 0, Runnable), Plain(2, 1, Runnable)]
  {
    var s1 := Step(s, Yield);
    assert s1.current == 2 && s1.tasks == s.tasks;
    assert Find(s1.tasks, 2) == 2;
    assert ZombieFrom(s1.tasks, 2, -1, 1) == 1;
  }

  lemma BurnPids(s: State) returns (ops: seq<Op>)
    requires Inv(s) && s.tasks == [Plain(1, 0, Runnable), Plain(3, 2, Zombie)] && s.current == 1 && s.nextPid == 4
    ensures Draws(ops) == INT32_MAX - 4 && Run(s, ops) == s.(nextPid := INT32_MAX)
  {
    assert Find(s.tasks, 1) == 0;
    hide Inv, Run, Draws;
    FailedForks(s, INT32_MAX - 4);
    FailedForksDraw(INT32_MAX - 4);
    ops := seq(INT32_MAX - 4, _ => Fork(NoSpace));
  }

  lemma WrapAndReap(s: State) returns (ops: seq<Op>)
    requires Inv(s) && s.tasks == [Plain(1, 0, Runnable), Plain(3, 2, Zombie)] && s.current == 1 && s.nextPid == 4
    ensures Draws(ops) == INT32_MAX - 2 && Run(s, ops).tasks == [Plain(1, 0, Runnable), Plain(2, 1, Runnable)]
  {
    hide Inv, Run, Draws, Step;
    var burn := BurnPids(s);
    var s1 := Run(s, burn);
    PidsWrap(s1);
    var s2 := Step(s1, Fork(NoSpace));
    ParentReborn(s2);
    var s3 := Step(s2, Fork(Forked));
    StrangerReaps(s3);
    RunThree(s, burn, Fork(NoSpace), Fork(Forked), Yield);
    var more := burn + [Fork(NoSpace), Fork(Forked), Yield];
    RunSnoc(s, more, Wait(-1, 0, false));
    ops := more + [Wait(-1, 0, false)];
  }

  /** With INT32_MAX draws a newcomer gets the pid of the dead parent and reaps the orphan. */
  lemma ReusedPidReaps() returns (ops: seq<Op>, more: seq<Op>)
    ensures Draws(ops + more) == INT32_MAX
    ensures Orphan(Run(Init({}), ops).tasks, Plain(3, 2, Zombie))
    ensures Plain(3, 2, Zombie) !in Run(Init({}), ops + more).tasks
  {
    hide Inv, Run, Draws, Step, Orphan;
    ops := OrphanReached();
    RunKeeps({}, ops);
    more := WrapAndReap(Run(Init({}), ops));
    RunAppend(Init({}), ops, more);
  }

  /** An orphan of some run is still there after more of the run. */
  ghost predicate Kept(writable: set<nat>, ops: seq<Op>, more: seq<Op>, z: Task) {
    Orphan(Run(Init(writable), ops).tasks, z) ==> z in Run(Init(writable), ops + more).tasks
  }

  ghost predicate KeptUpTo(n: nat) {
    forall writable, ops, more, z :: Draws(ops + more) <= n ==> Kept(writable, ops, more, z)
  }

  /** Orphans stay in all runs of up to `n` draws if and only if the pid counter cannot wrap in them. */
  lemma OrphansKeptIff(n: nat)
    ensures KeptUpTo(n) <==> n < INT32_MAX
  {
    if n < INT32_MAX {
      forall writable, ops, more, z | Draws(ops + more) <= n ensures Kept(writable, ops, more, z) {
        RunAppend(Init(writable), ops, more);
        RunKeeps(writable, ops);
        var s := Run(Init(writable), ops);
        if Orphan(s.tasks, z) {
          OrphanStays(s, more, z);
        }
      }
    } else {
      var ops, more := ReusedPidReaps();
      assert !Kept({}, ops, more, Plain(3, 2, Zombie));
    }
  }
}

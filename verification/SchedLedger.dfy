/**
 Whole-run facts about the process life cycle: each exit is reported to exactly one
 wait, a runnable task is not starved, and what a reused pid breaks.
 */
module SchedLedger {
  import opened Sched
  import opened SchedSafety

  // ----- Each exit is reported exactly once

  ghost predicate Pending(tasks: seq<Task>, pid: int) {
    exists t :: t in tasks && t.pid == pid && t.status.Zombie?
  }

  ghost predicate Reported(reports: seq<Report>, pid: int) {
    exists i :: 0 <= i < |reports| && reports[i].child == pid
  }

  /** The report tells the parent the low byte of the exit code, shifted as wait expects. */
  ghost predicate Faithful(r: Report, exits: map<int, Death>) {
    && r.child in exits
    && r.waiter == exits[r.child].parent
    && r.status == exits[r.child].code % 256 * 256
    && r.stored
  }

  ghost predicate TasksAgree(s: State) {
    forall t :: t in s.tasks ==>
      (t.status.Zombie? <==> t.pid in s.exits)
      && (t.status.Zombie? ==> t.exitStatus == s.exits[t.pid].code % 256 && t.ppid == s.exits[t.pid].parent)
  }

  ghost predicate ReportsAgree(s: State) {
    && (forall i :: 0 <= i < |s.reports| ==> Faithful(s.reports[i], s.exits))
    && (forall i, j :: 0 <= i < j < |s.reports| ==> s.reports[i].child != s.reports[j].child)
  }

  /** An exited pid is either still a zombie or has been reported, never both. */
  ghost predicate ExitsAgree(s: State) {
    forall pid :: pid in s.exits ==>
      pid < Bound(s.nextPid) && (Pending(s.tasks, pid) <==> !Reported(s.reports, pid))
  }

  ghost predicate Ledger(s: State) {
    TasksAgree(s) && ReportsAgree(s) && ExitsAgree(s)
  }

  lemma ReapLedger(s: State, waiter: Task, z: nat, addr: nat)
    requires Unique(s.tasks) && Ledger(s) && z < |s.tasks| && s.tasks[z].status.Zombie?
    requires waiter.pid == s.tasks[z].ppid && StatusWritable(waiter, addr)
    ensures Ledger(Reap(s, waiter, z, addr))
  {
    var child := s.tasks[z];
    var r := Reap(s, waiter, z, addr);
    WithoutMembers(s.tasks, z);
    assert child in s.tasks;
    assert Pending(s.tasks, child.pid);
    forall pid | pid in s.exits
      ensures Pending(r.tasks, pid) <==> !Reported(r.reports, pid)
    {
      if pid == child.pid {
        assert r.reports[|s.reports|].child == pid;
      } else {
        if Reported(s.reports, pid) {
          var i :| 0 <= i < |s.reports| && s.reports[i].child == pid;
          assert r.reports[i].child == pid;
        }
        if Pending(s.tasks, pid) {
          var t :| t in s.tasks && t.pid == pid && t.status.Zombie?;
          assert t in r.tasks;
        }
      }
    }
  }

  /** Marking the running task a zombie and waking its parent, before any reaping. */
  lemma DeathLedger(s: State, code: int, current: int)
    requires Inv(s) && Ledger(s) && Cur(s) >= 0
    ensures Ledger(s.(tasks := AfterExit(s, code), current := current,
                      exits := s.exits[s.current := Death(code, s.tasks[Cur(s)].ppid)]))
  {
    var c := Cur(s);
    var dead := s.tasks[c].(status := Zombie, exitStatus := code % 256);
    var mid := s.tasks[c := dead];
    var r := AfterExit(s, code);
    var exits := s.exits[s.current := Death(code, dead.ppid)];
    CurrentRuns(s);
    assert s.tasks[c] in s.tasks;
    UpdateMembers(s.tasks, c, dead);
    var p := Woken(mid, dead);
    if p >= 0 { UpdateMembers(mid, p, mid[p].(status := Runnable)); }
    assert dead in r;
    assert s.current !in s.exits;
    forall t | t in r
      ensures t.status.Zombie? <==> t.pid in exits
      ensures t.status.Zombie? ==> t == dead || t in s.tasks
    {
      if p >= 0 && t == mid[p].(status := Runnable) {
        assert mid[p] in mid && mid[p] in s.tasks;
      }
    }
    forall pid | pid in exits
      ensures pid < Bound(s.nextPid) && (Pending(r, pid) <==> !Reported(s.reports, pid))
    {
      if pid == s.current {
        assert !Reported(s.reports, pid);
      } else if Pending(s.tasks, pid) {
        var t :| t in s.tasks && t.pid == pid && t.status.Zombie?;
        assert t in mid;
        if p >= 0 && t.pid == mid[p].pid { FindMember(mid, t); }
        assert t in r;
      }
    }
  }

  lemma ExitLedger(s: State, code: int)
    requires Inv(s) && Ledger(s) && Cur(s) >= 0
    ensures Ledger(DoExit(s, code))
  {
    var c := Cur(s);
    var dead := s.tasks[c].(status := Zombie, exitStatus := code % 256);
    var mid := s.tasks[c := dead];
    var r := AfterExit(s, code);
    var next := Next(r, c);
    var current := if next < 0 then 0 else r[next].pid;
    DeathLedger(s, code, current);
    ExitWakes(s, code);
    var p := Woken(mid, dead);
    if p >= 0 {
      CurrentRuns(s);
      UpdateMembers(s.tasks, c, dead);
      assert mid[p] in mid && mid[p] in s.tasks;
      ReapLedger(s.(tasks := r, current := current, exits := s.exits[s.current := Death(code, dead.ppid)]),
                 mid[p], c, mid[p].waitAddr);
    }
  }

  /** Rewriting one live task as another live task with the same pid is invisible to the ledger. */
  lemma LiveEditLedger(s: State, i: nat, t: Task, current: int)
    requires Unique(s.tasks) && Ledger(s) && i < |s.tasks| && t.pid == s.tasks[i].pid
    requires !s.tasks[i].status.Zombie? && !t.status.Zombie?
    ensures Ledger(s.(tasks := s.tasks[i := t], current := current))
  {
    var r := s.tasks[i := t];
    UpdateMembers(s.tasks, i, t);
    assert s.tasks[i] in s.tasks;
    forall pid ensures Pending(s.tasks, pid) <==> Pending(r, pid) {
      if Pending(s.tasks, pid) {
        var z :| z in s.tasks && z.pid == pid && z.status.Zombie?;
        if z.pid == t.pid { FindMember(s.tasks, z); }
        assert z in r;
      }
    }
  }

  lemma WaitLedger(s: State, pid: int, addr: nat, nohang: bool)
    requires Inv(s) && Ledger(s) && Cur(s) >= 0
    ensures Ledger(DoWait(s, pid, addr, nohang).0)
  {
    var c := Cur(s);
    var me := s.tasks[c];
    var r := DoWait(s, pid, addr, nohang);
    CurrentRuns(s);
    if r.1.Reaped? {
      var z := ZombieFrom(s.tasks, me.pid, pid, 0);
      ReapLedger(s, me, z, addr);
    } else if r.0 != s {
      LiveEditLedger(s, c, r.0.tasks[c], r.0.current);
      assert r.0 == s.(tasks := s.tasks[c := r.0.tasks[c]], current := r.0.current);
    }
  }

  lemma ForkLedger(s: State, outcome: ForkOutcome)
    requires Inv(s) && Ledger(s) && Cur(s) >= 0 && 2 <= s.nextPid <= INT32_MAX
    requires exists w :: FreePid(s.tasks, w)
    ensures Ledger(DoFork(s, outcome))
  {
    ForkKeeps(s, outcome);
    CurrentRuns(s);
    var r := DoFork(s, outcome);
    if outcome.Forked? {
      assert forall t :: t in s.tasks ==> t in r.tasks;
      assert forall t :: t in r.tasks ==> t in s.tasks || (t.pid == s.nextPid && t.status.Runnable?);
      forall pid ensures Pending(s.tasks, pid) <==> Pending(r.tasks, pid) {
      }
    }
  }

  lemma StepLedger(s: State, op: Op)
    requires Inv(s) && Ledger(s) && 1 <= s.nextPid <= INT32_MAX
    requires Drawing(op) ==> s.nextPid != 1
    ensures Ledger(Step(s, op))
  {
    if Cur(s) >= 0 {
      match op
      case Yield => YieldKeeps(s);
      case Fork(outcome) =>
        if !outcome.NoTask? && exists w :: FreePid(s.tasks, w) { ForkLedger(s, outcome); }
      case Wait(pid, addr, nohang) => WaitLedger(s, pid, addr, nohang);
      case Exit(code) => ExitLedger(s, code);
      case Remap(writable) =>
        CurrentRuns(s);
        LiveEditLedger(s, Cur(s), s.tasks[Cur(s)].(writable := writable), s.current);
    }
  }

  /** In every run, whichever of exit and wait comes first. */
  lemma {:induction false} RunLedger(writable: set<nat>, ops: seq<Op>)
    requires Draws(ops) <= INT32_MAX - 1
    ensures Ledger(Run(Init(writable), ops))
  {
    if ops != [] {
      var front := ops[..|ops| - 1];
      RunLedger(writable, front);
      RunKeeps(writable, front);
      StepLedger(Run(Init(writable), front), ops[|ops| - 1]);
    }
  }

  // ----- Round robin

  function Yields(s: State, n: nat): State
    requires Cur(s) >= 0
    decreases n
  {
    if n == 0 then s else Yields(DoYield(s), n - 1)
  }

  /** Each yield brings the turn strictly nearer to a runnable task it has not reached. */
  lemma YieldApproaches(s: State, k: nat)
    requires Unique(s.tasks) && Cur(s) >= 0 && k < |s.tasks| && s.tasks[k].status.Runnable?
    ensures var s1 := DoYield(s);
            s1.tasks == s.tasks && Cur(s1) >= 0 &&
            (Cur(s1) == k || Distance(|s.tasks|, Cur(s1), k) < Distance(|s.tasks|, Cur(s), k))
  {
    var next := Next(s.tasks, Cur(s));
    FindMember(s.tasks, s.tasks[next]);
  }

  /** No starvation: a runnable task gets the processor within as many yields as there
      are list positions between it and the running task. */
  lemma {:induction false} RoundRobin(s: State, k: nat) returns (n: nat)
    requires Unique(s.tasks) && Cur(s) >= 0 && k < |s.tasks| && s.tasks[k].status.Runnable?
    ensures 0 < n <= Distance(|s.tasks|, Cur(s), k) + 1
    ensures Cur(Yields(s, n)) == k
    decreases Distance(|s.tasks|, Cur(s), k)
  {
    var s1 := DoYield(s);
    YieldApproaches(s, k);
    if Cur(s1) == k {
      n := 1;
      assert Yields(s, 1) == Yields(s1, 0);
    } else {
      var rest := RoundRobin(s1, k);
      n := rest + 1;
    }
  }

  // ----- A reused pid

  lemma FailedFork(s: State)
    requires Inv(s) && Cur(s) >= 0 && 2 <= s.nextPid <= INT32_MAX
    ensures Step(s, Fork(NoSpace)) == s.(nextPid := SuccPid(s.nextPid))
    ensures Inv(s.(nextPid := SuccPid(s.nextPid)))
  {
    assert FreePid(s.tasks, s.nextPid);
    ForkKeeps(s, NoSpace);
  }

  /** `n` forks that fail for want of memory still draw `n` pids. */
  lemma {:induction false} FailedForks(s: State, n: nat)
    requires Inv(s) && Cur(s) >= 0 && 2 <= s.nextPid && s.nextPid + n <= INT32_MAX
    ensures Run(s, seq(n, _ => Fork(NoSpace))) == s.(nextPid := s.nextPid + n)
    ensures Inv(s.(nextPid := s.nextPid + n))
  {
    hide Inv, Step;
    if n > 0 {
      assert seq(n, _ => Fork(NoSpace))[..n - 1] == seq(n - 1, _ => Fork(NoSpace));
      FailedForks(s, n - 1);
      var m := s.(nextPid := s.nextPid + n - 1);
      assert Cur(m) == Cur(s);
      FailedFork(m);
    }
  }

  /** A task with an empty address space. */
  function Plain(pid: int, ppid: int, status: Status): Task {
    Task(pid, ppid, status, 0, 0, 0, {})
  }

  lemma RunThree(s: State, base: seq<Op>, a: Op, b: Op, c: Op)
    ensures Run(s, base + [a, b, c]) == Step(Step(Step(Run(s, base), a), b), c)
    ensures Draws(base + [a, b, c]) == Draws(base) + (if Drawing(a) then 1 else 0)
                                       + (if Drawing(b) then 1 else 0) + (if Drawing(c) then 1 else 0)
  {
    RunSnoc(s, base, a);
    RunSnoc(s, base + [a], b);
    RunSnoc(s, base + [a] + [b], c);
    assert base + [a] + [b] + [c] == base + [a, b, c];
  }

  lemma TwoGenerations(s: State)
    requires s == Init({})
    ensures var s3 := Step(Step(Step(s, Fork(Forked)), Yield), Fork(Forked));
            s3.tasks == [Plain(1, 0, Runnable), Plain(2, 1, Runnable), Plain(3, 2, Runnable)]
            && s3.nextPid == 4 && s3.current == 2
  {
    assert FreePid(s.tasks, 2);
    var s1 := Step(s, Fork(Forked));
    assert s1.tasks == [Plain(1, 0, Runnable), Plain(2, 1, Runnable)];
    var s2 := Step(s1, Yield);
    assert s2.current == 2;
    assert FreePid(s2.tasks, 3);
  }

  lemma MiddleDies(s: State)
    requires s.tasks == [Plain(1, 0, Runnable), Plain(2, 1, Runnable), Plain(3, 2, Runnable)] && s.current == 2
    ensures var s3 := Step(Step(Step(s, Exit(0)), Yield), Wait(2, 0, false));
            s3.tasks == [Plain(1, 0, Runnable), Plain(3, 2, Runnable)]
            && s3.nextPid == s.nextPid && s3.current == 1
  {
    var s1 := Step(s, Exit(0));
    assert s1.tasks == [Plain(1, 0, Runnable), Plain(2, 1, Zombie), Plain(3, 2, Runnable)] && s1.current == 3;
    var s2 := Step(s1, Yield);
    assert s2.current == 1;
    assert ZombieFrom(s2.tasks, 1, 2, 1) == 1;
  }

  lemma InitDies(s: State)
    requires s.tasks == [Plain(1, 0, Runnable), Plain(3, 2, Runnable)] && s.current == 1
    ensures var s1 := Step(s, Exit(0));
            s1.tasks == [Plain(1, 0, Zombie), Plain(3, 2, Runnable)] && s1.nextPid == s.nextPid && s1.current == 3
  {
    assert Find(s.tasks, 1) == 0;
  }

  /** Two generations under init: pid 3 outlives its parent 2 and then init itself. */
  lemma LastSurvivor() returns (ops: seq<Op>)
    ensures Draws(ops) == 2
    ensures var s := Run(Init({}), ops);
            s.tasks == [Plain(1, 0, Zombie), Plain(3, 2, Runnable)] && s.nextPid == 4 && s.current == 3
  {
    var s0 := Init({});
    var o1: seq<Op> := [] + [Fork(Forked), Yield, Fork(Forked)];
    RunThree(s0, [], Fork(Forked), Yield, Fork(Forked));
    TwoGenerations(s0);
    var o2 := o1 + [Exit(0), Yield, Wait(2, 0, false)];
    RunThree(s0, o1, Exit(0), Yield, Wait(2, 0, false));
    MiddleDies(Run(s0, o1));
    RunSnoc(s0, o2, Exit(0));
    ops := o2 + [Exit(0)];
    InitDies(Run(s0, o2));
  }

  lemma RunSnoc(s: State, ops: seq<Op>, op: Op)
    ensures Run(s, ops + [op]) == Step(Run(s, ops), op)
    ensures Draws(ops + [op]) == Draws(ops) + (if Drawing(op) then 1 else 0)
  {
    assert (ops + [op])[..|ops|] == ops;
  }

  lemma {:induction false} RunAppend(s: State, a: seq<Op>, b: seq<Op>)
    ensures Run(s, a + b) == Run(Run(s, a), b)
    ensures Draws(a + b) == Draws(a) + Draws(b)
    decreases |b|
  {
    if b == [] {
      assert a + b == a;
    } else {
      var front := b[..|b| - 1];
      RunAppend(s, a, front);
      assert a + b == (a + front) + [b[|b| - 1]];
      assert front + [b[|b| - 1]] == b;
      RunSnoc(s, a + front, b[|b| - 1]);
      RunSnoc(Run(s, a), front, b[|b| - 1]);
    }
  }

  lemma {:induction false} FailedForksDraw(n: nat)
    ensures Draws(seq(n, _ => Fork(NoSpace))) == n
  {
    if n > 0 {
      FailedForksDraw(n - 1);
      assert seq(n, _ => Fork(NoSpace))[..n - 1] == seq(n - 1, _ => Fork(NoSpace));
    }
  }

  /** Once the counter has wrapped, pid 3 forks a child that takes the pid of its own dead
      parent, and blocks on it. */
  lemma WrappedFork(s: State)
    requires s.tasks == [Plain(1, 0, Zombie), Plain(3, 2, Runnable)] && s.nextPid == INT32_MAX && s.current == 3
    ensures var s1 := Step(s, Fork(NoSpace));
            var s2 := Step(s1, Fork(Forked));
            var s3 := Step(s2, Wait(2, 0, false));
            s3.tasks == [Plain(1, 0, Zombie), Plain(3, 2, Blocked).(waitPid := 2), Plain(2, 3, Runnable)]
              && s3.current == 2
  {
    hide Step, Run;
    var s1 := Step(s, Fork(NoSpace));
    LastPidDrawn(s);
    var s2 := Step(s1, Fork(Forked));
    PidTwoReused(s1);
    BlocksOnChild(s2);
  }

  lemma BlocksOnChild(s: State)
    requires s.tasks == [Plain(1, 0, Zombie), Plain(3, 2, Runnable), Plain(2, 3, Runnable)] && s.current == 3
    ensures var s1 := Step(s, Wait(2, 0, false));
            s1.tasks == [Plain(1, 0, Zombie), Plain(3, 2, Blocked).(waitPid := 2), Plain(2, 3, Runnable)]
              && s1.current == 2
  {
    assert s.tasks[1].pid == 3 && Find(s.tasks, 3) == 1;
    assert Matches(s.tasks[2], 3, 2);
    var z := ZombieFrom(s.tasks, 3, 2, 0);
    assert z < 0;
    var blocked := s.tasks[1 := s.tasks[1].(status := Blocked, waitPid := 2)];
    assert blocked == [Plain(1, 0, Zombie), Plain(3, 2, Blocked).(waitPid := 2), Plain(2, 3, Runnable)];
    hide Find, FindFrom, ZombieFrom, Next, FirstRunnable;
    var next := Next(blocked, 1);
    assert blocked[2].status.Runnable?;
    assert next == 2;
    assert DoWait(s, 2, 0, false).0 == s.(tasks := blocked, current := 2);
  }

  lemma LastPidDrawn(s: State)
    requires s.tasks == [Plain(1, 0, Zombie), Plain(3, 2, Runnable)] && s.nextPid == INT32_MAX && s.current == 3
    ensures Step(s, Fork(NoSpace)) == s.(nextPid := 1)
  {
    assert FreePid(s.tasks, 2);
    assert Find(s.tasks, INT32_MAX) < 0;
    assert s.tasks[1].pid == 3 && Find(s.tasks, 3) == 1;
  }

  lemma PidTwoReused(s: State)
    requires s.tasks == [Plain(1, 0, Zombie), Plain(3, 2, Runnable)] && s.nextPid == 1 && s.current == 3
    ensures Step(s, Fork(Forked)) == s.(nextPid := 3, tasks := s.tasks + [Plain(2, 3, Runnable)])
  {
    assert FreePid(s.tasks, 2);
    assert Find(s.tasks, 1) == 0;
    assert Find(s.tasks, 2) < 0;
    assert s.tasks[1].pid == 3 && Find(s.tasks, 3) == 1;
    forall free | FreePid(s.tasks, free) ensures AllocPid(s.tasks, 1, free) == 2 {
      assert AllocPid(s.tasks, 1, free) == AllocPid(s.tasks, 2, free);
    }
  }

  /** The bound of RunKeeps is the last that holds: one draw later there is a run after which
      parent and child each wait for the other, so a wait that has a live child to wait for
      fails because nothing can run. */
  lemma PidReuseDeadlock() returns (ops: seq<Op>)
    ensures Draws(ops) == INT32_MAX
    ensures var s := Run(Init({}), ops);
            Cur(s) >= 0 && StatusWritable(s.tasks[Cur(s)], 0) && HasChild(s.tasks, s.current, 3)
            && DoWait(s, 3, 0, false).1 == Failed
  {
    var a := LastSurvivor();
    var n := INT32_MAX - 4;
    var burn := seq(n, _ => Fork(NoSpace));
    var s := Run(Init({}), a);
    RunKeeps({}, a);
    FailedForks(s, n);
    FailedForksDraw(n);
    RunAppend(Init({}), a, burn);
    var b := a + burn;
    var t := Run(Init({}), b);
    WrappedFork(t);
    RunSnoc(Init({}), b, Fork(NoSpace));
    var b1 := b + [Fork(NoSpace)];
    RunSnoc(Init({}), b1, Fork(Forked));
    var b2 := b1 + [Fork(Forked)];
    RunSnoc(Init({}), b2, Wait(2, 0, false));
    ops := b2 + [Wait(2, 0, false)];
    MutualWaitFails(Run(Init({}), ops));
  }

  /** In the state a run ends in, a wait fails exactly for a bad address or for want of a child. */
  ghost predicate WaitExact(writable: set<nat>, ops: seq<Op>, pid: int, addr: nat, nohang: bool) {
    var s := Run(Init(writable), ops);
    Cur(s) >= 0 ==>
      (DoWait(s, pid, addr, nohang).1.Failed? <==>
       !StatusWritable(s.tasks[Cur(s)], addr) || !HasChild(s.tasks, s.current, pid))
  }

  ghost predicate WaitExactUpTo(n: nat) {
    forall writable, ops, pid, addr, nohang ::
      Draws(ops) <= n ==> WaitExact(writable, ops, pid, addr, nohang)
  }

  /** Waits are exact in all runs of up to `n` draws if and only if the pid counter cannot wrap in them. */
  lemma WaitExactIff(n: nat)
    ensures WaitExactUpTo(n) <==> n < INT32_MAX
  {
    if n < INT32_MAX {
      forall writable, ops, pid, addr, nohang | Draws(ops) <= n ensures WaitExact(writable, ops, pid, addr, nohang) {
        hide Inv, DoWait;
        RunKeeps(writable, ops);
        var s := Run(Init(writable), ops);
        if Cur(s) >= 0 {
          WaitFailsOnlyFor(s, pid, addr, nohang);
        }
      }
    } else {
      hide DoWait;
      var ops := PidReuseDeadlock();
      assert !WaitExact({}, ops, 3, 0, false);
    }
  }

  lemma MutualWaitFails(s: State)
    requires s.tasks == [Plain(1, 0, Zombie), Plain(3, 2, Blocked).(waitPid := 2), Plain(2, 3, Runnable)]
    requires s.current == 2
    ensures Cur(s) >= 0 && StatusWritable(s.tasks[Cur(s)], 0) && HasChild(s.tasks, s.current, 3)
    ensures DoWait(s, 3, 0, false).1 == Failed
  {
    assert Matches(s.tasks[1], 2, 3);
    assert ZombieFrom(s.tasks, 2, 3, 2) < 0;
    assert Find(s.tasks, 2) == 2;
  }
}

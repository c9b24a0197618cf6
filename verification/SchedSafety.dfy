/**
 What every run of the process life cycle keeps: no lost wake-up, no deadlock, and
 every exit handed to exactly one wait.
 */
module SchedSafety {
  import opened Sched

  // ----- The invariant

  ghost predicate Unique(tasks: seq<Task>) {
    forall i, j :: 0 <= i < j < |tasks| ==> tasks[i].pid != tasks[j].pid
  }

  /** Parents are older than their children, and the next pid is newer than everyone. */
  ghost predicate Ordered(tasks: seq<Task>, bound: int) {
    forall t :: t in tasks ==> 0 <= t.ppid < t.pid < bound
  }

  /** One past the newest pid handed out.  The counter shows 1 just after handing out the last pid. */
  function Bound(nextPid: int): int {
    if nextPid == 1 then INT32_MAX + 1 else nextPid
  }

  ghost predicate LiveMatch(tasks: seq<Task>, parent: int, pid: int) {
    exists u :: u in tasks && Matches(u, parent, pid) && !u.status.Zombie?
  }

  ghost predicate ZombieMatch(tasks: seq<Task>, parent: int, pid: int) {
    exists u :: u in tasks && Matches(u, parent, pid) && u.status.Zombie?
  }

  /** A blocked task waits for someone who can still exit, and nobody it waits for already has. */
  ghost predicate Waits(tasks: seq<Task>) {
    forall t :: t in tasks && t.status.Blocked? ==>
      && LiveMatch(tasks, t.pid, t.waitPid)
      && !ZombieMatch(tasks, t.pid, t.waitPid)
      && StatusWritable(t, t.waitAddr)
  }

  ghost predicate CurrentOk(s: State) {
    if s.current == 0 then forall t :: t in s.tasks ==> t.status.Zombie?
    else exists t :: t in s.tasks && t.pid == s.current && t.status.Runnable?
  }

  ghost predicate Inv(s: State) {
    Unique(s.tasks) && Ordered(s.tasks, Bound(s.nextPid)) && Waits(s.tasks) && CurrentOk(s)
  }

  // ----- List edits as set edits

  lemma UpdateMembers(tasks: seq<Task>, i: nat, t: Task)
    requires Unique(tasks) && i < |tasks| && t.pid == tasks[i].pid
    ensures Unique(tasks[i := t])
    ensures forall u :: u in tasks[i := t] <==> u == t || (u in tasks && u.pid != t.pid)
  {
    var r := tasks[i := t];
    assert r[i] == t;
    forall u | u in tasks && u.pid != t.pid ensures u in r {
      var k :| 0 <= k < |tasks| && tasks[k] == u;
      assert r[k] == u;
    }
  }

  lemma WithoutMembers(tasks: seq<Task>, i: nat)
    requires Unique(tasks) && i < |tasks|
    ensures Unique(Without(tasks, i))
    ensures forall u :: u in Without(tasks, i) <==> u in tasks && u.pid != tasks[i].pid
  {
    var r := Without(tasks, i);
    assert forall k :: 0 <= k < |r| ==> r[k] == if k < i then tasks[k] else tasks[k + 1];
    forall u | u in tasks && u.pid != tasks[i].pid ensures u in r {
      var k :| 0 <= k < |tasks| && tasks[k] == u;
      assert r[if k < i then k else k - 1] == u;
    }
  }

  lemma FindMember(tasks: seq<Task>, t: Task)
    requires Unique(tasks) && t in tasks
    ensures Find(tasks, t.pid) >= 0 && tasks[Find(tasks, t.pid)] == t
  {
  }

  // ----- No deadlock

  /** Follow live matching children upwards in pid order until someone can run. */
  lemma {:induction false} SomeoneRuns(tasks: seq<Task>, bound: int, t: Task) returns (r: Task)
    requires Ordered(tasks, bound) && Waits(tasks)
    requires t in tasks && !t.status.Zombie?
    ensures r in tasks && r.status.Runnable? && r.pid >= t.pid
    decreases bound - t.pid
  {
    if t.status.Runnable? {
      r := t;
    } else {
      assert LiveMatch(tasks, t.pid, t.waitPid);
      var u :| u in tasks && Matches(u, t.pid, t.waitPid) && !u.status.Zombie?;
      r := SomeoneRuns(tasks, bound, u);
    }
  }

  /** `next_task` comes back empty-handed exactly when every task is a zombie. */
  lemma NoDeadlock(tasks: seq<Task>, bound: int, c: nat)
    requires Ordered(tasks, bound) && Waits(tasks) && c < |tasks|
    ensures Next(tasks, c) < 0 <==> forall t :: t in tasks ==> t.status.Zombie?
  {
    if t :| t in tasks && !t.status.Zombie? {
      var r := SomeoneRuns(tasks, bound, t);
    }
  }

  // ----- Every step keeps the invariant

  lemma YieldKeeps(s: State)
    requires Inv(s) && Cur(s) >= 0
    ensures Inv(DoYield(s)) && DoYield(s).tasks == s.tasks
  {
  }

  lemma RemapKeeps(s: State, writable: set<nat>)
    requires Inv(s) && Cur(s) >= 0
    ensures Inv(DoRemap(s, writable))
  {
    var c := Cur(s);
    var me := s.tasks[c].(writable := writable);
    assert me.status.Runnable? by { CurrentRuns(s); }
    UpdateMembers(s.tasks, c, me);
    WaitsSurvive(s.tasks, s.tasks[c := me]);
  }

  lemma CurrentRuns(s: State)
    requires Inv(s) && Cur(s) >= 0
    ensures s.current != 0 && s.tasks[Cur(s)].status.Runnable?
  {
    assert s.tasks[Cur(s)] in s.tasks;
    if s.current != 0 {
      var t :| t in s.tasks && t.pid == s.current && t.status.Runnable?;
      FindMember(s.tasks, t);
    }
  }

  /** Waits carries over when blocked tasks are the same, live children stay live and
      no new zombie child of a blocked task appears. */
  lemma WaitsSurvive(a: seq<Task>, b: seq<Task>)
    requires Waits(a)
    requires forall t :: t in b && t.status.Blocked? ==> t in a
    requires forall u :: u in a && !u.status.Zombie? ==>
               exists v :: v in b && v.pid == u.pid && v.ppid == u.ppid && !v.status.Zombie?
    requires forall v :: v in b && v.status.Zombie? ==>
               v in a
    ensures Waits(b)
  {
    forall t | t in b && t.status.Blocked?
      ensures LiveMatch(b, t.pid, t.waitPid) && !ZombieMatch(b, t.pid, t.waitPid)
    {
      assert LiveMatch(a, t.pid, t.waitPid);
      var u :| u in a && Matches(u, t.pid, t.waitPid) && !u.status.Zombie?;
      var v :| v in b && v.pid == u.pid && v.ppid == u.ppid && !v.status.Zombie?;
      assert Matches(v, t.pid, t.waitPid);
    }
  }

  lemma ForkKeeps(s: State, outcome: ForkOutcome)
    requires Inv(s) && Cur(s) >= 0 && 2 <= s.nextPid <= INT32_MAX
    requires exists w :: FreePid(s.tasks, w)
    ensures Inv(DoFork(s, outcome))
    ensures DoFork(s, outcome).nextPid == if outcome.NoTask? then s.nextPid else SuccPid(s.nextPid)
    ensures outcome.Forked? ==> DoFork(s, outcome).tasks[..|s.tasks|] == s.tasks
                                && DoFork(s, outcome).tasks[|s.tasks|].pid == s.nextPid
  {
    CurrentRuns(s);
    assert Find(s.tasks, s.nextPid) < 0;
    var s1 := DoFork(s, outcome);
    if outcome.Forked? {
      var me := s.tasks[Cur(s)];
      assert me in s.tasks;
      assert forall u :: u in s.tasks ==> u in s1.tasks;
      WaitsSurvive(s.tasks, s1.tasks);
    }
  }

  lemma ReapKeeps(s: State, waiter: Task, z: nat, addr: nat)
    requires Unique(s.tasks) && Ordered(s.tasks, Bound(s.nextPid)) && Waits(s.tasks) && CurrentOk(s)
    requires z < |s.tasks| && s.tasks[z].status.Zombie?
    ensures Inv(Reap(s, waiter, z, addr))
  {
    var r := Without(s.tasks, z);
    WithoutMembers(s.tasks, z);
    hide Without, Waits, Ordered, Unique, StatusWritable;
    LiveStay(s.tasks, z);
    WaitsSurvive(s.tasks, r);
    OrderedWithout(s.tasks, r, Bound(s.nextPid));
    assert CurrentOk(s.(tasks := r));
  }

  lemma LiveStay(tasks: seq<Task>, z: nat)
    requires Unique(tasks) && z < |tasks| && tasks[z].status.Zombie?
    ensures forall u :: u in tasks && !u.status.Zombie? ==> u in Without(tasks, z)
  {
    WithoutMembers(tasks, z);
    forall u | u in tasks && !u.status.Zombie? ensures u in Without(tasks, z) {
      FindMember(tasks, u);
    }
  }

  lemma OrderedWithout(tasks: seq<Task>, r: seq<Task>, bound: int)
    requires Ordered(tasks, bound) && forall u :: u in r ==> u in tasks
    ensures Ordered(r, bound)
  {
  }

  lemma BlockKeeps(s: State, pid: int, addr: nat)
    requires Inv(s) && Cur(s) >= 0
    requires StatusWritable(s.tasks[Cur(s)], addr)
    requires ZombieFrom(s.tasks, s.current, pid, 0) < 0 && HasChild(s.tasks, s.current, pid)
    ensures var c := Cur(s);
            var tasks := s.tasks[c := s.tasks[c].(status := Blocked, waitPid := pid, waitAddr := addr)];
            Unique(tasks) && Ordered(tasks, Bound(s.nextPid)) && Waits(tasks) && Next(tasks, c) >= 0
            && Inv(s.(tasks := tasks, current := tasks[Next(tasks, c)].pid))
  {
    var c := Cur(s);
    var me := s.tasks[c].(status := Blocked, waitPid := pid, waitAddr := addr);
    var tasks := s.tasks[c := me];
    CurrentRuns(s);
    UpdateMembers(s.tasks, c, me);
    assert s.tasks[c] in s.tasks;
    var j :| 0 <= j < |s.tasks| && Matches(s.tasks[j], s.current, pid);
    var child := s.tasks[j];
    assert child in s.tasks;
    assert child in tasks && !child.status.Zombie?;
    assert LiveMatch(tasks, me.pid, pid);
    forall t | t in tasks && t.status.Blocked?
      ensures LiveMatch(tasks, t.pid, t.waitPid) && !ZombieMatch(tasks, t.pid, t.waitPid)
    {
      if t != me {
        assert LiveMatch(s.tasks, t.pid, t.waitPid);
        var u :| u in s.tasks && Matches(u, t.pid, t.waitPid) && !u.status.Zombie?;
        if u.pid == me.pid {
          FindMember(s.tasks, u);
          assert me in tasks && Matches(me, t.pid, t.waitPid);
        }
      }
    }
    NoDeadlock(tasks, Bound(s.nextPid), c);
    assert tasks[Next(tasks, c)] in tasks;
  }

  lemma WaitKeeps(s: State, pid: int, addr: nat, nohang: bool)
    requires Inv(s) && Cur(s) >= 0
    ensures Inv(DoWait(s, pid, addr, nohang).0)
  {
    var me := s.tasks[Cur(s)];
    var r := DoWait(s, pid, addr, nohang);
    var z := ZombieFrom(s.tasks, me.pid, pid, 0);
    if r.1.Reaped? {
      ReapKeeps(s, me, z, addr);
      assert r.0 == Reap(s, me, z, addr);
    } else if StatusWritable(me, addr) && HasChild(s.tasks, me.pid, pid) && !nohang {
      BlockKeeps(s, pid, addr);
      assert r.1.Suspended?;
    } else {
      assert r.0 == s;
    }
  }

  /** The no-runnable-task fallback never fires: a wait fails only for a bad status
      address or for want of a child, and then changes nothing. */
  lemma WaitFailsOnlyFor(s: State, pid: int, addr: nat, nohang: bool)
    requires Inv(s) && Cur(s) >= 0
    ensures DoWait(s, pid, addr, nohang).1.Failed? <==>
              !StatusWritable(s.tasks[Cur(s)], addr) || !HasChild(s.tasks, s.current, pid)
    ensures DoWait(s, pid, addr, nohang).1.Failed? ==> DoWait(s, pid, addr, nohang).0 == s
  {
    var z := ZombieFrom(s.tasks, s.current, pid, 0);
    if StatusWritable(s.tasks[Cur(s)], addr) && z < 0 && HasChild(s.tasks, s.current, pid) {
      BlockKeeps(s, pid, addr);
    }
  }

  /** The list after the exiting task became a zombie and its waiting parent, if any, was woken. */
  function AfterExit(s: State, code: int): (r: seq<Task>)
    requires Cur(s) >= 0
    ensures |r| == |s.tasks|
  {
    var dead := s.tasks[Cur(s)].(status := Zombie, exitStatus := code % 256);
    var tasks := s.tasks[Cur(s) := dead];
    var p := Woken(tasks, dead);
    if p < 0 then tasks else tasks[p := tasks[p].(status := Runnable)]
  }

  /** No lost wake-up: an exit leaves nobody blocked on a child that has already exited. */
  lemma ExitWakes(s: State, code: int)
    requires Inv(s) && Cur(s) >= 0
    ensures var r := AfterExit(s, code);
            Unique(r) && Ordered(r, Bound(s.nextPid)) && Waits(r) && r[Cur(s)].status.Zombie?
            && r[Cur(s)].pid == s.current
  {
    var c := Cur(s);
    var dead := s.tasks[c].(status := Zombie, exitStatus := code % 256);
    var mid := s.tasks[c := dead];
    var r := AfterExit(s, code);
    CurrentRuns(s);
    assert s.tasks[c] in s.tasks;
    UpdateMembers(s.tasks, c, dead);
    var p := Woken(mid, dead);
    if p >= 0 {
      UpdateMembers(mid, p, mid[p].(status := Runnable));
      assert mid[p] in mid;
    }
    forall t | t in r && t.status.Blocked?
      ensures LiveMatch(r, t.pid, t.waitPid) && !ZombieMatch(r, t.pid, t.waitPid) && StatusWritable(t, t.waitAddr)
    {
      assert t in s.tasks;
      BlockedSurvivesExit(s, code, t);
    }
  }

  lemma BlockedSurvivesExit(s: State, code: int, t: Task)
    requires Inv(s) && Cur(s) >= 0
    requires t in s.tasks && t in AfterExit(s, code) && t.status.Blocked?
    ensures LiveMatch(AfterExit(s, code), t.pid, t.waitPid) && !ZombieMatch(AfterExit(s, code), t.pid, t.waitPid)
  {
    var c := Cur(s);
    var dead := s.tasks[c].(status := Zombie, exitStatus := code % 256);
    var mid := s.tasks[c := dead];
    var r := AfterExit(s, code);
    CurrentRuns(s);
    UpdateMembers(s.tasks, c, dead);
    var p := Woken(mid, dead);
    if p >= 0 {
      UpdateMembers(mid, p, mid[p].(status := Runnable));
    }
    assert !Matches(dead, t.pid, t.waitPid) by {
      if Matches(dead, t.pid, t.waitPid) {
        assert t in mid;
        FindMember(mid, t);
      }
    }
    assert LiveMatch(s.tasks, t.pid, t.waitPid);
    var u :| u in s.tasks && Matches(u, t.pid, t.waitPid) && !u.status.Zombie?;
    assert u in mid by { if u.pid == dead.pid { FindMember(s.tasks, u); } }
    if p >= 0 && u.pid == mid[p].pid {
      FindMember(mid, u);
      assert mid[p].(status := Runnable) in r;
    }
    assert LiveMatch(r, t.pid, t.waitPid);
    assert forall v :: v in r && v.status.Zombie? ==> v == dead || v in s.tasks;
  }

  lemma ExitKeeps(s: State, code: int)
    requires Inv(s) && Cur(s) >= 0
    ensures Inv(DoExit(s, code))
    ensures DoExit(s, code).current == 0 <==> forall t :: t in AfterExit(s, code) ==> t.status.Zombie?
  {
    var c := Cur(s);
    var r := AfterExit(s, code);
    ExitWakes(s, code);
    NoDeadlock(r, Bound(s.nextPid), c);
    var next := Next(r, c);
    assert next >= 0 ==> r[next] in r;
    var dead := s.tasks[c].(status := Zombie, exitStatus := code % 256);
    var mid := s.tasks[c := dead];
    var p := Woken(mid, dead);
    if p >= 0 {
      var s1 := s.(tasks := r, exits := s.exits[dead.pid := Death(code, dead.ppid)],
                   current := if next < 0 then 0 else r[next].pid);
      ReapKeeps(s1, mid[p], c, mid[p].waitAddr);
    }
  }

  lemma StepKeeps(s: State, op: Op)
    requires Inv(s) && 1 <= s.nextPid <= INT32_MAX
    requires Drawing(op) ==> s.nextPid != 1
    ensures Inv(Step(s, op))
    ensures 1 <= Step(s, op).nextPid <= INT32_MAX
    ensures Bound(s.nextPid) <= Bound(Step(s, op).nextPid) <= Bound(s.nextPid) + (if Drawing(op) then 1 else 0)
  {
    if Cur(s) >= 0 {
      match op
      case Yield => YieldKeeps(s);
      case Fork(outcome) =>
        if !outcome.NoTask? && exists w :: FreePid(s.tasks, w) { ForkKeeps(s, outcome); }
      case Wait(pid, addr, nohang) => WaitKeeps(s, pid, addr, nohang);
      case Exit(code) => ExitKeeps(s, code);
      case Remap(writable) => RemapKeeps(s, writable);
    }
  }

  lemma InitInv(writable: set<nat>)
    ensures Inv(Init(writable))
  {
    assert Init(writable).tasks[0] in Init(writable).tasks;
  }

  /** Every state reached before the pid counter wraps satisfies the invariant. */
  lemma {:induction false} RunKeeps(writable: set<nat>, ops: seq<Op>)
    requires Draws(ops) <= INT32_MAX - 1
    ensures Inv(Run(Init(writable), ops))
    ensures 1 <= Run(Init(writable), ops).nextPid <= INT32_MAX
    ensures Bound(Run(Init(writable), ops).nextPid) <= 2 + Draws(ops)
  {
    if ops == [] {
      InitInv(writable);
    } else {
      RunKeeps(writable, ops[..|ops| - 1]);
      StepKeeps(Run(Init(writable), ops[..|ops| - 1]), ops[|ops| - 1]);
    }
  }
}

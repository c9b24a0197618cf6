/**
 kernel/task.c: tasks and descriptors as one machine.  The methods follow the
 source statement by statement; each is proved against the life-cycle steps of
 Sched and keeps every reference count exact.
 */
module Kernel {
  import opened Sched
  import opened SchedSafety
  import opened SchedLedger
  import SchedLaws
  import D = Descriptors

  class Machine {
    var tasks: seq<Task>
    var nextPid: int
    var current: int
    var desc: D.Desc  // desc.tables[i] is the descriptor table of tasks[i]
    ghost var exits: map<int, Death>
    ghost var reports: seq<Report>

    ghost function Life(): State
      reads this
    {
      State(tasks, nextPid, current, exits, reports)
    }

    ghost predicate Valid()
      reads this
    {
      && Inv(Life()) && 1 <= nextPid <= INT32_MAX
      && D.Counted(desc, multiset{})
      && Tabled(tasks, desc.tables)
    }

    /** The machine as `task_create` leaves it: init with three console descriptors. */
    constructor (writable: set<nat>, a: int, b: int, c: int)
      requires a != 0 && b != 0 && c != 0 && a != b && a != c && b != c
      ensures Valid() && Life() == Init(writable)
      ensures |desc.tables[0]| == 8 && desc.tables[0][..3] == [a, b, c]
    {
      tasks := [Task(1, 0, Runnable, 0, 0, 0, writable)];
      nextPid := 2;
      current := 1;
      exits := map[];
      reports := [];
      var console := D.File(1, D.Console, 0, 0);
      desc := D.Desc([[a, b, c, 0, 0, 0, 0, 0]], map[a := console, b := console, c := console], map[], map[],
        multiset{});
      new;
      BootCounted(a, b, c);
      InitInv(writable);
    }

    // ----- Searches

    method NextTask(c: nat) returns (r: int)
      requires c < |tasks|
      ensures r == Next(tasks, c)
    {
      var n := |tasks|;
      var start := if c + 1 < n then c + 1 else 0;
      var t := start;
      ghost var k := 0;
      while true
        invariant 0 <= t < n && k == Distance(n, c, t)
        invariant forall j :: 0 <= j < n && Distance(n, c, j) < k ==> !tasks[j].status.Runnable?
        decreases n - k
      {
        if tasks[t].status.Runnable? {
          return t;
        }
        t := if t + 1 < n then t + 1 else 0;
        k := k + 1;
        if t == start {
          return -1;
        }
      }
    }

    method FindTask(pid: int) returns (r: int)
      ensures r == Find(tasks, pid)
    {
      r := 0;
      while r < |tasks|
        invariant 0 <= r <= |tasks| && FindFrom(tasks, pid, r) == Find(tasks, pid)
      {
        if tasks[r].pid == pid {
          return;
        }
        r := r + 1;
      }
      r := -1;
    }

    method DrawPid(ghost free: int) returns (pid: int)
      requires 1 <= nextPid <= INT32_MAX && FreePid(tasks, free)
      modifies this`nextPid
      ensures pid == AllocPid(tasks, old(nextPid), free)
      ensures nextPid == SuccPid(pid) && FreePid(tasks, pid)
      ensures SchedLaws.FirstPid(tasks, old(nextPid), pid)
    {
      SchedLaws.DrawnFirst(tasks, nextPid, free);
      hide SchedLaws.FirstPid;
      while true
        invariant 1 <= nextPid <= INT32_MAX
        invariant AllocPid(tasks, nextPid, free) == AllocPid(tasks, old(nextPid), free)
        decreases if free >= nextPid then free - nextPid else free + INT32_MAX - nextPid
      {
        pid := nextPid;
        nextPid := if nextPid == INT32_MAX then 1 else nextPid + 1;
        var used := FindTask(pid);
        if used < 0 {
          return;
        }
      }
    }

    // ----- Descriptor tables

    /** Makes slot `fd` exist; the table keeps its contents and new slots are empty.
        `view` is any set of files the slots are counted against. */
    method FdReserve(t: nat, fd: int, memory: bool, ghost view: map<int, D.File>, ghost held: multiset<int>)
      returns (ok: bool)
      requires t < |desc.tables| && 0 <= fd <= INT32_MAX && |desc.tables[t]| <= INT32_MAX
      requires D.Counted(desc.(files := view), held)
      modifies this`desc
      ensures D.Counted(desc.(files := view), held)
      ensures ok <==> fd < |old(desc).tables[t]| || (fd < INT32_MAX && memory)
      ensures !ok ==> desc == old(desc)
      ensures ok ==> exists n: nat :: Grown(old(desc), desc, t, n) && fd < |old(desc).tables[t]| + n <= INT32_MAX
    {
      hide D.Counted, Inv;
      var row := desc.tables[t];
      if fd < |row| {
        assert row + D.Zeros(0) == row;
        assert Grown(desc, desc, t, 0);
        return true;
      }
      if fd == INT32_MAX {
        return false;
      }
      var count := if |row| != 0 then |row| else 8;
      ghost var first := count;
      while count <= fd
        invariant 0 < count <= INT32_MAX && first <= count && D.Capacity(count, fd) == D.Capacity(first, fd)
        decreases INT32_MAX - count
      {
        count := if count > INT32_MAX / 2 then INT32_MAX else count * 2;
      }
      if !memory {
        return false;
      }
      D.GrowKeeps(desc.(files := view), held, t, count - |row|);
      desc := desc.(tables := desc.tables[t := row + D.Zeros(count - |row|)]);
      assert Grown(old(desc), desc, t, count - |row|);
      return true;
    }

    /** Gives the lowest empty slot at or after `minimum` the reference the kernel holds. */
    method FdInstall(t: nat, f: int, minimum: int, memory: bool, ghost view: map<int, D.File>,
                     ghost held: multiset<int>)
      returns (fd: int)
      requires t < |desc.tables| && 0 <= minimum <= INT32_MAX && |desc.tables[t]| <= INT32_MAX
      requires D.Counted(desc.(files := view), held + multiset{f}) && f != 0
      modifies this`desc
      ensures fd < 0 ==> desc == old(desc)
      ensures fd < 0 ==> !memory || D.LowestFree(desc.tables[t], minimum) == INT32_MAX
      ensures fd >= 0 ==> D.Counted(desc.(files := view), held)
      ensures fd >= 0 ==> fd == D.LowestFree(old(desc).tables[t], minimum)
      ensures fd >= 0 ==> exists n: nat :: Installed(old(desc), desc, t, fd, f, n)
    {
      hide D.Counted, Inv;
      fd := minimum;
      var row := desc.tables[t];
      while fd < |row| && row[fd] != 0
        invariant minimum <= fd && (fd == minimum || fd <= |row|)
        invariant D.LowestFree(row, fd) == D.LowestFree(row, minimum)
      {
        fd := fd + 1;
      }
      var ok := FdReserve(t, fd, memory, view, held + multiset{f});
      if !ok {
        return -1;
      }
      ghost var n: nat :| Grown(old(desc), desc, t, n) && fd < |old(desc).tables[t]| + n <= INT32_MAX;
      InstallKeeps(old(desc), desc, view, held, t, fd, f, n);
      desc := desc.(tables := desc.tables[t := desc.tables[t][fd := f]]);
    }

    /** Puts every reference of table `t` and empties it. */
    method CloseAll(t: nat)
      requires t < |desc.tables| && D.Counted(desc, multiset{})
      modifies this`desc
      ensures D.Counted(desc, multiset{})
      ensures desc.tables == old(desc.tables)[t := []] && desc.loading == old(desc.loading)
      ensures D.SameIdentity(old(desc.files), desc.files) && desc.files.Keys <= old(desc.files).Keys
      ensures D.Named(desc.nodes) == D.Named(old(desc.nodes))
    {
      hide D.Counted, Inv, D.Named;
      var row := desc.tables[t];
      var fd := 0;
      D.DetachKeeps(desc, multiset{}, t);
      assert row[0..] == row && multiset{} + multiset(row) == multiset(row);
      while fd < |row|
        invariant 0 <= fd <= |row| && Closing(old(desc), desc, t, row[fd..])
        invariant D.Named(desc.nodes) == D.Named(old(desc.nodes))
      {
        PutDetached(old(desc), desc, t, row[fd..]);
        D.PutNamed(desc, row[fd]);
        desc := D.Put(desc, row[fd]);
        fd := fd + 1;
      }
      assert multiset(row[fd..]) == multiset{};
      desc := desc.(tables := desc.tables[t := []]);
    }

    /** The loop of `task_fork` that takes one more reference per slot. */
    method ShareTable(row: seq<int>)
      requires D.Counted(desc, multiset{})
      requires forall i :: 0 <= i < |row| && row[i] != 0 ==> row[i] in desc.files
      modifies this`desc
      ensures D.Counted(desc, multiset(row)) && desc == old(desc).(files := desc.files)
      ensures D.SameIdentity(old(desc.files), desc.files) && desc.files.Keys == old(desc.files).Keys
    {
      hide D.Counted, Inv;
      var fd := 0;
      while fd < |row|
        invariant 0 <= fd <= |row| && desc == old(desc).(files := desc.files)
        invariant D.Counted(desc, multiset(row[..fd]))
        invariant D.SameIdentity(old(desc.files), desc.files) && desc.files.Keys == old(desc.files).Keys
      {
        assert row[..fd + 1] == row[..fd] + [row[fd]];
        if row[fd] != 0 {
          D.GetKeeps(desc, multiset(row[..fd]), row[fd]);
          desc := D.Get(desc, row[fd]);
        } else {
          D.Recount(desc, multiset(row[..fd]), desc.tables, multiset(row[..fd + 1]));
        }
        fd := fd + 1;
      }
      assert row[..|row|] == row;
    }

    // ----- The life cycle

    method TaskYield()
      requires Valid() && current != 0
      modifies this`current
      ensures Valid() && Life() == DoYield(old(Life()))
      ensures SchedLaws.RunsNext(tasks, old(Cur(Life())), current)
    {
      hide D.Counted, Inv, SchedLaws.RunsNext;
      CurrentFound(Life());
      SchedLaws.YieldLaw(Life());
      YieldKeeps(Life());
      var c := FindTask(current);
      var next := NextTask(c);
      if next >= 0 && tasks[next].pid != current {
        current := tasks[next].pid;
      }
    }

    /** Fork before the pid counter has wrapped: the child shares every open file. */
    method TaskFork(outcome: ForkOutcome) returns (pid: int)
      requires Valid() && current != 0 && nextPid != 1
      requires exists w :: FreePid(tasks, w)
      modifies this
      ensures Valid() && Life() == DoFork(old(Life()), outcome)
      ensures var c := old(Cur(Life())); 0 <= c && SchedLaws.ForkDone(old(Life()), c, outcome, Life())
      ensures !outcome.Forked? ==> pid == -1 && desc == old(desc)
      ensures outcome.Forked? ==>
                pid == old(nextPid) && desc.tables == old(desc.tables) + [old(desc.tables[Cur(Life())])]
                && desc == old(desc).(tables := desc.tables, files := desc.files)
      ensures D.SameIdentity(old(desc.files), desc.files) && desc.files.Keys == old(desc.files).Keys
    {
      hide D.Counted, Inv, SchedLaws.ForkDone, SchedLaws.FirstPid;
      CurrentFound(Life());
      NextPidFree(Life());
      ForkKeeps(Life(), outcome);
      SchedLaws.ForkLaw(Life(), outcome);
      if outcome.NoTask? {
        return -1;
      }
      pid := DrawPid(nextPid);
      if outcome.NoSpace? {
        return -1;
      }
      var c := FindTask(current);
      var row := desc.tables[c];
      forall i | 0 <= i < |row| && row[i] != 0 ensures row[i] in desc.files {
        D.SlotLive(desc, multiset{}, c, i);
      }
      ShareTable(row);
      D.Recount(desc, multiset(row), desc.tables, multiset{} + multiset(row));
      D.AppendKeeps(desc, multiset{}, row);
      desc := desc.(tables := desc.tables + [row]);
      tasks := tasks + [Task(pid, tasks[c].pid, Runnable, 0, 0, 0, tasks[c].writable)];
    }

    /** Takes task `z` and its empty table out of the lists. */
    method TaskFree(z: nat)
      requires z < |tasks| == |desc.tables| && desc.tables[z] == [] && D.Counted(desc, multiset{})
      modifies this`tasks, this`desc
      ensures tasks == Without(old(tasks), z) && D.Counted(desc, multiset{})
      ensures desc == old(desc).(tables := Without(old(desc.tables), z))
    {
      hide D.Counted, Inv;
      D.DropTableKeeps(desc, multiset{}, z);
      tasks := tasks[..z] + tasks[z + 1..];
      desc := desc.(tables := desc.tables[..z] + desc.tables[z + 1..]);
    }

    /** The loop of `task_wait`: the first zombie it would take, or whether it saw any child. */
    method ScanChildren(parent: int, pid: int) returns (z: int, found: bool)
      ensures z == ZombieFrom(tasks, parent, pid, 0)
      ensures z < 0 ==> (found <==> HasChild(tasks, parent, pid))
    {
      found := false;
      z := 0;
      while z < |tasks|
        invariant 0 <= z <= |tasks|
        invariant ZombieFrom(tasks, parent, pid, z) == ZombieFrom(tasks, parent, pid, 0)
        invariant found <==> exists j :: 0 <= j < z && Matches(tasks[j], parent, pid)
      {
        if Matches(tasks[z], parent, pid) {
          found := true;
          if tasks[z].status.Zombie? {
            return;
          }
        }
        z := z + 1;
      }
      z := -1;
    }

    method TaskWait(pid: int, addr: nat, nohang: bool) returns (r: WaitResult)
      requires Valid() && current != 0
      modifies this
      ensures Valid() && (Life(), r) == DoWait(old(Life()), pid, addr, nohang)
      ensures var c := old(Cur(Life())); 0 <= c && SchedLaws.WaitDone(old(Life()), c, pid, addr, nohang, Life(), r)
      ensures desc == old(desc).(tables := desc.tables)
      ensures !r.Reaped? ==> desc == old(desc)
      ensures r.Reaped? ==>
                var z := ZombieFrom(old(tasks), old(current), pid, 0);
                0 <= z < |old(desc.tables)| && desc.tables == Without(old(desc.tables), z)
      ensures r.Reaped? ==> TookFirst(old(tasks), old(desc.tables), old(current), pid, r, desc.tables)
    {
      hide D.Counted, Inv, Tabled, ZombieFrom, HasChild, DoWait, Next, Reap, Without, SchedLaws.WaitDone,
           TookFirst, Matches, StatusWritable;
      ghost var s, tables := Life(), desc.tables;
      CurrentFound(s);
      SchedLaws.WaitLaw(s, pid, addr, nohang);
      WaitKeeps(s, pid, addr, nohang);
      WaitCases(s, pid, addr, nohang);
      var c := FindTask(current);
      var me := tasks[c];
      if !StatusWritable(me, addr) {
        return Failed;
      }
      var z, found := ScanChildren(me.pid, pid);
      if z >= 0 {
        r := Reaped(tasks[z].pid);
        TabledAt(tasks, desc.tables, z);
        TabledWithout(tasks, desc.tables, z);
        reports := reports + [Report(me.pid, tasks[z].pid, tasks[z].exitStatus * 256, addr, true)];
        TaskFree(z);
        TookAt(s.tasks, tables, s.current, pid, z, desc.tables);
        return;
      }
      if !found {
        return Failed;
      }
      if nohang {
        return NotYet;
      }
      TabledTask(tasks, desc.tables, c, me.(status := Blocked, waitPid := pid, waitAddr := addr));
      TabledTask(tasks, desc.tables, c, me.(waitPid := pid, waitAddr := addr));
      tasks := tasks[c := me.(status := Blocked, waitPid := pid, waitAddr := addr)];
      var next := NextTask(c);
      if next < 0 {
        tasks := tasks[c := tasks[c].(status := Runnable)];
        assert tasks == s.tasks[c := me.(waitPid := pid, waitAddr := addr)];
        return Failed;
      }
      current := tasks[next].pid;
      return Suspended;
    }

    /** Completes the wait of the exiting task's parent, if it is blocked on this child. */
    method WakeParent(dead: Task) returns (reap: bool)
      modifies this`tasks, this`reports
      ensures reap <==> Woken(old(tasks), dead) >= 0
      ensures !reap ==> tasks == old(tasks) && reports == old(reports)
      ensures reap ==>
                var p := Woken(old(tasks), dead);
                var parent := old(tasks)[p];
                && tasks == old(tasks)[p := parent.(status := Runnable)]
                && reports == old(reports) + [Report(parent.pid, dead.pid, dead.exitStatus * 256, parent.waitAddr,
                                                     StatusWritable(parent, parent.waitAddr))]
    {
      var p := FindTask(dead.ppid);
      if p >= 0 && tasks[p].status.Blocked? && (tasks[p].waitPid == -1 || tasks[p].waitPid == dead.pid) {
        reports := reports + [Report(tasks[p].pid, dead.pid, dead.exitStatus * 256, tasks[p].waitAddr,
                                     StatusWritable(tasks[p], tasks[p].waitAddr))];
        tasks := tasks[p := tasks[p].(status := Runnable)];
        return true;
      }
      return false;
    }

    method TaskExit(code: int)
      requires Valid() && current != 0
      modifies this
      ensures Valid() && Life() == DoExit(old(Life()), code)
      ensures var c := old(Cur(Life())); 0 <= c && SchedLaws.ExitDone(old(Life()), c, code, Life())
      ensures var c := old(Cur(Life()));
              0 <= c < |old(desc.tables)| && desc.tables ==
              if |tasks| < |old(tasks)| then Without(old(desc.tables), c) else old(desc.tables)[c := []]
      ensures desc.loading == old(desc.loading) && D.Named(desc.nodes) == D.Named(old(desc.nodes))
      ensures D.SameIdentity(old(desc.files), desc.files) && desc.files.Keys <= old(desc.files).Keys
    {
      hide D.Counted, Inv, Woken, StatusWritable, Tabled, Next, Without, SchedLaws.ExitDone, D.Named;
      CurrentFound(Life());
      ExitKeeps(Life(), code);
      SchedLaws.ExitLaw(Life(), code);
      var c := FindTask(current);
      var dead := tasks[c].(status := Zombie, exitStatus := code % 256);
      TabledAt(tasks, desc.tables, c);
      ExitTabled(Life(), code, desc.tables);
      exits := exits[current := Death(code, dead.ppid)];
      CloseAll(c);
      tasks := tasks[c := dead];
      var reap := WakeParent(dead);
      var next := NextTask(c);
      current := if next < 0 then 0 else tasks[next].pid;
      assert tasks == AfterExit(old(Life()), code);
      if reap {
        TabledWithout(tasks, desc.tables, c);
        WithoutRow(old(desc.tables), c, []);
        TaskFree(c);
      }
    }

    // ----- Descriptor calls of the running task

    method FdClose(fd: int) returns (ok: bool)
      requires Valid() && current != 0
      modifies this`desc
      ensures Valid()
      ensures var row := old(desc.tables[Cur(Life())]);
              (ok <==> 0 <= fd < |row| && row[fd] != 0)
              && (!ok ==> desc == old(desc))
              && (ok ==> desc.tables == old(desc.tables)[old(Cur(Life())) := row[fd := 0]])
      ensures D.SameIdentity(old(desc.files), desc.files) && desc.files.Keys <= old(desc.files).Keys
      ensures D.Named(desc.nodes) == D.Named(old(desc.nodes)) && desc.loading == old(desc.loading)
    {
      hide D.Counted, Inv, D.Named;
      CurrentFound(Life());
      var c := FindTask(current);
      var row := desc.tables[c];
      if fd < 0 || fd >= |row| || row[fd] == 0 {
        return false;
      }
      D.Recount(desc, multiset{}, desc.tables, multiset{} + multiset{0});
      D.SlotWrite(desc, multiset{}, c, fd, 0);
      desc := desc.(tables := desc.tables[c := row[fd := 0]]);
      D.PutKeeps(desc, multiset{}, row[fd]);
      D.PutNamed(desc, row[fd]);
      desc := D.Put(desc, row[fd]);
      return true;
    }

    method FdDup(oldfd: int, minimum: int, memory: bool) returns (fd: int)
      requires Valid() && current != 0 && minimum <= INT32_MAX
      modifies this`desc
      ensures Valid()
      ensures var row := old(desc.tables[Cur(Life())]);
              (fd >= 0 ==> 0 <= oldfd < |row| && row[oldfd] != 0 && minimum >= 0 && fd == D.LowestFree(row, minimum)
                           && (exists n: nat ::
                                 Installed(old(desc).(files := desc.files), desc, old(Cur(Life())), fd, row[oldfd], n)))
              && (fd < 0 ==> desc == old(desc))
              && (fd < 0 && 0 <= oldfd < |row| && row[oldfd] != 0 && 0 <= minimum && memory ==>
                   D.LowestFree(row, minimum) == INT32_MAX)
      ensures D.SameIdentity(old(desc.files), desc.files) && desc.files.Keys == old(desc.files).Keys
    {
      hide D.Counted, Inv;
      CurrentFound(Life());
      var c := FindTask(current);
      var row := desc.tables[c];
      if oldfd < 0 || oldfd >= |row| || row[oldfd] == 0 || minimum < 0 {
        return -1;
      }
      var f := row[oldfd];
      D.SlotLive(desc, multiset{}, c, oldfd);
      D.GetKeeps(desc, multiset{}, f);
      fd := FdInstall(c, f, minimum, memory, D.Get(desc, f).files, multiset{});
      if fd >= 0 {
        ghost var n: nat :| Installed(old(desc), desc, c, fd, f, n);
        desc := D.Get(desc, f);
        assert Installed(old(desc).(files := desc.files), desc, c, fd, f, n);
      }
    }

    /** The new reference is taken before the old one in the slot is put, so the file
        survives even when both are the same. */
    method FdDup2(oldfd: int, newfd: int, memory: bool) returns (fd: int)
      requires Valid() && current != 0 && newfd <= INT32_MAX
      modifies this`desc
      ensures Valid()
      ensures var row := old(desc.tables[Cur(Life())]);
              (fd == newfd || fd == -1)
              && (fd < 0 ==> desc == old(desc))
              && (fd >= 0 <==> 0 <= oldfd < |row| && row[oldfd] != 0 && newfd >= 0
                               && (oldfd == newfd || newfd < |row| || (newfd < INT32_MAX && memory)))
              && (fd >= 0 && oldfd == newfd ==> desc == old(desc))
              && (fd >= 0 && oldfd != newfd ==>
                    (exists n: nat :: Filled(old(desc.tables), desc.tables, old(Cur(Life())), newfd, row[oldfd], n)))
      ensures D.SameIdentity(old(desc.files), desc.files) && desc.files.Keys <= old(desc.files).Keys
      ensures D.Named(desc.nodes) == D.Named(old(desc.nodes)) && desc.loading == old(desc.loading)
    {
      hide D.Counted, Inv, D.Named;
      CurrentFound(Life());
      var c := FindTask(current);
      var row := desc.tables[c];
      if oldfd < 0 || oldfd >= |row| || row[oldfd] == 0 || newfd < 0 {
        return -1;
      }
      if oldfd == newfd {
        return newfd;
      }
      var f := row[oldfd];
      var ok := FdReserve(c, newfd, memory, desc.files, multiset{});
      if !ok {
        return -1;
      }
      ghost var n: nat :| Grown(old(desc), desc, c, n) && newfd < |row| + n <= INT32_MAX;
      assert desc.tables[c][oldfd] == f;
      D.SlotLive(desc, multiset{}, c, oldfd);
      ghost var before := desc;
      D.GetKeeps(desc, multiset{}, f);
      desc := D.Get(desc, f);
      var last := desc.tables[c][newfd];
      ReplaceSlot(desc, c, newfd, f);
      SameIdentityTrans(before.files, desc.files, D.Put(desc, last).files);
      D.PutNamed(desc, last);
      desc := D.Put(desc, last);
      desc := desc.(tables := desc.tables[c := desc.tables[c][newfd := f]]);
      assert desc.tables == old(desc.tables)[c := (row + D.Zeros(n))[newfd := f]];
      assert Filled(old(desc.tables), desc.tables, c, newfd, f, n);
      return newfd;
    }

    /**
     Opens vnode `n` on a fresh file `f`.  `got` says that the file object could be had, `agreed`
     that the vnode accepted the open, and `created` that this open made the vnode.
     */
    method FdOpen(f: int, n: int, created: bool, got: bool, agreed: bool, memory: bool) returns (fd: int)
      requires Valid() && current != 0 && f != 0 && f !in desc.files && n != 0
      requires if created then n !in desc.nodes else n in desc.nodes
      modifies this`desc
      ensures Valid()
      ensures !got ==> fd == -2 && desc == old(desc)
      ensures got && !agreed ==> fd == -1
      ensures got && agreed ==> fd >= 0 || fd == -2
      ensures fd >= 0 ==>
                var c := old(Cur(Life()));
                && fd == D.LowestFree(old(desc.tables)[c], 3)
                && (exists k: nat :: Filled(old(desc.tables), desc.tables, c, fd, f, k))
                && desc.files == old(desc.files)[f := D.File(1, D.Vfs, 0, n)] && desc.pipes == old(desc.pipes)
                && desc.nodes == old(desc.nodes)[n := if created then D.Node(1, true) else
                                                        D.Node(old(desc.nodes)[n].refs + 1, old(desc.nodes)[n].linked)]
      ensures got && agreed && fd < 0 ==> !memory || D.LowestFree(old(desc.tables[Cur(Life())]), 3) == INT32_MAX
      ensures got && fd < 0 ==>
                desc == old(desc).(nodes := if created then old(desc.nodes)[n := D.Node(0, true)] else old(desc.nodes))
    {
      hide D.Counted, Inv;
      CurrentFound(Life());
      var c := FindTask(current);
      if !got {
        return -2;
      }
      if created {
        CreateKeeps(desc, n);
      }
      desc := desc.(nodes := Made(desc.nodes, n, created));
      if !agreed {
        return -1;
      }
      ghost var unopened := desc;
      D.NewKeeps(desc, multiset{}, f, D.File(1, D.Vfs, 0, n));
      desc := desc.(files := desc.files[f := D.File(1, D.Vfs, 0, n)], nodes := D.OpenNode(desc.nodes, n));
      ghost var made := desc;
      fd := FdInstall(c, f, 3, memory, desc.files, multiset{});
      if fd < 0 {
        D.PutKeeps(desc, multiset{}, f);
        OpenThenClose(unopened, f, n);
        desc := D.Put(desc, f);
        fd := -2;
      } else {
        ghost var k: nat :| Installed(made, desc, c, fd, f, k);
        assert Filled(old(desc.tables), desc.tables, c, fd, f, k);
      }
    }

    /** Puts both ends of a pipe that found no slots. */
    method UndoPipe(c: nat, ghost n: nat, p: int, r: int, w: int, ghost base: D.Desc)
      requires p != 0 && p !in base.pipes && r != 0 && w != 0 && r != w && r !in base.files && w !in base.files
      requires c < |base.tables| && D.Counted(base, multiset{})
      requires desc == base.(tables := base.tables[c := base.tables[c] + D.Zeros(n)], pipes := base.pipes[p := 2],
                             files := base.files[r := D.File(1, D.PipeRead, p, 0)][w := D.File(1, D.PipeWrite, p, 0)])
      modifies this`desc
      ensures D.Counted(desc, multiset{}) && Grown(base, desc, c, n)
    {
      D.GrowKeeps(base, multiset{}, c, n);
      PipeUndone(base, desc.tables, p, r, w);
      desc := D.Put(desc, r);
      desc := D.Put(desc, w);
    }

    /** Slots for the read end and then for the write end, each the lowest empty one. */
    method InstallEnds(c: nat, r: int, w: int, memory: bool) returns (fd0: int, fd1: int)
      requires c < |desc.tables| && |desc.tables[c]| <= INT32_MAX && r != 0 && w != 0
      requires D.Counted(desc, multiset{w} + multiset{r})
      modifies this`desc
      ensures fd0 < 0 ==> fd1 < 0 && desc == old(desc)
      ensures fd0 >= 0 ==> fd0 == D.LowestFree(old(desc).tables[c], 0)
      ensures fd0 >= 0 > fd1 ==> exists n: nat :: Installed(old(desc), desc, c, fd0, r, n)
      ensures fd1 >= 0 ==> D.Counted(desc, multiset{}) && desc == old(desc).(tables := desc.tables)
      ensures fd1 >= 0 ==> FilledTwice(old(desc).tables, desc.tables, c, fd0, r, fd1, w)
      ensures fd1 < 0 ==> !memory || |old(desc).tables[c]| >= INT32_MAX - 1
    {
      hide D.Counted, Inv, D.LowestFree;
      fd0 := FdInstall(c, r, 0, memory, desc.files, multiset{w});
      fd1 := -1;
      if fd0 >= 0 {
        ghost var n: nat :| Installed(old(desc), desc, c, fd0, r, n);
        assert multiset{w} == multiset{} + multiset{w};
        SecondSlot(old(desc).tables[c], desc.tables[c], fd0, n);
        ghost var middle := desc;
        assert Filled(old(desc).tables, middle.tables, c, fd0, r, n);
        fd1 := FdInstall(c, w, 0, memory, desc.files, multiset{});
        if fd1 >= 0 {
          ghost var k: nat :| Installed(middle, desc, c, fd1, w, k);
          assert Filled(middle.tables, desc.tables, c, fd1, w, k);
        }
      }
    }

    /** Both ends or nothing.  `got` says that the pipe, its page and both files could be had. */
    method FdPipe(p: int, r: int, w: int, got: bool, memory: bool) returns (ok: bool, fd0: int, fd1: int)
      requires Valid() && current != 0
      requires p != 0 && p !in desc.pipes && r != 0 && w != 0 && r != w && r !in desc.files && w !in desc.files
      modifies this`desc
      ensures Valid()
      ensures ok ==>
                var c := old(Cur(Life()));
                && got && FilledTwice(old(desc.tables), desc.tables, c, fd0, r, fd1, w)
                && desc.files == old(desc.files)[r := D.File(1, D.PipeRead, p, 0)][w := D.File(1, D.PipeWrite, p, 0)]
                && desc.pipes == old(desc.pipes)[p := 2] && desc.nodes == old(desc.nodes)
      ensures !ok ==> exists n: nat :: Grown(old(desc), desc, old(Cur(Life())), n)
      ensures !got ==> desc == old(desc)
      ensures !ok ==> !got || !memory || |old(desc.tables[Cur(Life())])| >= INT32_MAX - 1
    {
      hide D.Counted, Inv, D.LowestFree, D.SameIdentity, Tabled;
      CurrentFound(Life());
      var c := FindTask(current);
      TabledAt(tasks, desc.tables, c);
      if !got {
        NotGrown(desc, c);
        return false, -1, -1;
      }
      ghost var row := desc.tables[c];
      D.NewPipeKeeps(desc, multiset{}, p, r, w);
      desc := desc.(files := desc.files[r := D.File(1, D.PipeRead, p, 0)][w := D.File(1, D.PipeWrite, p, 0)],
                    pipes := desc.pipes[p := 2]);
      ghost var made := desc;
      assert multiset{} + multiset{r, w} == multiset{w} + multiset{r};
      fd0, fd1 := InstallEnds(c, r, w, memory);
      ok := fd1 >= 0;
      if !ok {
        ghost var n: nat := 0;
        if fd0 >= 0 {
          n :| Installed(made, desc, c, fd0, r, n);
          desc := desc.(tables := desc.tables[c := desc.tables[c][fd0 := 0]]);
        }
        assert desc.tables[c] == row + D.Zeros(n) by { EmptySlotsBack(made, desc.tables[c], c, fd0, r, n); }
        UndoPipe(c, n, p, r, w, old(desc));
        assert desc.tables == old(desc).tables[c := desc.tables[c]];
      }
      if ok {
        FilledRow(old(desc).tables, desc.tables, c, fd0, r, fd1, w);
      }
      TabledRow(tasks, old(desc).tables, c, desc.tables[c]);
    }

    // ----- The vnode side

    /** `remove_node`: a vnode still open somewhere outlives its name. */
    method Unlink(n: int) returns (released: bool)
      requires Valid() && n in desc.nodes && desc.nodes[n].linked
      modifies this`desc
      ensures Valid() && desc.(nodes := map[]) == old(desc).(nodes := map[])
      ensures released <==> |D.NodeUsers(desc.files, n)| + desc.loading[n] == 0
      ensures desc.nodes == if released then old(desc).nodes - {n}
                            else old(desc).nodes[n := old(desc).nodes[n].(linked := false)]
    {
      hide Inv;
      var node := desc.nodes[n];
      released := node.refs == 0;
      if released {
        UnlinkedUnused(desc, n);
        desc := desc.(nodes := desc.nodes - {n});
      } else {
        desc := desc.(nodes := desc.nodes[n := node.(linked := false)]);
      }
    }

    /** Exec opens the executable, reads it, and closes it again. */
    method LoadOpen(n: int)
      requires Valid() && n in desc.nodes
      modifies this`desc
      ensures Valid() && desc.loading == old(desc).loading + multiset{n}
      ensures D.Named(desc.nodes) == D.Named(old(desc).nodes)
      ensures desc.tables == old(desc).tables && desc.files == old(desc).files && desc.pipes == old(desc).pipes
    {
      hide Inv;
      D.OpenNamed(desc.nodes, n);
      desc := desc.(nodes := D.OpenNode(desc.nodes, n), loading := desc.loading + multiset{n});
    }

    method LoadClose(n: int)
      requires Valid() && n in desc.loading
      modifies this`desc
      ensures Valid() && desc.loading == old(desc).loading - multiset{n}
      ensures D.Named(desc.nodes) == D.Named(old(desc).nodes)
      ensures desc.tables == old(desc).tables && desc.files == old(desc).files && desc.pipes == old(desc).pipes
    {
      hide Inv;
      LoadCloseKeeps(desc, n);
      D.CloseNamed(desc.nodes, n);
      desc := desc.(nodes := D.CloseNode(desc.nodes, n), loading := desc.loading - multiset{n});
    }

    /** map, unmap and exec change only the running task's address space. */
    method Remap(writable: set<nat>)
      requires Valid() && current != 0
      modifies this`tasks
      ensures Valid() && Life() == DoRemap(old(Life()), writable)
    {
      hide D.Counted, Inv;
      CurrentFound(Life());
      RemapKeeps(Life(), writable);
      var c := FindTask(current);
      tasks := tasks[c := tasks[c].(writable := writable)];
    }

    // ----- Whole runs

    /** Serves one system call; ids of new objects must be unused, as an allocator's are. */
    method Serve(call: Call)
      requires Valid() && (call.Life? && Drawing(call.op) ==> nextPid != 1)
      modifies this
      ensures Valid() && Life() == if call.Life? then Step(old(Life()), call.op) else old(Life())
      ensures OthersKept(old(tasks), old(desc.tables), tasks, desc.tables, old(current))
    {
      hide D.Counted, Inv, OthersKept, Tabled, NextTables, RowOnly;
      ghost var s, tables := Life(), desc.tables;
      if current == 0 {
        HaltedSteps(s);
        SameKept(tasks, tables, current);
        return;
      }
      CurrentFound(s);
      TabledAt(tasks, tables, Cur(s));
      if call.Life? {
        ServeLife(call.op);
        NextTablesKept(s, call.op, tables);
      } else {
        ServeDescriptors(call);
        RowKept(s, tables, desc.tables);
      }
    }

    /** Descriptor and vnode calls change at most the running task's own table. */
    method ServeDescriptors(call: Call)
      requires Valid() && current != 0 && Cur(Life()) >= 0 && !call.Life?
      modifies this`desc
      ensures Valid() && RowOnly(old(desc.tables), desc.tables, old(Cur(Life())))
    {
      hide D.Counted, Inv, Tabled, D.LowestFree, D.SameIdentity;
      ghost var tables, c := desc.tables, Cur(Life());
      TabledAt(tasks, desc.tables, c);
      match call {
        case Close(fd) => var _ := FdClose(fd);
        case Dup(oldfd, minimum, memory) =>
          if minimum <= INT32_MAX { var _ := FdDup(oldfd, minimum, memory); }
        case Dup2(oldfd, newfd, memory) =>
          if newfd <= INT32_MAX { var _ := FdDup2(oldfd, newfd, memory); }
        case Open(f, n, got, agreed, memory) =>
          if f != 0 && n != 0 && f !in desc.files {
            var _ := FdOpen(f, n, n !in desc.nodes, got, agreed, memory);
          }
        case Pipe(p, r, w, got, memory) =>
          if p != 0 && r != 0 && w != 0 && r != w && p !in desc.pipes && r !in desc.files && w !in desc.files {
            var ok, fd0, fd1 := FdPipe(p, r, w, got, memory);
            if ok {
              FilledRow(tables, desc.tables, c, fd0, r, fd1, w);
            }
          }
        case Remove(n) =>
          if n in desc.nodes && desc.nodes[n].linked { var _ := Unlink(n); }
        case Load(n) =>
          if n in desc.nodes {
            LoadOpen(n);
            LoadClose(n);
          }
      }
    }

    method ServeLife(op: Op)
      requires Valid() && current != 0 && Cur(Life()) >= 0 && (Drawing(op) ==> nextPid != 1)
      modifies this
      ensures Valid() && Life() == Step(old(Life()), op)
      ensures |old(desc.tables)| == |old(tasks)| && desc.tables == NextTables(old(Life()), op, old(desc.tables))
    {
      TabledAt(tasks, desc.tables, Cur(Life()));
      hide D.Counted, Inv, Tabled, DoFork, DoWait, DoExit, DoYield, DoRemap;
      match op {
        case Yield => TaskYield();
        case Fork(outcome) =>
          if outcome.NoTask? {
            NoTaskSteps(Life());
          } else {
            NextPidFree(Life());
            var _ := TaskFork(outcome);
          }
        case Wait(pid, addr, nohang) => var _ := TaskWait(pid, addr, nohang);
        case Exit(code) => TaskExit(code);
        case Remap(writable) => Remap(writable);
      }
    }

    /** Every run of system calls that draws fewer than INT32_MAX pids keeps every reference
        count exact and follows the life-cycle machine step by step. */
    method ServeAll(calls: seq<Call>)
      requires Valid() && Bound(nextPid) + Draws(LifeOps(calls)) <= INT32_MAX + 1
      modifies this
      ensures Valid() && Life() == Run(old(Life()), LifeOps(calls))
      ensures KeptExcept(old(tasks), old(desc.tables), tasks, desc.tables, Runners(old(Life()), calls))
    {
      hide D.Counted, Inv, Step, KeptExcept, Untaken, OthersKept, Runners;
      KeptStart(Life(), desc.tables);
      var i := 0;
      assert calls[..|calls|] == calls;
      while i < |calls|
        invariant 0 <= i <= |calls| && Valid()
        invariant Life() == Run(old(Life()), LifeOps(calls[..i]))
        invariant Bound(nextPid) + Draws(LifeOps(calls)) - Draws(LifeOps(calls[..i])) <= INT32_MAX + 1
        invariant Untaken(old(Life()), Life())
        invariant KeptExcept(old(tasks), old(desc.tables), tasks, desc.tables, Runners(old(Life()), calls[..i]))
      {
        assert calls[..i + 1][..i] == calls[..i];
        DrawsPrefix(calls, i + 1);
        assert LifeOps(calls[..i]) + [] == LifeOps(calls[..i]);
        assert LifeOps(calls[..i + 1]) == LifeOps(calls[..i]) + (if calls[i].Life? then [calls[i].op] else []);
        ghost var before, tables := Life(), desc.tables;
        if calls[i].Life? {
          RunSnoc(old(Life()), LifeOps(calls[..i]), calls[i].op);
          StepKeeps(before, calls[i].op);
        }
        Serve(calls[i]);
        RunOn(old(Life()), before, Life(), old(desc.tables), tables, desc.tables, calls, i);
        i := i + 1;
      }
    }
  }

  // ----- Whose descriptor table a call can change

  /** The descriptor table of the task with that pid. */
  function TableOf(tasks: seq<Task>, tables: seq<seq<int>>, pid: int): seq<int> {
    var k := Find(tasks, pid);
    if 0 <= k < |tables| then tables[k] else []
  }

  predicate HasPid(tasks: seq<Task>, pid: int) {
    Find(tasks, pid) >= 0
  }

  /** No task but `pid` has another table than before. */
  ghost predicate OthersKept(tasks0: seq<Task>, tables0: seq<seq<int>>, tasks1: seq<Task>, tables1: seq<seq<int>>,
                             pid: int) {
    KeptExcept(tasks0, tables0, tasks1, tables1, {pid})
  }

  ghost predicate KeptExcept(tasks0: seq<Task>, tables0: seq<seq<int>>, tasks1: seq<Task>, tables1: seq<seq<int>>,
                             pids: set<int>) {
    forall p {:trigger TableOf(tasks1, tables1, p)} :: HasPid(tasks0, p) && HasPid(tasks1, p) && p !in pids ==>
      TableOf(tasks1, tables1, p) == TableOf(tasks0, tables0, p)
  }

  /** At most row `c` differs. */
  ghost predicate RowOnly(before: seq<seq<int>>, after: seq<seq<int>>, c: int) {
    |after| == |before| && forall i :: 0 <= i < |before| && i != c ==> after[i] == before[i]
  }

  /** The tables after a life-cycle step: fork copies, reaping drops, exit empties. */
  ghost function NextTables(s: State, op: Op, tables: seq<seq<int>>): seq<seq<int>>
    requires |tables| == |s.tasks|
  {
    var after := Step(s, op).tasks;
    var c := Cur(s);
    if c < 0 then tables
    else match op
      case Yield => tables
      case Remap(_) => tables
      case Fork(_) => if |after| > |tables| then tables + [tables[c]] else tables
      case Wait(pid, _, _) =>
        var z := ZombieFrom(s.tasks, s.current, pid, 0);
        if z >= 0 && |after| < |tables| then Without(tables, z) else tables
      case Exit(_) => if |after| < |tables| then Without(tables, c) else tables[c := []]
  }

  /** A wait by `me` has taken the first dead task in list order that it is about, and that task's table. */
  ghost predicate TookFirst(tasks: seq<Task>, tables: seq<seq<int>>, me: int, pid: int, r: WaitResult,
                            after: seq<seq<int>>) {
    exists z :: SchedLaws.FirstDead(tasks, me, pid, z) && r == Reaped(tasks[z].pid)
                && z < |tables| && after == tables[..z] + tables[z + 1..]
  }

  lemma TookAt(tasks: seq<Task>, tables: seq<seq<int>>, me: int, pid: int, z: nat, after: seq<seq<int>>)
    requires z < |tasks| && z == ZombieFrom(tasks, me, pid, 0) && z < |tables| && after == Without(tables, z)
    ensures TookFirst(tasks, tables, me, pid, Reaped(tasks[z].pid), after)
  {
    SchedLaws.FirstDeadIff(tasks, me, pid);
  }

  lemma SameKept(tasks: seq<Task>, tables: seq<seq<int>>, pid: int)
    ensures OthersKept(tasks, tables, tasks, tables, pid)
  {
  }

  lemma FindAt(tasks: seq<Task>, i: nat)
    requires Unique(tasks) && i < |tasks|
    ensures Find(tasks, tasks[i].pid) == i
  {
    assert tasks[i] in tasks;
    FindMember(tasks, tasks[i]);
  }

  /** Same pids in the same places, and at most row `c` differs. */
  lemma KeptUpdate(tasks0: seq<Task>, tables0: seq<seq<int>>, tasks1: seq<Task>, tables1: seq<seq<int>>, c: nat)
    requires Unique(tasks0) && |tables0| == |tasks0| == |tasks1| && c < |tasks0| && RowOnly(tables0, tables1, c)
    requires forall i :: 0 <= i < |tasks0| ==> tasks1[i].pid == tasks0[i].pid
    ensures OthersKept(tasks0, tables0, tasks1, tables1, tasks0[c].pid) && Unique(tasks1)
  {
    forall p | HasPid(tasks0, p) && HasPid(tasks1, p) && p != tasks0[c].pid
      ensures TableOf(tasks1, tables1, p) == TableOf(tasks0, tables0, p)
    {
      var i, j := Find(tasks0, p), Find(tasks1, p);
      assert tasks0[j].pid == p;
      FindAt(tasks0, j);
    }
  }

  lemma KeptAppend(tasks: seq<Task>, tables: seq<seq<int>>, t: Task, row: seq<int>, pid: int)
    requires Unique(tasks) && |tables| == |tasks| && Find(tasks, t.pid) < 0
    ensures OthersKept(tasks, tables, tasks + [t], tables + [row], pid)
  {
    forall p | HasPid(tasks, p) && HasPid(tasks + [t], p)
      ensures TableOf(tasks + [t], tables + [row], p) == TableOf(tasks, tables, p)
    {
      var j := Find(tasks + [t], p);
      assert (tasks + [t])[j].pid == p;
      if j < |tasks| {
        FindAt(tasks, j);
      }
    }
  }

  lemma KeptWithout(tasks: seq<Task>, tables: seq<seq<int>>, k: nat, pid: int)
    requires Unique(tasks) && |tables| == |tasks| && k < |tasks|
    ensures OthersKept(tasks, tables, Without(tasks, k), Without(tables, k), pid)
    ensures forall p :: HasPid(Without(tasks, k), p) ==> HasPid(tasks, p)
  {
    var less, rows := Without(tasks, k), Without(tables, k);
    forall p | HasPid(less, p) ensures HasPid(tasks, p) && TableOf(less, rows, p) == TableOf(tasks, tables, p) {
      var j := Find(less, p);
      var i := if j < k then j else j + 1;
      assert less[j] == tasks[i] && rows[j] == tables[i];
      FindAt(tasks, i);
    }
  }

  /** A descriptor call of the running task. */
  lemma RowKept(s: State, tables: seq<seq<int>>, after: seq<seq<int>>)
    requires Inv(s) && |tables| == |s.tasks| && Cur(s) >= 0 && RowOnly(tables, after, Cur(s))
    ensures OthersKept(s.tasks, tables, s.tasks, after, s.current)
  {
    hide OthersKept;
    KeptUpdate(s.tasks, tables, s.tasks, after, Cur(s));
  }

  /** A life-cycle step changes no table but the running task's. */
  lemma NextTablesKept(s: State, op: Op, tables: seq<seq<int>>)
    requires Inv(s) && 1 <= s.nextPid <= INT32_MAX && |tables| == |s.tasks| && (Drawing(op) ==> s.nextPid != 1)
    ensures OthersKept(s.tasks, tables, Step(s, op).tasks, NextTables(s, op, tables), s.current)
  {
    hide OthersKept;
    var c := Cur(s);
    SameKept(s.tasks, tables, s.current);
    if c < 0 {
      return;
    }
    match op {
      case Yield =>
      case Remap(writable) => KeptUpdate(s.tasks, tables, Step(s, op).tasks, tables, c);
      case Fork(outcome) => ForkTables(s, outcome, tables);
      case Wait(pid, addr, nohang) => WaitTables(s, pid, addr, nohang, tables);
      case Exit(code) => ExitTables(s, code, tables);
    }
  }

  lemma ForkTables(s: State, outcome: ForkOutcome, tables: seq<seq<int>>)
    requires Inv(s) && 1 <= s.nextPid <= INT32_MAX && |tables| == |s.tasks| && Cur(s) >= 0
    requires Drawing(Fork(outcome)) ==> s.nextPid != 1
    ensures OthersKept(s.tasks, tables, Step(s, Fork(outcome)).tasks, NextTables(s, Fork(outcome), tables), s.current)
  {
    hide OthersKept;
    SameKept(s.tasks, tables, s.current);
    if outcome.Forked? {
      NextPidFree(s);
      ForkKeeps(s, outcome);
      var after := DoFork(s, outcome).tasks;
      assert after == s.tasks + [after[|s.tasks|]];
      KeptAppend(s.tasks, tables, after[|s.tasks|], tables[Cur(s)], s.current);
    }
  }

  lemma WaitTables(s: State, pid: int, addr: nat, nohang: bool, tables: seq<seq<int>>)
    requires Inv(s) && |tables| == |s.tasks| && Cur(s) >= 0
    ensures var op := Wait(pid, addr, nohang);
            OthersKept(s.tasks, tables, Step(s, op).tasks, NextTables(s, op, tables), s.current)
  {
    hide OthersKept, DoWait, ZombieFrom, HasChild, StatusWritable, Find, FindFrom, Unique, Ordered, Waits, CurrentOk,
         DoFork, DoExit, DoYield, DoRemap, Without, Next;
    WaitShape(s, pid, addr, nohang);
    var r := DoWait(s, pid, addr, nohang);
    var z := ZombieFrom(s.tasks, s.current, pid, 0);
    assert Step(s, Wait(pid, addr, nohang)) == r.0;
    if r.1.Reaped? {
      KeptWithout(s.tasks, tables, z, s.current);
      assert NextTables(s, Wait(pid, addr, nohang), tables) == Without(tables, z);
    } else {
      SameRows(tables, Cur(s));
      KeptUpdate(s.tasks, tables, r.0.tasks, tables, Cur(s));
      assert NextTables(s, Wait(pid, addr, nohang), tables) == tables;
    }
  }

  lemma SameRows(tables: seq<seq<int>>, c: int)
    ensures RowOnly(tables, tables, c)
  {
  }

  /** A wait takes a zombie out of the list, or leaves all pids where they are. */
  lemma WaitShape(s: State, pid: int, addr: nat, nohang: bool)
    requires Cur(s) >= 0
    ensures var r, z := DoWait(s, pid, addr, nohang), ZombieFrom(s.tasks, s.current, pid, 0);
            if r.1.Reaped? then z >= 0 && r.0.tasks == Without(s.tasks, z)
            else |r.0.tasks| == |s.tasks| && forall i :: 0 <= i < |s.tasks| ==> r.0.tasks[i].pid == s.tasks[i].pid
  {
    hide ZombieFrom, HasChild, StatusWritable, Next, Find;
  }

  lemma ExitTables(s: State, code: int, tables: seq<seq<int>>)
    requires Inv(s) && |tables| == |s.tasks| && Cur(s) >= 0
    ensures OthersKept(s.tasks, tables, Step(s, Exit(code)).tasks, NextTables(s, Exit(code), tables), s.current)
  {
    var c := Cur(s);
    var dead := s.tasks[c].(status := Zombie, exitStatus := code % 256);
    var r := AfterExit(s, code);
    KeptUpdate(s.tasks, tables, r, tables[c := []], c);
    if Woken(s.tasks[c := dead], dead) >= 0 {
      KeptWithout(r, tables[c := []], c, s.current);
      WithoutRow(tables, c, []);
      assert DoExit(s, code).tasks == Without(r, c);
    } else {
      assert DoExit(s, code).tasks == r;
    }
  }

  // ----- Over a run

  /** The pids that ran when the calls were made. */
  ghost function Runners(s: State, calls: seq<Call>): set<int> {
    if calls == [] then {}
    else Runners(s, calls[..|calls| - 1]) + {Run(s, LifeOps(calls[..|calls| - 1])).current}
  }

  lemma RunnersSnoc(s: State, calls: seq<Call>, call: Call, now: State)
    requires now == Run(s, LifeOps(calls))
    ensures Runners(s, calls + [call]) == Runners(s, calls) + {now.current}
  {
    assert (calls + [call])[..|calls|] == calls;
  }

  /** No pid below the old counter has been handed out since. */
  ghost predicate Untaken(s: State, now: State) {
    && Bound(s.nextPid) <= Bound(now.nextPid)
    && (forall p {:trigger HasPid(now.tasks, p)} :: HasPid(now.tasks, p) ==>
         HasPid(s.tasks, p) || p >= Bound(s.nextPid))
  }

  lemma KeptStart(s: State, tables: seq<seq<int>>)
    ensures Untaken(s, s) && KeptExcept(s.tasks, tables, s.tasks, tables, Runners(s, []))
  {
  }

  lemma PidsFrom(tasks: seq<Task>, after: seq<Task>, p: int)
    requires |after| == |tasks| && forall i :: 0 <= i < |tasks| ==> after[i].pid == tasks[i].pid
    ensures HasPid(after, p) ==> HasPid(tasks, p)
  {
    if HasPid(after, p) {
      assert tasks[Find(after, p)].pid == p;
    }
  }

  lemma PidsWithout(tasks: seq<Task>, k: nat, p: int)
    requires k < |tasks|
    ensures HasPid(Without(tasks, k), p) ==> HasPid(tasks, p)
  {
    if HasPid(Without(tasks, k), p) {
      var j := Find(Without(tasks, k), p);
      assert tasks[if j < k then j else j + 1].pid == p;
    }
  }

  /** Every task after a step was there before it or has a new pid. */
  lemma StepPids(s: State, op: Op, p: int)
    requires Inv(s) && 1 <= s.nextPid <= INT32_MAX && (Drawing(op) ==> s.nextPid != 1)
    requires HasPid(Step(s, op).tasks, p)
    ensures HasPid(s.tasks, p) || p >= Bound(s.nextPid)
  {
    if Cur(s) < 0 {
      return;
    }
    hide Inv, DoWait, DoExit, DoFork;
    match op {
      case Yield =>
      case Remap(writable) => PidsFrom(s.tasks, Step(s, op).tasks, p);
      case Fork(outcome) => ForkPids(s, outcome, p);
      case Wait(pid, addr, nohang) =>
        WaitShape(s, pid, addr, nohang);
        var r := DoWait(s, pid, addr, nohang);
        if r.1.Reaped? {
          PidsWithout(s.tasks, ZombieFrom(s.tasks, s.current, pid, 0), p);
        } else {
          PidsFrom(s.tasks, r.0.tasks, p);
        }
      case Exit(code) => ExitPids(s, code, p);
    }
  }

  lemma ForkPids(s: State, outcome: ForkOutcome, p: int)
    requires Inv(s) && 1 <= s.nextPid <= INT32_MAX && (!outcome.NoTask? ==> s.nextPid != 1) && Cur(s) >= 0
    requires HasPid(Step(s, Fork(outcome)).tasks, p)
    ensures HasPid(s.tasks, p) || p >= Bound(s.nextPid)
  {
    if outcome.Forked? {
      NextPidFree(s);
      ForkKeeps(s, outcome);
      hide Inv, FindFrom;
      var after := DoFork(s, outcome).tasks;
      var j := Find(after, p);
      assert after[j].pid == p;
      assert j < |s.tasks| ==> s.tasks[j].pid == p;
    }
  }

  lemma ExitPids(s: State, code: int, p: int)
    requires Cur(s) >= 0 && HasPid(DoExit(s, code).tasks, p)
    ensures HasPid(s.tasks, p)
  {
    hide Find, Next;
    var r := AfterExit(s, code);
    PidsFrom(s.tasks, r, p);
    PidsWithout(r, Cur(s), p);
  }

  lemma StepUntaken(s: State, now: State, call: Call)
    requires Inv(s) && 1 <= s.nextPid <= INT32_MAX && (call.Life? && Drawing(call.op) ==> s.nextPid != 1)
    requires now == if call.Life? then Step(s, call.op) else s
    ensures Untaken(s, now)
  {
    hide Inv, Step, HasPid;
    if call.Life? {
      StepKeeps(s, call.op);
      forall p | HasPid(now.tasks, p) ensures HasPid(s.tasks, p) || p >= Bound(s.nextPid) {
        StepPids(s, call.op, p);
      }
    }
  }

  lemma UntakenTrans(s: State, t: State, u: State)
    requires Untaken(s, t) && Untaken(t, u)
    ensures Untaken(s, u)
  {
  }

  /** One more call: the table of a task that has not run is still what it was. */
  lemma KeptOn(s: State, t: State, u: State, tables0: seq<seq<int>>, tables1: seq<seq<int>>, tables2: seq<seq<int>>,
               ran: set<int>)
    requires Inv(s) && Untaken(s, t) && Untaken(t, u)
    requires KeptExcept(s.tasks, tables0, t.tasks, tables1, ran)
    requires OthersKept(t.tasks, tables1, u.tasks, tables2, t.current)
    ensures KeptExcept(s.tasks, tables0, u.tasks, tables2, ran + {t.current})
  {
    forall p | HasPid(s.tasks, p) && HasPid(u.tasks, p) && p !in ran + {t.current}
      ensures TableOf(u.tasks, tables2, p) == TableOf(s.tasks, tables0, p)
    {
      assert s.tasks[Find(s.tasks, p)] in s.tasks;
      assert HasPid(t.tasks, p);
      var row := TableOf(t.tasks, tables1, p);
    }
  }

  lemma RunOn(s: State, t: State, u: State, tables0: seq<seq<int>>, tables1: seq<seq<int>>, tables2: seq<seq<int>>,
              calls: seq<Call>, i: nat)
    requires i < |calls| && Inv(s) && Inv(t) && t == Run(s, LifeOps(calls[..i])) && 1 <= t.nextPid <= INT32_MAX
    requires (calls[i].Life? && Drawing(calls[i].op) ==> t.nextPid != 1)
    requires u == if calls[i].Life? then Step(t, calls[i].op) else t
    requires Untaken(s, t) && KeptExcept(s.tasks, tables0, t.tasks, tables1, Runners(s, calls[..i]))
    requires OthersKept(t.tasks, tables1, u.tasks, tables2, t.current)
    ensures Untaken(s, u) && KeptExcept(s.tasks, tables0, u.tasks, tables2, Runners(s, calls[..i + 1]))
  {
    hide *;
    StepUntaken(t, u, calls[i]);
    UntakenTrans(s, t, u);
    RunnersSnoc(s, calls[..i], calls[i], t);
    KeptOn(s, t, u, tables0, tables1, tables2, Runners(s, calls[..i]));
    assert calls[..i] + [calls[i]] == calls[..i + 1];
  }

  /** A system call, with the ids the allocators hand out for what it creates. */
  datatype Call =
    | Life(op: Op)
    | Close(fd: int)
    | Dup(oldfd: int, minimum: int, memory: bool)
    | Dup2(oldfd: int, newfd: int, memory: bool)
    | Open(f: int, n: int, got: bool, agreed: bool, memory: bool)
    | Pipe(p: int, r: int, w: int, got: bool, memory: bool)
    | Remove(n: int)
    | Load(n: int)

  /** The life-cycle steps among the calls. */
  function LifeOps(calls: seq<Call>): seq<Op> {
    if calls == [] then []
    else LifeOps(calls[..|calls| - 1]) + (if calls[|calls| - 1].Life? then [calls[|calls| - 1].op] else [])
  }

  lemma {:induction false} DrawsPrefix(calls: seq<Call>, i: nat)
    requires i <= |calls|
    ensures Draws(LifeOps(calls[..i])) <= Draws(LifeOps(calls))
    decreases |calls|
  {
    if i == |calls| {
      assert calls[..i] == calls;
    } else {
      var front := calls[..|calls| - 1];
      assert front[..i] == calls[..i];
      DrawsPrefix(front, i);
      if calls[|calls| - 1].Life? {
        RunSnoc(Init({}), LifeOps(front), calls[|calls| - 1].op);
      } else {
        assert LifeOps(calls) == LifeOps(front);
      }
    }
  }

  lemma HaltedSteps(s: State)
    requires Inv(s) && s.current == 0
    ensures Cur(s) < 0
  {
    assert forall i :: 0 <= i < |s.tasks| ==> s.tasks[i] in s.tasks && s.tasks[i].pid > 0;
  }

  lemma NoTaskSteps(s: State)
    requires Cur(s) >= 0
    ensures Step(s, Fork(NoTask)) == s
  {
  }

  lemma UnlinkedUnused(d: D.Desc, n: int)
    requires D.Counted(d, multiset{}) && n in d.nodes && d.nodes[n].refs == 0
    ensures D.Counted(d.(nodes := d.nodes - {n}), multiset{})
    ensures |D.NodeUsers(d.files, n)| + d.loading[n] == 0
  {
    assert D.NodeUsers(d.files, n) == {};
    assert forall f :: f in d.files && d.files[f].node == n ==> f in D.NodeUsers(d.files, n);
  }

  lemma LoadCloseKeeps(d: D.Desc, n: int)
    requires D.Counted(d, multiset{}) && n in d.loading
    ensures n in d.nodes
    ensures D.Counted(d.(nodes := D.CloseNode(d.nodes, n), loading := d.loading - multiset{n}), multiset{})
  {
    var e := d.(nodes := D.CloseNode(d.nodes, n), loading := d.loading - multiset{n});
    forall f | f in e.files && e.files[f].node != 0 ensures e.files[f].node in e.nodes {
      assert f in D.NodeUsers(e.files, e.files[f].node);
    }
  }

  /** After one slot is taken, a second one is missing only if the table was full. */
  lemma SecondSlot(row: seq<int>, after: seq<int>, fd: nat, n: nat)
    requires |after| == |row| + n && forall k :: |row| <= k < |row| + n && k != fd ==> after[k] == 0
    ensures D.LowestFree(after, 0) >= INT32_MAX ==> |row| >= INT32_MAX - 1
  {
    var low := D.LowestFree(after, 0);
    if n >= 2 && |row| < INT32_MAX - 1 {
      var k := if |row| == fd then |row| + 1 else |row|;
      assert after[k] == 0;
    }
  }

  /** Emptying the slot that an install filled leaves the grown table. */
  lemma EmptySlotsBack(d: D.Desc, row: seq<int>, c: nat, fd: int, f: int, n: nat)
    requires c < |d.tables|
    requires if fd < 0 then row == d.tables[c] && n == 0
             else fd < |d.tables[c]| + n && fd == D.LowestFree(d.tables[c], 0)
                  && row == (d.tables[c] + D.Zeros(n))[fd := f][fd := 0]
    ensures row == d.tables[c] + D.Zeros(n)
  {
  }

  /** One table per task, indexed by int, and zombies have closed everything. */
  ghost predicate Tabled(tasks: seq<Task>, tables: seq<seq<int>>) {
    && |tables| == |tasks|
    && (forall i :: 0 <= i < |tables| ==> |tables[i]| <= INT32_MAX)
    && (forall i :: 0 <= i < |tasks| && tasks[i].status.Zombie? ==> tables[i] == [])
  }

  lemma TabledAt(tasks: seq<Task>, tables: seq<seq<int>>, i: nat)
    requires Tabled(tasks, tables) && i < |tasks|
    ensures |tables| == |tasks| && |tables[i]| <= INT32_MAX
    ensures tasks[i].status.Zombie? ==> tables[i] == []
  {
  }

  lemma TabledRow(tasks: seq<Task>, tables: seq<seq<int>>, c: nat, row: seq<int>)
    requires Tabled(tasks, tables) && c < |tasks| && !tasks[c].status.Zombie? && |row| <= INT32_MAX
    ensures Tabled(tasks, tables[c := row])
  {
  }

  lemma NotGrown(d: D.Desc, c: nat)
    requires c < |d.tables|
    ensures Grown(d, d, c, 0)
  {
    assert d.tables[c] + D.Zeros(0) == d.tables[c];
    assert d.tables == d.tables[c := d.tables[c]];
  }

  lemma FilledRow(before: seq<seq<int>>, after: seq<seq<int>>, c: nat, fd0: int, r: int, fd1: int, w: int)
    requires c < |before| && FilledTwice(before, after, c, fd0, r, fd1, w)
    ensures |after| == |before| && after == before[c := after[c]] && |after[c]| <= INT32_MAX
  {
  }

  lemma TabledTask(tasks: seq<Task>, tables: seq<seq<int>>, c: nat, t: Task)
    requires Tabled(tasks, tables) && c < |tasks| && (t.status.Zombie? ==> tables[c] == [])
    ensures Tabled(tasks[c := t], tables)
  {
  }

  lemma WithoutRow(tables: seq<seq<int>>, c: nat, row: seq<int>)
    requires c < |tables|
    ensures Without(tables[c := row], c) == Without(tables, c)
  {
  }

  lemma TabledWithout(tasks: seq<Task>, tables: seq<seq<int>>, z: nat)
    requires Tabled(tasks, tables) && z < |tasks|
    ensures Tabled(Without(tasks, z), Without(tables, z))
  {
  }

  /** Table `t` grew by `n` empty slots; nothing else changed. */
  ghost predicate Grown(before: D.Desc, after: D.Desc, t: nat, n: nat)
    requires t < |before.tables|
  {
    after == before.(tables := before.tables[t := before.tables[t] + D.Zeros(n)])
  }

  /** Table `t` grew by `n` empty slots and got `f` at slot `fd`; nothing else changed. */
  ghost predicate Installed(before: D.Desc, after: D.Desc, t: nat, fd: int, f: int, n: nat)
    requires t < |before.tables|
  {
    && 0 <= fd < |before.tables[t]| + n <= INT32_MAX
    && after == before.(tables := before.tables[t := (before.tables[t] + D.Zeros(n))[fd := f]])
  }

  /** Row `t` grew by `n` empty slots and got `f` at slot `fd`; every other row is as it was. */
  ghost predicate Filled(before: seq<seq<int>>, after: seq<seq<int>>, t: nat, fd: int, f: int, n: nat)
    requires t < |before|
  {
    0 <= fd < |before[t]| + n <= INT32_MAX && after == before[t := (before[t] + D.Zeros(n))[fd := f]]
  }

  /** Row `c` got `r` in its lowest empty slot and then `w` in the lowest one left; every other row is as it was. */
  ghost predicate FilledTwice(before: seq<seq<int>>, after: seq<seq<int>>, c: nat, fd0: int, r: int, fd1: int, w: int)
    requires c < |before|
  {
    exists middle: seq<seq<int>>, m: nat, n: nat ::
      && |middle| == |before| && Filled(before, middle, c, fd0, r, m) && Filled(middle, after, c, fd1, w, n)
      && fd0 == D.LowestFree(before[c], 0) && fd1 == D.LowestFree(middle[c], 0)
  }

  /** The vnodes after an open that may have created one. */
  function Made(nodes: map<int, D.Node>, n: int, created: bool): map<int, D.Node> {
    if created then nodes[n := D.Node(0, true)] else nodes
  }

  /** Filling an empty slot of a grown table uses up the reference the kernel held for it. */
  lemma InstallKeeps(base: D.Desc, d: D.Desc, view: map<int, D.File>, held: multiset<int>, t: nat, fd: nat, f: int,
                     n: nat)
    requires t < |base.tables| && Grown(base, d, t, n) && fd < |base.tables[t]| + n <= INT32_MAX
    requires fd < |base.tables[t]| ==> base.tables[t][fd] == 0
    requires D.Counted(d.(files := view), held + multiset{f})
    ensures var e := d.(tables := d.tables[t := d.tables[t][fd := f]]);
            D.Counted(e.(files := view), held) && Installed(base, e, t, fd, f, n)
  {
    hide D.Counted;
    var e := d.(tables := d.tables[t := d.tables[t][fd := f]]);
    D.SlotWrite(d.(files := view), held, t, fd, f);
    assert e.tables == base.tables[t := (base.tables[t] + D.Zeros(n))[fd := f]];
    D.Recount(e.(files := view), held + multiset{0}, e.tables, held);
  }

  /** Part way through closing table `t`: the slots in `rest` still have to be put. */
  ghost predicate Closing(before: D.Desc, now: D.Desc, t: nat, rest: seq<int>)
    requires t < |before.tables|
  {
    && now.tables == before.tables && now.loading == before.loading
    && D.Counted(now.(tables := now.tables[t := []]), multiset(rest))
    && D.SameIdentity(before.files, now.files) && now.files.Keys <= before.files.Keys
  }

  lemma PutDetached(before: D.Desc, d: D.Desc, t: nat, rest: seq<int>)
    requires t < |before.tables| && Closing(before, d, t, rest) && rest != []
    ensures D.Puttable(d, rest[0]) && Closing(before, D.Put(d, rest[0]), t, rest[1..])
  {
    hide D.Counted, D.SameIdentity;
    var f := rest[0];
    var e := d.(tables := d.tables[t := []]);
    assert rest == [f] + rest[1..];
    assert multiset(rest) == multiset(rest[1..]) + multiset{f};
    D.PutKeeps(e, multiset(rest[1..]), f);
    assert D.Put(d, f).(tables := e.tables) == D.Put(e, f);
    SameIdentityTrans(before.files, d.files, D.Put(d, f).files);
  }

  lemma SameIdentityTrans(a: map<int, D.File>, b: map<int, D.File>, c: map<int, D.File>)
    requires D.SameIdentity(a, b) && D.SameIdentity(b, c) && c.Keys <= b.Keys
    ensures D.SameIdentity(a, c)
  {
    forall f | f in a && f in c ensures a[f].(refs := 0) == c[f].(refs := 0) {
      assert f in b;
    }
  }

  lemma BootCounted(a: int, b: int, c: int)
    requires a != 0 && b != 0 && c != 0 && a != b && a != c && b != c
    ensures var console := D.File(1, D.Console, 0, 0);
            D.Counted(D.Desc([[a, b, c, 0, 0, 0, 0, 0]], map[a := console, b := console, c := console],
                             map[], map[], multiset{}), multiset{})
  {
    hide D.Uses;
    var row := [a, b, c, 0, 0, 0, 0, 0];
    forall f | f != 0 ensures D.Uses([row], f) == if f == a || f == b || f == c then 1 else 0 {
      BootUses(a, b, c, f);
    }
  }

  lemma BootUses(a: int, b: int, c: int, f: int)
    requires a != b && a != c && b != c && f != 0
    ensures D.Uses([[a, b, c, 0, 0, 0, 0, 0]], f) == if f == a || f == b || f == c then 1 else 0
  {
    var row := [a, b, c, 0, 0, 0, 0, 0];
    assert [row][..0] == [];
    assert D.Uses([row][..0], f) == 0;
    assert row == [a, b, c] + [0, 0, 0, 0, 0];
    assert multiset(row) == multiset{a, b, c} + multiset{0, 0, 0, 0, 0};
  }

  lemma CurrentFound(s: State)
    requires Inv(s) && s.current != 0
    ensures Cur(s) >= 0 && s.tasks[Cur(s)].status.Runnable?
  {
    var t :| t in s.tasks && t.pid == s.current && t.status.Runnable?;
    FindMember(s.tasks, t);
  }

  /** What a wait does, case by case, on a runnable task. */
  lemma WaitCases(s: State, pid: int, addr: nat, nohang: bool)
    requires Cur(s) >= 0 && s.tasks[Cur(s)].status.Runnable?
    ensures var c := Cur(s);
            var me := s.tasks[c];
            var z := ZombieFrom(s.tasks, me.pid, pid, 0);
            var blocked := s.tasks[c := me.(status := Blocked, waitPid := pid, waitAddr := addr)];
            var next := Next(blocked, c);
            DoWait(s, pid, addr, nohang) ==
              if !StatusWritable(me, addr) then (s, Failed)
              else if z >= 0 then
                (s.(tasks := Without(s.tasks, z),
                    reports := s.reports + [Report(me.pid, s.tasks[z].pid, s.tasks[z].exitStatus * 256, addr, true)]),
                 Reaped(s.tasks[z].pid))
              else if !HasChild(s.tasks, me.pid, pid) then (s, Failed)
              else if nohang then (s, NotYet)
              else if next < 0 then (s.(tasks := s.tasks[c := me.(waitPid := pid, waitAddr := addr)]), Failed)
              else (s.(tasks := blocked, current := blocked[next].pid), Suspended)
  {
  }

  lemma NextPidFree(s: State)
    requires Inv(s) && 2 <= s.nextPid <= INT32_MAX
    ensures FreePid(s.tasks, s.nextPid)
  {
  }

  /** Only the exiting task turns zombie, and its table has been closed. */
  lemma ExitTabled(s: State, code: int, tables: seq<seq<int>>)
    requires Inv(s) && Cur(s) >= 0 && Tabled(s.tasks, tables)
    ensures Tabled(AfterExit(s, code), tables[Cur(s) := []])
  {
  }

  lemma CreateKeeps(d: D.Desc, n: int)
    requires D.Counted(d, multiset{}) && n != 0 && n !in d.nodes
    ensures D.Counted(d.(nodes := d.nodes[n := D.Node(0, true)]), multiset{})
  {
    assert D.NodeUsers(d.files, n) == {} by {
      assert forall f :: f in d.files ==> d.files[f].node != n;
    }
    assert n !in d.loading;
  }

  /** The close that follows a failed install undoes the open exactly. */
  lemma OpenThenClose(d: D.Desc, f: int, n: int)
    requires D.Counted(d, multiset{}) && f != 0 && f !in d.files && n != 0 && n in d.nodes
    ensures var e := d.(files := d.files[f := D.File(1, D.Vfs, 0, n)], nodes := D.OpenNode(d.nodes, n));
            D.Puttable(e, f) && D.Put(e, f) == d
  {
    var e := d.(files := d.files[f := D.File(1, D.Vfs, 0, n)], nodes := D.OpenNode(d.nodes, n));
    assert e.files - {f} == d.files;
    assert d.nodes[n].refs >= 0;
    assert D.CloseNode(e.nodes, n) == d.nodes;
  }

  /** Put what slot `fd` holds, then overwrite it with a reference the kernel holds. */
  lemma ReplaceSlot(d: D.Desc, c: nat, fd: nat, f: int)
    requires c < |d.tables| && fd < |d.tables[c]| && D.Counted(d, multiset{} + multiset{f})
    ensures D.Puttable(d, d.tables[c][fd])
    ensures var e := D.Put(d, d.tables[c][fd]);
            e.tables == d.tables && D.SameIdentity(d.files, e.files) && e.files.Keys <= d.files.Keys
            && D.Counted(e.(tables := d.tables[c := d.tables[c][fd := f]]), multiset{})
  {
    var last := d.tables[c][fd];
    var g := d.(tables := d.tables[c := d.tables[c][fd := f]]);
    D.SlotWrite(d, multiset{}, c, fd, f);
    D.PutKeeps(g, multiset{}, last);
    assert D.Put(d, last).(tables := g.tables) == D.Put(g, last);
  }

  /** Putting both ends of a pipe nobody else has seen restores files and pipes. */
  lemma PipeUndone(d: D.Desc, tables: seq<seq<int>>, p: int, r: int, w: int)
    requires p != 0 && p !in d.pipes && r != 0 && w != 0 && r != w && r !in d.files && w !in d.files
    ensures var e := d.(tables := tables, pipes := d.pipes[p := 2],
                        files := d.files[r := D.File(1, D.PipeRead, p, 0)][w := D.File(1, D.PipeWrite, p, 0)]);
            D.Puttable(e, r) && D.Puttable(D.Put(e, r), w) && D.Put(D.Put(e, r), w) == d.(tables := tables)
  {
    var e := d.(tables := tables, pipes := d.pipes[p := 2],
                files := d.files[r := D.File(1, D.PipeRead, p, 0)][w := D.File(1, D.PipeWrite, p, 0)]);
    var e1 := D.Put(e, r);
    assert e1.files == d.files[w := D.File(1, D.PipeWrite, p, 0)];
    assert e1.pipes == d.pipes[p := 1];
    var e2 := D.Put(e1, w);
    assert e2.files == d.files;
    assert e2.pipes == d.pipes;
  }
}

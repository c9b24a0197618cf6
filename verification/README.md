# Narc in Dafny

A model of the stateful cores of Narc, a small POSIX-like kernel with its own libc and
init, and proofs of what every run of them keeps.

| file | what it models |
|---|---|
| `Sched.dfy`, `SchedLaws.dfy`, `SchedSafety.dfy`, `SchedLedger.dfy`, `Orphans.dfy` | yield, fork, wait and exit as steps over the task list; what each does to the list; no lost wake-up, no deadlock, every exit reported once, which zombies can be reaped |
| `Descriptors.dfy`, `Kernel.dfy` | descriptor tables and reference counts; the kernel object whose methods refine both |
| `Bytes.dfy` | bytes and little-endian numbers |
| `Pipe.dfy` | the pipe ring as a byte queue |
| `Ram.dfy`, `PageTree.dfy`, `PageTables.dfy`, `Spaces.dfy`, `Mmap.dfy`, `Frames.dfy`, `Mmu.dfy` | the page allocator, four-level page tables in raw memory, address-space clone and destroy, the mmap window, the processor's page walk |
| `UserMemory.dfy`, `ByteView.dfy`, `UserImage.dfy`, `Exec.dfy` | range checks and copy loops, pages as bytes, ELF segments, the initial stack, the address space of a new program |
| `AddressSpaces.dfy` | the address spaces of all tasks over one memory; every run of map, unmap, fork, exec and exit keeps them apart |
| `VfsPath.dfy`, `VfsTree.dfy`, `Vfs.dfy`, `VfsLaws.dfy`, `FileData.dfy` | path lookup, the vnode tree, laws of names and statuses, file contents |
| `Blocks.dfy`, `Allocator.dfy`, `HeapImage.dfy` | the libc allocator and `realloc`; the heap as its bytes |
| `Window.dfy` | the kernel heap's window of large allocations |
| `Services.dfy`, `Supervisor.dfy` | Pablo: configuration check and restart machine |
| `Numbers.dfy` | printing and parsing numbers |

Where the C code updates fields in place the model is a class with those fields; linked
lists are sequences in list order, tables are maps, and pages are numbered (an address
divided by 4096) except in `UserMemory.dfy`, `UserImage.dfy` and `Mmap.dfy`, which use byte
addresses. A page-table word is a record of its fields. The Dafny sources use ghost
parameters (the tree a page table stands for, the log of a supervisor) that take no part in
the computation. Parameters named `memory`, `budget`, `available`, `got` or `agreed` and the
field `maps` say how much memory the environment has left and what other parts answer.

## What the code does not do

- The top-level README announces orphan reaping, but nothing reparents a task. Until the pid
  counter wraps, a zombie can still be removed if and only if its parent is alive
  (`Orphans.ReapableIff`); one without a live parent stays (`Orphans.OrphanStays`), and there
  are such zombies (`Orphans.OrphanReached`). When INT32_MAX pids have been drawn, a newcomer
  can get the dead parent's pid and reap it (`Orphans.ReusedPidReaps`), so orphans stay in all
  runs of up to n draws exactly for n below INT32_MAX (`Orphans.OrphansKeptIff`).
- After the pid counter wraps, a pid can be reused for a child of its own grandchild; two
  tasks can then wait for each other, and a wait with a live child to wait for fails. Waits fail
  only for a bad address or for want of a child in all runs of up to n draws exactly for n below
  INT32_MAX (`SchedLedger.WaitExactIff`).
- `vfs_read` does not add the offset inside the page when data is held in pages. Reads are
  right for every content exactly when nothing is read or the offset starts a page
  (`FileData.ReadPagedCorrectIff`). The read system call works in 512-byte pieces, so it is
  right only for at most one piece at the start of a page (`FileData.SyscallReadCorrectIff`).
- A page walk ignores address bits 48 to 63 (`Mmap.PathAlias`), and `handle_unmap` subtracts
  without first comparing with the end of its window. An accepted call stays inside the window
  exactly when the low 48 bits of the address are not below it (`Mmap.UnmapConfinedIff`); 2^48
  plus the address of any mapped page is accepted (`Mmap.UnmapReaches`).
- `%u` with a width and no zero flag prints something `pablo_parse_unsigned` rejects as soon
  as a space is printed (`Numbers.ParseInvertsPrint`).

## Model

| member | source | states |
|---|---|---|
| `SchedSafety.NoDeadlock` | kernel/task.c:52-60 | under the invariant the search for a runnable task fails exactly when every task is a zombie |
| `SchedSafety.SomeoneRuns` | kernel/task.c:52-60 | from any live task, following who waits for whom upwards in pid order reaches a runnable task |
| `SchedSafety.ForkKeeps` | kernel/task.c:213-240 | fork keeps the invariant however far it gets, appends the child with the next pid and leaves other tasks alone |
| `SchedSafety.BlockKeeps` | kernel/task.c:254-292 | blocking keeps: live matching child, no matching zombie, writable status address; and another task can run, so the fallback never fires |
| `SchedSafety.WaitKeeps` | kernel/task.c:258-292 | wait keeps the invariant in all its outcomes |
| `SchedSafety.WaitFailsOnlyFor` | kernel/task.c:258-292 | wait fails exactly for an unwritable status address or no matching child, and then changes nothing |
| `SchedSafety.ExitWakes` | kernel/task.c:308-330 | after the dying task turned zombie and its waiting parent was woken, no blocked task is left with a matching zombie or without a live child |
| `SchedSafety.ExitKeeps` | kernel/task.c:308-330 | exit keeps the invariant and halts exactly when only zombies are left |
| `SchedSafety.StepKeeps` | kernel/task.c:204-330 | every step keeps the invariant and draws at most one pid |
| `SchedSafety.RunKeeps` | kernel/task.c:62-74 | every run from boot that draws fewer than INT32_MAX pids satisfies the invariant |
| `SchedLedger.RunLedger` | kernel/task.c:242-330 | in every such run each reaped child is reported to exactly one wait of its parent, with status (code mod 256) * 256, stored at a writable address; zombies are the exits not yet reported |
| `SchedLedger.WaitExactIff` | kernel/task.c:258-292 | waits fail only for a bad address or for want of a child in all runs of up to n draws if and only if n is below INT32_MAX |
| `Orphans.OrphanStays` | kernel/task.c:258-330 | before the pid counter wraps no step removes a zombie that has no live parent |
| `Orphans.BringToRun` | kernel/task.c:204-330 | every live task can be brought to run without a fork, sparing all zombies and all older tasks |
| `Orphans.ReapableIff` | kernel/task.c:258-292 | some continuation that does not wrap the pid counter removes a zombie if and only if its parent is alive |
| `Orphans.OrphanReached` | kernel/task.c:213-330 | a run with two forks that ends with an orphan |
| `Orphans.ReusedPidReaps` | kernel/task.c:68-74 | a run with INT32_MAX draws in which a newcomer with the dead parent's pid reaps the orphan |
| `Orphans.OrphansKeptIff` | kernel/task.c:68-74 | orphans stay in all runs of up to n draws if and only if n is below INT32_MAX |
| `SchedLaws.WaitLaw` | kernel/task.c:254-292 | of several dead children a wait takes the first in list order, that task alone leaves the list, and each other outcome has its exact condition and effect |
| `SchedLaws.DrawnFirst` | kernel/task.c:68-74 | the pid drawn is the first one from the counter on, wrapping after INT32_MAX, that no task has |
| `SchedLaws.ForkLaw` | kernel/task.c:213-240 | the child has that pid, the running task as parent and its writable memory, and stands behind all others |
| `SchedLaws.YieldLaw` | kernel/task.c:48-60 | a yield goes to the nearest runnable task round the list |
| `SchedLaws.ExitLaw` | kernel/task.c:308-328 | the dead task keeps the low byte of its code; exactly a parent that waits for it is woken, with one report, and then the task is gone; the nearest runnable task is next |
| `SchedLedger.YieldApproaches` | kernel/task.c:204-207 | a yield runs a given runnable task or brings it strictly nearer |
| `SchedLedger.RoundRobin` | kernel/task.c:48-60 | a runnable task runs after at most as many yields as its distance in the list |
| `SchedLedger.FailedForks` | kernel/task.c:68-91 | a fork that fails after taking its pid changes nothing but the counter |
| `SchedLedger.PidReuseDeadlock` | kernel/task.c:68-74 | a run with INT32_MAX draws in which wait fails although the address is writable and the child exists |
| `Descriptors.SlotWrite` | kernel/task.c:139-145 | storing a held file in a slot moves one reference from the kernel to the table and back |
| `Descriptors.PutKeeps` | kernel/task.c:113-124 | dropping a held reference keeps file, pipe and vnode counts exact, releasing each object at its last use |
| `Descriptors.PutNamed` | kernel/fs/vfs.c:327-333 | closing never takes a vnode that has a name |
| `Descriptors.GetKeeps` | kernel/task.c:432-449 | taking a reference keeps all counts exact |
| `Descriptors.NewKeeps` | kernel/task.c:343-355 | a new file over a vnode keeps all counts exact |
| `Descriptors.NewPipeKeeps` | kernel/task.c:451-463 | the two ends of a new pipe keep all counts exact |
| `Descriptors.LowestFree` | kernel/task.c:139-142 | the first free slot from a minimum on |
| `Descriptors.Capacity` | kernel/task.c:126-131 | doubling covers the descriptor without passing INT32_MAX |
| `Kernel.Machine.NextTask` | kernel/task.c:48-60 | the circular search agrees with the specification |
| `Kernel.Machine.FindTask` | kernel/task.c:62-66 | the list search agrees with the specification |
| `Kernel.Machine.DrawPid` | kernel/task.c:68-74 | the drawn pid is the first unused one from the counter on, and the counter wraps after INT32_MAX |
| `Kernel.Machine.FdReserve` | kernel/task.c:126-137 | exactly when growing succeeds; old slots are kept and new ones empty |
| `Kernel.Machine.FdInstall` | kernel/task.c:139-145 | the file goes to the lowest free slot and the counts come out even |
| `Kernel.Machine.CloseAll` | kernel/task.c:147-152 | the table is emptied and every count stays exact |
| `Kernel.Machine.TaskYield` | kernel/task.c:204-207 | refines the yield step; the nearest runnable task round the list is next |
| `Kernel.Machine.TaskFork` | kernel/task.c:213-240 | refines the fork step; the child has the first unused pid, its parent's writable memory and each of its open files, and all counts stay exact |
| `Kernel.Machine.TaskWait` | kernel/task.c:258-292 | refines the wait step with its result; no earlier task of the list was a matching zombie, and the tables are the old ones without the reaped task's |
| `Kernel.Machine.WakeParent` | kernel/task.c:308-330 | wakes the parent exactly when it waits for the dead task, with one report |
| `Kernel.Machine.TaskExit` | kernel/task.c:308-330 | refines the exit step; the task's table is emptied, or gone if it was reaped, and all others are as they were |
| `Kernel.Machine.FdClose` | kernel/task.c:422-428 | succeeds exactly on an open descriptor and empties that slot only |
| `Kernel.Machine.FdDup` | kernel/task.c:432-438 | the lowest free slot from the minimum names the same file; failure changes nothing |
| `Kernel.Machine.FdDup2` | kernel/task.c:440-449 | exactly when it succeeds; the target slot names the file even if it already did |
| `Kernel.Machine.FdOpen` | kernel/task.c:343-355 | a new file over the vnode in the lowest slot from 3 on and every other slot as it was, or everything undone, for each way it can fail |
| `Kernel.Machine.FdPipe` | kernel/task.c:451-474 | each end in the lowest slot then free and every other slot as it was, or files, pipes and slots as before |
| `Kernel.Machine.Unlink` | kernel/fs/vfs.c:168-171 | an unlinked vnode is released exactly when no file and no loader uses it |
| `Kernel.Machine.LoadClose` | kernel/fs/vfs.c:327-333 | closing an executable being loaded keeps the counts exact |
| `Kernel.Machine.ServeAll` | kernel/task.c:204-474 | every sequence of calls keeps the life-cycle invariant and all counts, refines the run of its life-cycle steps, and leaves the descriptor table of every task that never ran as it was |
| `Kernel.Machine.ServeDescriptors` | kernel/task.c:343-474 | a descriptor call changes at most the running task's table |
| `Kernel.NextTablesKept` | kernel/task.c:204-330 | a life-cycle step changes no task's table but the running one's |
| `Pipe.Ring.Read` | kernel/task.c:394-403 | removes the oldest bytes of the queue, as many as asked for and present |
| `Pipe.Ring.Write` | kernel/task.c:412-420 | appends the prefix that fits |
| `Ram.Ram.AllocPage` | kernel/mm/mm.c:39-65 | a zeroed page leaves the pool, or the pool is empty |
| `Ram.Ram.FreePage` | kernel/mm/mm.c:67-71 | the page joins the pool and no other page changes |
| `Ram.Ram.NextRegion` | kernel/mm/mm.c:46-62 | moving to the next usable region neither loses nor invents a page |
| `PageTree.PathInjective` | kernel/mm/mm.c:97-111 | distinct user pages have distinct index paths |
| `PageTree.UpdateFind` | kernel/mm/mm.c:97-123 | editing one slot changes the map exactly below that slot |
| `PageTables.NextTable` | kernel/mm/mm.c:80-95 | the table behind an entry, made on demand from at most one page, with the map unchanged; the entry can be written through, and reached by the user if asked |
| `PageTables.GetPte` | kernel/mm/mm.c:97-111 | reaches the last table on the page's path; fails only when the pool runs out after at most two pages |
| `PageTables.MapUser` | kernel/mm/mm.c:113-123 | changes the map at exactly one page, or not at all; every entry on the way stays open to user and writes, and no other flag is set |
| `PageTables.UserPhys` | kernel/mm/mm.c:244-248 | lookup in the map |
| `PageTables.ProtectUser` | kernel/mm/mm.c:225-232 | changes the write bit of exactly one mapped user page |
| `PageTables.UnmapUser` | kernel/mm/mm.c:234-242 | unmaps exactly one page and returns its frame |
| `Spaces.FreeTable` | kernel/mm/mm.c:174-184 | returns every page of the subtree exactly once |
| `Spaces.SpaceDestroy` | kernel/mm/mm.c:186-194 | returns every table and leaf page of the space, unless it is the active one |
| `Spaces.SpaceCreate` | kernel/mm/mm.c:125-133 | an empty user half and, word by word, the active space's kernel half |
| `Spaces.CloneTable` | kernel/mm/mm.c:135-150 | a copy of the subtree over fresh pages, or a partial tree and an empty pool |
| `Spaces.SpaceClone` | kernel/mm/mm.c:152-167 | succeeds exactly when the pool has as many pages as the source; then a copy over pool pages, otherwise every page is back |
| `Spaces.WeightPages` | kernel/mm/mm.c:135-167 | a tree that shares no page has as many pages as its structure says |
| `Spaces.CopyFinds` | kernel/mm/mm.c:135-150 | a copy maps every path to the same flags and bytes |
| `Spaces.CloneSameMap` | kernel/mm/mm.c:152-167 | the clone maps every user page with the same permissions and bytes |
| `Spaces.CloneOpens` | kernel/mm/mm.c:152-167 | a clone's entries are as open as those of its source |
| `Mmu.WalkIsFind` | kernel/mm/mm.c:80-123 | walking raw memory as the processor does, with the right needed in all four entries, gives for every user page exactly the frame and permissions of the map |
| `AddressSpaces.HardwareSees` | kernel/mm/mm.c:80-242 | so it does for every task in every state that calls can lead to |
| `Frames.FramesDistinct` | kernel/mm/mm.c:80-123 | a sound space never maps two user pages to one frame, nor to frame 0 |
| `ByteView.NumberFields` | kernel/mm/mm.c:4-9 | the fields of a page-table word are read back from its 64 bits |
| `ByteView.FlagBits` | kernel/mm/mm.c:4-9 | each flag and the page number are where the processor looks for them |
| `ByteView.FieldsNumber` | kernel/mm/mm.c:4-9 | every 64-bit number is the word of the fields read off it |
| `ByteView.ViewInjective` | kernel/mm/mm.c:35-37 | pages of words that look the same as bytes are the same |
| `ByteView.PageOfView` | kernel/mm/mm.c:35-37 | any 4096 bytes are the view of a page of words |
| `ByteView.ViewedOk` | kernel/mm/mm.c:244-248 | the user pages of a sound space, seen as bytes, meet what the copy loops rely on |
| `ByteView.ReadsTables` | kernel/syscall.c:38-55 | what is copied from user memory are the bytes of the frames that the page tables map |
| `ByteView.WritesTables` | kernel/syscall.c:57-74 | copying to user memory leaves bytes that are the view of pages of words which still hold the page tables, every mapping and every permission; only frame contents change |
| `Mmap.PageAlign` | kernel/syscall.c:275-278 | rounds up to a page within 64 bits |
| `Mmap.HandleMap` | kernel/syscall.c:280-310 | a fresh zeroed region at the cursor, or mappings and cursor unchanged; no page lost; out of memory only without room in the window or with fewer than four pages per page asked; no page outside the space and the pool touched |
| `Mmap.Rollback` | kernel/syscall.c:302-306 | the undo loop restores the old map and returns the frames |
| `Mmap.HandleUnmap` | kernel/syscall.c:312-327 | for every 64-bit address and length, succeeds exactly when the checks admit them and every page the walks land on is mapped, and then exactly those go; no page outside the space and the pool touched |
| `Mmap.UnmapConfinedIff` | kernel/syscall.c:316-318 | a successful unmap stays inside the window if and only if the low 48 bits of the address are not below it |
| `Mmap.UnmapReaches` | kernel/syscall.c:316-325 | every mapped page can be reached from 2^48 above its address |
| `Mmap.PathAlias` | kernel/mm/mm.c:97-111 | addresses that agree in their low 48 bits have one path |
| `Mmap.ForkKeepsWindow` | kernel/task.c:227-236 | the child's window is clear above the copied cursor |
| `Exec.MapPages` | kernel/user.c:74-85 | in the page tables, maps the missing pages of a range for the user, keeps every mapping and loses no page; fails only with fewer than four free pages per page of the range; touches nothing else |
| `Exec.ProtectPages` | kernel/user.c:192-198 | succeeds exactly on a mapped range and sets exactly its write bits |
| `Exec.ExecSpace` | kernel/user.c:204-215 | a space that maps exactly the pages of segments and stack, each writable as the last segment on it says, open to the user on every level, with the window and everything above clear; fails only for a malformed segment, for contents that do not fit or with too few free pages, and then every page is given back; nothing but free pages is touched |
| `Exec.NeedBound` | kernel/user.c:74-85 | four free pages for every page a segment may be on are enough for it |
| `Exec.ExecClearsWindow` | kernel/task.c:294-299 | the pages a loaded program lists leave the window clear from its base on |
| `Exec.CopyAllUser` | kernel/mm/mm.c:152-167 | a cloned space maps nothing but user pages |
| `AddressSpaces.FramesApart` | kernel/mm/mm.c:39-70 | a frame belongs to one page of one task and is never free, and memory holds its contents |
| `AddressSpaces.StepKeeps` | kernel/task.c:294-306 | replacing one task's space keeps all spaces whole and apart and loses no page |
| `AddressSpaces.AddKeeps` | kernel/task.c:213-225 | so does a new space out of the pool |
| `AddressSpaces.RemoveKeeps` | kernel/task.c:308-330 | so does giving a space back |
| `AddressSpaces.StoreEffect` | kernel/task.c:242-252 | a store through the tables changes that word of that page only and leaves the tables standing |
| `AddressSpaces.CloneFor` | kernel/task.c:213-225 | the clone of a fork, undone when the descriptor table has no room |
| `AddressSpaces.Tasks.MapMemory` | kernel/syscall.c:280-310 | a map call among all tasks: the effect of `HandleMap`, and no other task's mappings or bytes change |
| `AddressSpaces.Tasks.UnmapMemory` | kernel/syscall.c:312-327 | the same for unmap, with its exact success condition |
| `AddressSpaces.Tasks.StoreWord` | kernel/task.c:242-252 | one word of one page of one task, exactly when the page is mapped |
| `AddressSpaces.Tasks.ForkSpace` | kernel/task.c:213-236 | the child's pages carry the permissions and bytes of the parent's, nobody else's space changes, and the exact success condition |
| `AddressSpaces.Tasks.ExecTask` | kernel/task.c:294-306 | the new space replaces the old one, whose pages all go back |
| `AddressSpaces.Tasks.ExitTask` | kernel/task.c:308-330 | every page of the space goes back and no other space changes |
| `AddressSpaces.Tasks.ServeAll` | kernel/task.c:294-330 | every sequence of calls keeps every space whole, its window clear and all spaces apart, loses no page, and changes at each call one task's space; a task that never runs keeps every mapping and byte |
| `UserMemory.RangeOk` | kernel/mm/mm.c:250-266 | accepts exactly the ranges whose every byte is in user space, mapped, and writable if asked |
| `UserMemory.Memories.CopyOut` | kernel/user.c:46-59 | succeeds exactly when every byte is mapped; writes those bytes and touches no other byte or frame |
| `UserMemory.Memories.CopyToUser` | kernel/syscall.c:57-74 | succeeds exactly on an allowed range; all of it or nothing |
| `UserMemory.Memories.CopyFromUser` | kernel/syscall.c:38-55 | succeeds exactly on an allowed range and returns what per-byte translation gives |
| `UserMemory.WrittenJoin` | kernel/syscall.c:57-74 | page-sized pieces add up to one write |
| `UserImage.Loader.MapRange` | kernel/user.c:74-85 | maps exactly the missing pages of the range and keeps the others; fails only when frames or page-table memory run out, at any point |
| `UserImage.Loader.LoadSegment` | kernel/user.c:183-191 | for every k below memsz the byte at vaddr + k is the file's byte at offset + k, or 0 from filesz on; nothing outside the segment changes |
| `UserImage.Loader.LoadSegments` | kernel/user.c:181-192 | disjoint segments all hold those bytes at the end, also when they share pages |
| `UserImage.CoversIff` | kernel/user.c:75-76 | a page is covered exactly if a byte of the segment is on it |
| `UserImage.InBoundsIff` | kernel/user.c:183-186 | a segment is accepted exactly if its file bytes are in the image and its addresses in the image region |
| `UserImage.Loader.Protect` | kernel/user.c:193-198 | the last segment on a page decides its write bit |
| `UserImage.LastDecides` | kernel/user.c:193-198 | the permission of a page is that of the last segment on it |
| `UserImage.Loader.PushStrings` | kernel/user.c:117-127 | all strings end up intact between the new and the old stack pointer |
| `UserImage.Loader.BuildStack` | kernel/user.c:107-149 | the start code reads back exactly argc, argv, envp and the auxiliary vector; sp is 16-aligned |
| `UserImage.AuxFinds` | kernel/user.c:137-144 | each key of the auxiliary vector has its value: headers, page size, entry, random bytes, program name |
| `UserImage.StackSuffices` | kernel/user.c:107-149 | 16 arguments and 16 environment strings of the exec call always fit |
| `UserImage.Loader.Load` | kernel/user.c:151-202 | every byte of the segments, the stack, the auxiliary vector, the permissions and the exact set of mapped pages together; failure only for a bad segment, too much on the stack or missing memory |
| `Bytes.WordRoundTrip` | kernel/user.c:130-146 | eight little-endian bytes give the word back |
| `Bytes.WordOfBytes` | kernel/user.c:130-146 | eight bytes are the bytes of exactly one word |
| `UserImage.DecodeUnique` | lib/libc/crt/arch/x86_64/crt0.S:4-10 | a stack can be read as arguments and environment in one way only |
| `VfsPath.LookupAgrees` | kernel/fs/vfs.c:173-213 | walking a path equals finding its parent and then the child of the last name |
| `VfsPath.ComponentsAppend` | kernel/fs/vfs.c:173-192 | components of a path split at a slash |
| `VfsLaws.SlashSplits` | kernel/fs/vfs.c:176-182 | a slash anywhere separates the components, and a name without one is one component |
| `VfsLaws.DotDotFromRoot` | kernel/fs/vfs.c:183-186 | a path and "/.." walk to the parent of where the path does, from the root to the root |
| `VfsLaws.DotsWalk` | kernel/fs/vfs.c:183-186 | a path and "/." walk to where the path does |
| `VfsLaws.DownAndUp` | kernel/fs/vfs.c:173-192 | going down to a child by its name and then ".." ends where it began |
| `VfsLaws.NamesLead` | kernel/fs/vfs.c:173-192 | the names from the root down to any linked vnode walk to it |
| `VfsLaws.EveryNodeFound` | kernel/fs/vfs.c:173-192 | so every vnode in the tree has a path |
| `VfsLaws.WalkEnds` | kernel/fs/vfs.c:173-192 | a walk goes step by step; not found means a missing name, not a directory means a step from something else |
| `VfsLaws.ParentIff` | kernel/fs/vfs.c:198-213 | when a path has a parent, which one, and why not |
| `VfsLaws.OpenFailures` | kernel/fs/vfs.c:294-313 | which failure gives which status of open, each in both directions |
| `VfsLaws.MkdirFailures` | kernel/fs/vfs.c:411-420 | the same for mkdir |
| `VfsLaws.UnlinkFailures` | kernel/fs/vfs.c:422-435 | the same for unlink |
| `VfsLaws.RenameFailures` | kernel/fs/vfs.c:437-467 | the same for rename |
| `VfsTree.CreateKeeps` | kernel/fs/vfs.c:113-153 | attaching a new vnode keeps one tree under the root with unique sibling names |
| `VfsTree.RemoveKeeps` | kernel/fs/vfs.c:122-129 | removing a childless vnode keeps the tree; an open one stays without name, parent and children |
| `VfsTree.MoveKeeps` | kernel/fs/vfs.c:437-467 | moving a vnode below a directory it is not above keeps the tree |
| `VfsTree.CreateVisible` | kernel/fs/vfs.c:194-213 | the path of a new vnode then resolves to it |
| `VfsLaws.CreateOnly` | kernel/fs/vfs.c:113-153 | a new vnode is the last child of its directory, and nothing else changes |
| `VfsLaws.RemoveOnly` | kernel/fs/vfs.c:122-171 | a removed vnode leaves its directory and stays only while open, and nothing else changes |
| `VfsLaws.MoveOnly` | kernel/fs/vfs.c:460-466 | a moved vnode keeps its kind, children and openers, and only two lists of children change |
| `VfsTree.RemoveHides` | kernel/fs/vfs.c:422-435 | the name is gone from its directory |
| `VfsTree.MoveShows` | kernel/fs/vfs.c:437-467 | the new name is there and the old one gone |
| `Vfs.Vfs.DoWalk` | kernel/fs/vfs.c:173-192 | the component loop computes the specified lookup and ends at a linked vnode |
| `Vfs.Vfs.DoLookupParent` | kernel/fs/vfs.c:198-213 | the scan from the end computes the specified parent and name |
| `Vfs.Vfs.Open` | kernel/fs/vfs.c:294-325 | exact status; the vnode found or created gains one reference and nothing else changes |
| `Vfs.Vfs.Close` | kernel/fs/vfs.c:327-333 | one reference less; an unlinked vnode goes with its last one |
| `Vfs.Vfs.Mkdir` | kernel/fs/vfs.c:411-420 | exact status; a new directory that the path then resolves to, or nothing |
| `Vfs.Vfs.Unlink` | kernel/fs/vfs.c:422-435 | exact status; exactly the named vnode is removed, or nothing |
| `Vfs.Vfs.IsAbove` | kernel/fs/vfs.c:447-448 | decides whether a vnode is on the way from a directory to the root |
| `Vfs.Vfs.Rename` | kernel/fs/vfs.c:437-467 | exact status; the old holder of the new name goes and the vnode moves, or nothing |
| `Vfs.Vfs.RunAll` | kernel/fs/vfs.c:294-467 | every sequence of calls keeps the tree |
| `FileData.FileNode.Truncate` | kernel/fs/vfs.c:314-318 | the file is empty |
| `FileData.FileNode.EnsurePages` | kernel/fs/vfs.c:215-233 | succeeds exactly with enough frames; moving archive bytes into pages is invisible, also after an earlier failure |
| `FileData.FileNode.Write` | kernel/fs/vfs.c:364-386 | succeeds exactly within the size limit and with enough frames; splices, with zeros in any gap |
| `FileData.FileNode.HandleWrite` | kernel/syscall.c:139-158 | nothing at length 0; otherwise the splice of the longest run of whole pieces that fits, all of it exactly when all of it fits, an error exactly when not even the first piece does |
| `FileData.MissingCounts` | kernel/fs/vfs.c:215-222 | a write needs one frame for every page below its end that has none |
| `FileData.FileNode.Read` | kernel/fs/vfs.c:342-362 | the wanted slice from the archive; from pages, the slice that ignores the in-page offset |
| `FileData.ReadPagedCorrectIff` | kernel/fs/vfs.c:351-359 | paged reads are right for all contents exactly when nothing is read or the offset starts a page |
| `FileData.SyscallReadCorrectIff` | kernel/syscall.c:113-137 | the same through the 512-byte buffer: at most one buffer, at the start of a page |
| `FileData.PokeBytes` | kernel/fs/vfs.c:376-384 | a write into one page changes exactly its bytes of the file |
| `Blocks.NoOverlap` | lib/libc/src/stdlib/allocator.c:23-49 | linked blocks never overlap |
| `Blocks.Covering` | lib/libc/src/stdlib/allocator.c:23-73 | every byte of an arena behind its header is in some block |
| `Blocks.SplitLinked` | lib/libc/src/stdlib/allocator.c:23-41 | splitting keeps the arenas tiled and doubly linked |
| `Blocks.SplitCoalesced` | lib/libc/src/stdlib/allocator.c:23-41 | splitting leaves no two adjacent free blocks |
| `Blocks.MergeLinked` | lib/libc/src/stdlib/allocator.c:43-49 | merging keeps the arenas tiled and doubly linked |
| `Allocator.TakeKeeps` | lib/libc/src/stdlib/allocator.c:83-105 | taking a block keeps tiling, alignment, coalescing and the counts, and wastes less than a header and a unit |
| `Allocator.GiveKeeps` | lib/libc/src/stdlib/allocator.c:107-124 | freeing with two-sided merging keeps them too |
| `Allocator.ShrinkKeeps` | lib/libc/src/stdlib/allocator.c:131-138 | shrinking in place keeps them |
| `Allocator.GrowKeeps` | lib/libc/src/stdlib/allocator.c:139-147 | growing into a free successor keeps them |
| `Allocator.HeadersSparePayloads` | lib/libc/src/stdlib/allocator.c:23-49 | block header writes change no byte of any other live payload |
| `Allocator.ArenaSpares` | lib/libc/src/stdlib/allocator.c:61-66 | arena header writes change no block header and no payload |
| `Allocator.HeadersSpareArenas` | lib/libc/src/stdlib/allocator.c:23-49 | block header writes change no arena header |
| `Allocator.PayloadImaged` | lib/libc/src/stdlib/realloc.c:5-20 | a write inside a payload leaves every block header in memory |
| `Allocator.HeaderReads` | lib/libc/src/stdlib/allocator.c:23-49 | the fields of a stored header are read back from its bytes |
| `HeapImage.BlockReads` | lib/libc/src/stdlib/allocator.c:19-49 | in every valid heap, each block header is read back from memory |
| `HeapImage.ArenaReads` | lib/libc/src/stdlib/allocator.c:51-66 | so is each arena header, with the links of the arena list |
| `HeapImage.HeapUnique` | lib/libc/src/stdlib/allocator.c:9-78 | the bytes and the first arena's address determine the whole heap: arenas, their order and every block |
| `Allocator.Malloc.StoreArena` | lib/libc/src/stdlib/allocator.c:61-66 | writes one arena header and keeps every other header and payload |
| `Allocator.Malloc.FindBlock` | lib/libc/src/stdlib/allocator.c:75-81 | the first block that fits in the first arena of the list that has one, or nothing fits anywhere |
| `Allocator.Malloc.SplitBlock` | lib/libc/src/stdlib/allocator.c:23-41 | computes the split and writes only headers |
| `Allocator.Malloc.MergeNext` | lib/libc/src/stdlib/allocator.c:43-49 | computes the merge and writes only headers |
| `Allocator.Malloc.CreateArena` | lib/libc/src/stdlib/allocator.c:51-73 | a new arena of one free block that fits, or nothing |
| `Allocator.Malloc.Allocate` | lib/libc/src/stdlib/allocator.c:83-105 | an aligned block that was not live, wasting less than a header and a unit, with every live payload unchanged; the first block that fits, a new arena only when none does, and null only when nothing fits and no memory comes |
| `Allocator.Malloc.Release` | lib/libc/src/stdlib/allocator.c:107-124 | the block is free, other payloads unchanged; the arena goes exactly with its last live block, unless it is the only one |
| `Allocator.Malloc.Resize` | lib/libc/src/stdlib/allocator.c:131-147 | succeeds exactly when the block, alone or with a free successor, has room, and then wastes less than a header and a unit; payloads kept |
| `Allocator.Malloc.Realloc` | lib/libc/src/stdlib/realloc.c:5-20 | the first min(old, new) bytes survive every path and other payloads are unchanged; the block stays in place exactly when there is room, a moved or emptied block is freed, and failure means no memory |
| `Window.CarveKeeps` | kernel/mm/heap.c:67-80 | carving keeps the list sorted and coalesced and removes exactly the pages taken |
| `Window.InsertCoalesced` | kernel/mm/heap.c:86-113 | giving back with every merge case keeps the list sorted and coalesced |
| `Window.InsertPages` | kernel/mm/heap.c:86-113 | and adds exactly the pages given |
| `Window.NodeIff` | kernel/mm/heap.c:92-107 | a list node is needed exactly when no neighbouring page is free |
| `Window.Window.Alloc` | kernel/mm/heap.c:67-84 | first fit, then the tail, failing exactly without room; the window stays partitioned |
| `Window.Window.Free` | kernel/mm/heap.c:86-113 | the range becomes free, or is dropped exactly when a node is needed and cannot be had |
| `Window.Window.LargeAlloc` | kernel/mm/heap.c:122-141 | a new block over unused pages, all mapped, or everything undone but at most one range lost for want of a list node |
| `Window.Window.LargeFree` | kernel/mm/heap.c:178-192 | exactly the block's pages are unmapped and given back |
| `Services.RootedAcyclic` | userland/pablo/src/service.c:17-30 | a chain that ends never comes back to its start |
| `Services.AcyclicRooted` | userland/pablo/src/service.c:17-30 | without cycles every chain ends |
| `Services.VisitDependency` | userland/pablo/src/service.c:17-30 | terminates; success colours the service, failure names a cycle or a missing dependency |
| `Services.Validate` | userland/pablo/src/service.c:32-47 | accepts exactly non-empty distinct names, absolute paths, existing dependencies and no cycle |
| `Services.ParentNamed` | userland/pablo/src/service.c:11-15 | the service to start after is the one named in `after` |
| `Supervisor.SpawnBound` | userland/pablo/src/supervisor.c:57-80 | once services start at most once, respawn services at most limit + 1 times |
| `Supervisor.SpawnCount` | userland/pablo/src/supervisor.c:57-80 | starts and restarts differ by what the state says |
| `Supervisor.StartOrder` | userland/pablo/src/supervisor.c:14-25 | everything a service depends on, however indirectly, was started before it |
| `Supervisor.DelayKept` | userland/pablo/src/supervisor.c:105-117 | at least the delay between a stop or failed fork and the next attempt |
| `Supervisor.Final` | userland/pablo/src/supervisor.c:57-80 | nothing happens to a service that completed or failed |
| `Supervisor.FailureRoot` | userland/pablo/src/supervisor.c:14-25 | every failure goes back to a service that was started and failed |
| `Supervisor.ExitOnce` | userland/pablo/src/supervisor.c:82-95 | a service has one exit event if its process is reported, however often, and otherwise none |
| `Supervisor.ReportFirst` | userland/pablo/src/supervisor.c:82-89 | the exit that counts is the first one reported for the process |
| `Supervisor.ExitCodeSeen` | userland/pablo/src/supervisor.c:64 | the status the kernel makes of any exit code is seen as the low byte of the code |
| `Supervisor.OtherEndSeen` | userland/pablo/src/supervisor.c:64 | a status with low seven bits other than zero is seen as 128 |
| `Supervisor.Supervisor.RecordExit` | userland/pablo/src/supervisor.c:49-80 | charges the running service with that pid and no other; a once service is complete exactly if the low seven bits and the second byte of the status are zero and failed otherwise, a respawn service waits again or has reached its limit |
| `Supervisor.Supervisor.ReapAll` | userland/pablo/src/supervisor.c:82-95 | every service whose process is reported is charged with the first report of it, and no other changes |
| `Supervisor.Supervisor.StartOne` | userland/pablo/src/supervisor.c:105-117 | acts exactly when the service is due and its dependency decided; what it then becomes, field by field |
| `Supervisor.Supervisor.StartReady` | userland/pablo/src/supervisor.c:105-117 | every service due at the start is attempted; something happens whenever something is left and nothing is active; running pids stay distinct |
| `Supervisor.Supervisor.Turn` | userland/pablo/src/supervisor.c:126-137 | reaping and then starting, from legal events only; each running process ran before and was not reported or was forked for its service; running pids stay distinct; a settled graph stays settled and is reported |
| `Supervisor.Supervisor.RunAll` | userland/pablo/src/supervisor.c:126-137 | every run keeps a legal log, whatever the processes do; with pids as the kernel gives them out, running pids stay distinct and every turn charges each reported exit to the service whose process it is |
| `Numbers.DigitsEval` | lib/libc/src/stdio/format.c:20-29 | the digits evaluate back to the value |
| `Numbers.DigitsCanonical` | lib/libc/src/stdio/format.c:20-29 | capital digits exactly when asked for, and no leading zero |
| `Numbers.DigitsFit` | lib/libc/src/stdio/format.c:23-29 | at most 22 digits, so the 32-byte buffer is enough |
| `Numbers.FillBuffer` | lib/libc/src/stdio/format.c:23-29 | the buffer holds the digits backwards |
| `Numbers.NumberLength` | lib/libc/src/stdio/format.c:31-48 | the length is the larger of the width and digits plus marker, two more if both markers were asked for |
| `Numbers.NumberReads` | lib/libc/src/stdio/format.c:31-48 | the text is spaces, marker and digits of the value |
| `Numbers.HexReads` | lib/libc/src/stdio/format.c:31-48 | a hexadecimal number reads back behind 0x or 0X as asked for |
| `Numbers.PaddingOnly` | lib/libc/src/stdio/format.c:31-48 | no space with the zero flag; without it only spaces are added to the shortest digits |
| `Numbers.SignedReads` | lib/libc/src/stdio/format.c:114-118 | signed numbers read back, the smallest included |
| `Numbers.Stream.EmitNumber` | lib/libc/src/stdio/format.c:20-49 | emits exactly that text, failing exactly past INT_MAX characters |
| `Numbers.ParseWidth` | lib/libc/src/stdio/format.c:83-89 | the width saturates at INT_MAX |
| `Numbers.ParseUnsigned` | userland/pablo/src/text.c:32-44 | accepts exactly the digit strings up to UINT32_MAX, with their value |
| `Numbers.ParseInvertsPrint` | userland/pablo/src/text.c:32-44 | inverts %u exactly when no space was printed |

## Left out

- Kernel.Machine.TaskFork: only before the pid counter wraps; what happens after is shown by `SchedLedger.PidReuseDeadlock`.
- Mmap.HandleUnmap: page numbers that land in the kernel's half count as unmapped, since `vmm_map_kernel` never sets the user bit.
- Allocator.Malloc.Resize: only non-zero sizes; its only caller handles zero itself.
- AddressSpaces.Tasks.StoreWord: stores are whole words and ask for no write permission, so that what is proved of them holds for every store; which task runs next is a parameter of exit and switch.
- UserImage.Loader.Load: starts from parsed headers; reading the file, ELF header checks and `find_phdr` are parameters. `UserImage` works on the map the page tables stand for; `ByteView` and `Exec` are the links.
- Vfs.Vfs.Open: truncation is `FileData.FileNode.Truncate`, and appending only matters when writing; the tree does not depend on either.
- Window.Window.LargeAlloc: physical frames are a count and mapped pages a ghost set that the methods edit themselves, so what is said of it holds by construction; the page tables are in `PageTables`.
- Window.Window.LargeFree: unmapping edits that ghost set; what the lists and the partition of the window say does not depend on it.
- Exec.ExecSpace: copying bytes and building the stack is one answer; `UserImage.Loader.Load` says what they do.
- Large pages, the kernel half of page tables and TLB flushes: large pages are never created in user space, the rest has no visible effect.
- The pages behind a pipe, a task and an open file: their allocation is a flag, so page conservation is proved for address spaces only.
- Saving and restoring registers, console input and output, interrupts, timers and all aarch64 and riscv64 code.
- tar parsing in `vfs_init`, `vfs_seek`, `vfs_readdir` and open flags other than create, exclusive, directory, write and truncate: easy beside the tree and the data.
- Small-object classes of the kernel heap and `krealloc`: free lists of fixed-size objects, easier than the window.
- Path and argument copying from user space: the same copy loops again.
- Pablo's file reading and logging; `fork` and `waitpid` are inputs of each turn.
- Parsing of the rest of a format string, and `fwrite` failing.
- Ticks, offsets and byte counts are unbounded except where a line above says a limit is kept.

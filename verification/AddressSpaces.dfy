/**
 The address spaces of all tasks over one physical memory: each task has a root table and an
 mmap_next, and map, unmap, fork, exec and exit work on them.  No page is ever in two spaces, and
 a call changes the space of the task it is for and no other, neither its mappings nor its bytes.
 */
module AddressSpaces {
  import opened Ram
  import opened PageTree
  import opened PageTables
  import opened Mmap
  import Spaces
  import Frames
  import Exec
  import Mmu
  import ByteView
  import Bytes
  import UserMemory
  import UserImage

  /** The part of a task that is about memory. */
  datatype Space = Space(root: nat, next: nat)

  datatype Op =
    | Map(length: nat, readable: bool, write: bool, unknown: bool)
    | Unmap(address: nat, length: nat)
    | Store(page: nat, index: nat, word: Word)
    | Fork(child: nat, fds: bool)
    | Exec(image: seq<Bytes.Byte>, segments: seq<UserImage.Segment>, fits: bool)
    | Exit(next: nat)
    | Switch(next: nat)
    | Report(parent: nat, page: nat, index: nat, word: Word)

  /** The task whose space a call may change. */
  function Actor(op: Op, current: nat): nat {
    if op.Report? then op.parent else current
  }

  // ----- One space

  ghost predicate Owns(n: Node, s: Space, mem: map<nat, Page>, pool: set<nat>) {
    Sound(n, mem, pool) && n.page == s.root && Good(n, s.next)
  }

  /** What every space satisfies about its mappings. */
  ghost predicate Good(n: Node, next: nat) {
    WindowClear(n, next) && NothingAbove(n) && Exec.AllUser(n) && Open(n, true)
  }

  lemma GoodSame(n: Node, t: Node, next: nat)
    requires Good(n, next) && Opens(n, t, true)
    requires forall v: nat {:trigger Find(t, Path(v))} :: v < USER_PAGES ==>
               var m, k := Find(n, Path(v)), Find(t, Path(v)); m == k || k == Unmapped || (m.Mapped? && k.user)
    ensures Good(t, next)
  {
    hide Find, Path;
  }

  lemma GoodMapped(n: Node, t: Node, next: nat, next': nat, first: nat, lo: nat, hi: nat, write: bool, pool: set<nat>)
    requires Good(n, next) && FreshRun(n, t, first, lo, hi, write, pool)
    requires WindowClear(t, next') && NothingAbove(t) && Opens(n, t, true)
    ensures Good(t, next')
  {
    hide Find, Path;
    forall v: nat | v < USER_PAGES && Find(t, Path(v)).Mapped? ensures Find(t, Path(v)).user {
      assert first + lo <= v < first + hi || Find(t, Path(v)) == Find(n, Path(v));
    }
  }

  lemma GoodUnmapped(n: Node, t: Node, next: nat, lo: nat, hi: nat)
    requires Good(n, next) && UnmappedRun(n, t, lo, hi) && Opens(n, t, true)
    ensures Good(t, next)
  {
    hide Find, Path;
    forall v: nat | v < USER_PAGES ensures Find(t, Path(v)) == Find(n, Path(v)) || Find(t, Path(v)) == Unmapped {
    }
    GoodSame(n, t, next);
  }

  lemma GoodCopy(n: Node, t: Node, kernel: Page, next: nat)
    requires Good(n, next) && Spaces.RootCopy(n, t, kernel)
    ensures Good(t, next)
  {
    hide Find, Path, Spaces.RootCopy;
    ForkKeepsWindow(n, t, kernel, next);
    Exec.CopyAllUser(n, t, kernel);
    Spaces.CloneOpens(n, t, kernel);
  }

  /** A change confined to one space and the pool does not reach a space apart from it. */
  lemma OtherStays(o: Node, s: Space, n: Node, mem: map<nat, Page>, mem': map<nat, Page>, pool: set<nat>,
                   pool': set<nat>)
    requires Owns(o, s, mem, pool) && Pages(o) !! Pages(n)
    requires Confined(n, mem, mem', pool) && pool' <= Pages(n) + pool
    ensures Owns(o, s, mem', pool')
  {
    hide Good;
    PagesStored(mem, o);
    StoredFrame(mem, mem', o);
  }

  lemma RootInside(n: Node)
    requires RootShaped(n)
    ensures n.page in Pages(n)
  {
  }

  // ----- All spaces

  type Trees = map<nat, Node>
  type Table = map<nat, Space>

  ghost predicate Apart2(trees: Trees) {
    forall p, q :: p in trees && q in trees && p != q ==> Pages(trees[p]) !! Pages(trees[q])
  }

  /** Every space is whole, and no page is in two of them or in one and the pool. */
  ghost predicate Separate(trees: Trees, spaces: Table, mem: map<nat, Page>, pool: set<nat>) {
    && trees.Keys == spaces.Keys && Apart2(trees)
    && (forall p :: p in trees ==> Owns(trees[p], spaces[p], mem, pool))
  }

  /** All pages that are in some space. */
  ghost function Owned(trees: Trees): set<nat> {
    set p, q | p in trees && q in Pages(trees[p]) :: q
  }

  /** The spaces of all tasks but `p` are as they were, with every mapping and every byte. */
  ghost predicate OnlyTask(p: nat, trees: Trees, trees': Trees, spaces: Table, spaces': Table) {
    forall q :: q in trees && q in spaces && q != p ==>
                  q in trees' && q in spaces' && trees'[q] == trees[q] && spaces'[q] == spaces[q]
  }

  /** A change of one space. */
  lemma StepKeeps(trees: Trees, spaces: Table, mem: map<nat, Page>, pool: set<nat>, p: nat, t: Node, s: Space,
                  mem': map<nat, Page>, pool': set<nat>)
    requires Separate(trees, spaces, mem, pool) && p in trees && Confined(trees[p], mem, mem', pool)
    requires Owns(t, s, mem', pool') && Pages(t) + pool' == Pages(trees[p]) + pool
    ensures Separate(trees[p := t], spaces[p := s], mem', pool')
    ensures Owned(trees[p := t]) + pool' == Owned(trees) + pool
  {
    hide Owns, Confined, Pages;
    OwnsApart(t, s, mem', pool');
    forall q | q in trees && q != p ensures Pages(trees[q]) !! Pages(t) && Owns(trees[q], spaces[q], mem', pool') {
      OwnsApart(trees[q], spaces[q], mem, pool);
      OtherStays(trees[q], spaces[q], trees[p], mem, mem', pool, pool');
    }
    OwnedSplit(trees, p);
    OwnedSplit(trees[p := t], p);
    assert trees[p := t] - {p} == trees - {p};
  }

  lemma OwnsApart(n: Node, s: Space, mem: map<nat, Page>, pool: set<nat>)
    requires Owns(n, s, mem, pool)
    ensures Sound(n, mem, pool) && n.page == s.root
    ensures Pages(n) !! pool && n.page in Pages(n) && n.page in mem && n.page !in pool
  {
    hide Good;
    RootInside(n);
    PagesStored(mem, n);
  }

  lemma OwnedSplit(trees: Trees, p: nat)
    requires p in trees
    ensures Owned(trees) == Owned(trees - {p}) + Pages(trees[p])
  {
    hide Pages;
    var rest := trees - {p};
    forall q | q in Owned(trees) ensures q in Owned(rest) + Pages(trees[p]) {
      var k :| k in trees && q in Pages(trees[k]);
      assert k != p ==> k in rest && q in Pages(rest[k]);
    }
    forall q | q in Owned(rest) ensures q in Owned(trees) {
      var k :| k in rest && q in Pages(rest[k]);
      assert k in trees && q in Pages(trees[k]);
    }
  }

  /** A new space out of the pool. */
  lemma AddKeeps(trees: Trees, spaces: Table, mem: map<nat, Page>, pool: set<nat>, c: nat, t: Node, s: Space,
                 mem': map<nat, Page>, pool': set<nat>)
    requires Separate(trees, spaces, mem, pool) && c !in trees && Untouched(mem, mem', pool)
    requires Owns(t, s, mem', pool') && Pages(t) <= pool && pool' == pool - Pages(t)
    ensures Separate(trees[c := t], spaces[c := s], mem', pool')
    ensures Owned(trees[c := t]) + pool' == Owned(trees) + pool
  {
    hide Owns, Pages, Untouched;
    forall q | q in trees ensures Pages(trees[q]) !! Pages(t) && Owns(trees[q], spaces[q], mem', pool') {
      PoolStays(trees[q], spaces[q], mem, mem', pool, pool');
    }
    OwnedSplit(trees[c := t], c);
    assert trees[c := t] - {c} == trees;
  }

  /** A change inside the pool reaches no space. */
  lemma PoolStays(o: Node, s: Space, mem: map<nat, Page>, mem': map<nat, Page>, pool: set<nat>, pool': set<nat>)
    requires Owns(o, s, mem, pool) && Untouched(mem, mem', pool) && pool' <= pool
    ensures Owns(o, s, mem', pool') && Pages(o) !! pool
  {
    hide Good;
    PagesStored(mem, o);
    StoredFrame(mem, mem', o);
  }

  lemma SameKeeps(trees: Trees, spaces: Table, mem: map<nat, Page>, pool: set<nat>, mem': map<nat, Page>)
    requires Separate(trees, spaces, mem, pool) && Untouched(mem, mem', pool)
    ensures Separate(trees, spaces, mem', pool)
  {
    hide Owns, Pages, Untouched;
    forall q | q in trees ensures Owns(trees[q], spaces[q], mem', pool) {
      PoolStays(trees[q], spaces[q], mem, mem', pool, pool);
    }
  }

  /** A space whose pages have all gone back to the pool. */
  lemma RemoveKeeps(trees: Trees, spaces: Table, mem: map<nat, Page>, pool: set<nat>, p: nat, mem': map<nat, Page>)
    requires Separate(trees, spaces, mem, pool) && p in trees && Untouched(mem, mem', Pages(trees[p]))
    ensures Separate(trees - {p}, spaces - {p}, mem', pool + Pages(trees[p]))
    ensures Owned(trees - {p}) + (pool + Pages(trees[p])) == Owned(trees) + pool
  {
    hide Owns, Pages, Confined, Untouched;
    var n := trees[p];
    ConfinedBy(n, mem, mem', pool, Pages(n));
    forall q | q in trees && q != p ensures Owns(trees[q], spaces[q], mem', pool + Pages(n)) {
      OtherStays(trees[q], spaces[q], n, mem, mem', pool, pool + Pages(n));
    }
    OwnedSplit(trees, p);
  }

  /** What the processor lets a task reach through its root is what the map of its space says, bit for bit. */
  lemma HardwareSees(trees: Trees, spaces: Table, mem: map<nat, Page>, pool: set<nat>, p: nat, v: nat)
    requires Separate(trees, spaces, mem, pool) && p in trees && v < USER_PAGES
    ensures Mmu.Walk(mem, spaces[p].root, v, 4) == Mmu.Allowed(Find(trees[p], Path(v)))
  {
    hide Find, Path, Mmu.Walk, Sound, Open;
    assert Owns(trees[p], spaces[p], mem, pool);
    Mmu.WalkIsFind(trees[p], mem, pool, v);
  }

  /** Two tasks never share a frame, and no task's frame is free. */
  lemma FramesApart(trees: Trees, spaces: Table, mem: map<nat, Page>, pool: set<nat>, p: nat, v: nat, q: nat, w: nat)
    requires Separate(trees, spaces, mem, pool) && p in trees && q in trees && v < USER_PAGES && w < USER_PAGES
    requires Find(trees[p], Path(v)).Mapped? && Find(trees[q], Path(w)).Mapped?
    ensures Find(trees[p], Path(v)).page == Find(trees[q], Path(w)).page <==> p == q && v == w
    ensures Find(trees[p], Path(v)).page !in pool
    ensures Find(trees[p], Path(v)).page in mem
    ensures mem[Find(trees[p], Path(v)).page] == Find(trees[p], Path(v)).data
  {
    hide Find, Path, Pages, Good;
    assert Owns(trees[p], spaces[p], mem, pool) && Owns(trees[q], spaces[q], mem, pool);
    Frames.FoundInside(trees[p], Path(v));
    Frames.FoundInside(trees[q], Path(w));
    ByteView.FrameData(trees[p], mem, pool, v);
    if p == q && v != w {
      Frames.FramesDistinct(trees[p], mem, pool, v, w);
    }
  }

  // ----- User stores

  /** A store to a mapped user page changes that word of that page and nothing else. */
  lemma StoreEffect(n: Node, mem: map<nat, Page>, pool: set<nat>, v: nat, index: nat, w: Word)
    requires Sound(n, mem, pool) && v < USER_PAGES && Find(n, Path(v)).Mapped? && index < PAGE_WORDS
    requires Sized(mem)
    ensures var f := Find(n, Path(v)).page;
            && f in mem && f in Pages(n) && f !in pool && mem[f] == Find(n, Path(v)).data && index < |mem[f]|
            && var mem' := Poke(mem, f, index, w);
               var t := ByteView.Refill(n, mem');
               && Sound(t, mem', pool) && t.page == n.page && Pages(t) == Pages(n) && Opens(n, t, true)
               && OnlyAt(n, t, v, Find(n, Path(v)).(data := mem'[f]))
  {
    hide Find, Path, Sound, ByteView.Refill, Pages, ByteView.IsTable;
    var m := Find(n, Path(v));
    FrameInTree(n, mem, pool, v);
    ByteView.FrameData(n, mem, pool, v);
    var mem' := Poke(mem, m.page, index, w);
    ByteView.UserFrameNotTable(n, mem, pool, v);
    ByteView.RefillSound(n, mem, mem', pool);
    ByteView.RefillPages(n, mem');
    ByteView.RefillOpens(n, mem');
    var t := ByteView.Refill(n, mem');
    forall u: nat | u < USER_PAGES
      ensures Find(t, Path(u)) == if u == v then m.(data := mem'[m.page]) else Find(n, Path(u))
    {
      ByteView.RefillUser(n, mem, pool, mem', u);
      if u != v && Find(n, Path(u)).Mapped? {
        Frames.FramesDistinct(n, mem, pool, u, v);
        ByteView.FrameData(n, mem, pool, u);
      }
    }
  }

  /** The space part of `task_fork`: a clone, given up again when there is no room for the table of descriptors. */
  method CloneFor(ram: Ram, active: nat, s: Space, fds: bool, ghost n: Node) returns (root: nat, ghost t: Node)
    requires ram.Valid() && Owns(n, s, ram.mem, ram.Pool()) && active == s.root
    modifies ram
    ensures ram.Valid() && Untouched(old(ram.mem), ram.mem, old(ram.Pool()))
    ensures root == 0 ==> ram.Pool() == old(ram.Pool())
    ensures root != 0 ==> Owns(t, Space(root, s.next), ram.mem, ram.Pool())
    ensures root != 0 ==> Pages(t) <= old(ram.Pool()) && ram.Pool() == old(ram.Pool()) - Pages(t)
    ensures root != 0 ==> exists kernel :: Spaces.RootCopy(n, t, kernel)
    ensures root != 0 <==> fds && Spaces.Enough(old(ram.Pool()), n)
  {
    hide Ram.Valid, Ram.Pool, Sound, Pages, Good, Untouched, Spaces.RootCopy, Spaces.Enough;
    ghost var mem0, pool0 := ram.mem, ram.Pool();
    OwnsApart(n, s, mem0, pool0);
    root, t := Spaces.SpaceClone(ram, active, s.root, n);
    if root == 0 {
      return;
    }
    ghost var mem1, pool1 := ram.mem, ram.Pool();
    UntouchedWider(mem0, mem1, Pages(t), pool0);
    if !fds {
      RootIn(t, mem1, pool1);
      Spaces.SpaceDestroy(ram, active, root, t);
      UntouchedTwice(mem0, mem1, ram.mem, Pages(t), pool0);
      return 0, t;
    }
    GoodCopy(n, t, mem0[active], s.next);
  }

  lemma RootIn(n: Node, mem: map<nat, Page>, pool: set<nat>)
    requires Sound(n, mem, pool)
    ensures n.page in Pages(n)
  {
  }

  lemma UntouchedWider(mem: map<nat, Page>, mem': map<nat, Page>, pages: set<nat>, more: set<nat>)
    requires Untouched(mem, mem', pages) && pages <= more
    ensures Untouched(mem, mem', more)
  {
  }

  lemma UntouchedTwice(m0: map<nat, Page>, m1: map<nat, Page>, m2: map<nat, Page>, pages: set<nat>, more: set<nat>)
    requires Untouched(m0, m1, more) && Untouched(m1, m2, pages) && pages <= more
    ensures Untouched(m0, m2, more)
  {
  }

  /** Taking over the new space of an exec and giving back the old one. */
  lemma ExecKeeps(n: Node, s: Space, t: Node, s': Space, m0: map<nat, Page>, m1: map<nat, Page>, m2: map<nat, Page>,
                  pool: set<nat>, pool1: set<nat>)
    requires Owns(n, s, m0, pool) && Untouched(m0, m1, pool) && Owns(t, s', m1, pool1) && Pages(t) + pool1 == pool
    requires Untouched(m1, m2, Pages(n))
    ensures Owns(t, s', m2, pool1 + Pages(n)) && Confined(n, m0, m2, pool)
    ensures Pages(t) + (pool1 + Pages(n)) == Pages(n) + pool
  {
    hide Good, Sound, Pages, Confined;
    OwnsApart(n, s, m0, pool);
    assert Pages(t) !! Pages(n);
    ConfinedBy(n, m1, m2, pool1, Pages(n));
    OtherStays(t, s', n, m1, m2, pool1, pool1 + Pages(n));
    UntouchedTwice(m0, m2, m2, {}, Pages(n) + pool) by { UntouchedSum(m0, m1, m2, pool, Pages(n)); }
    ConfinedBy(n, m0, m2, pool, Pages(n) + pool);
  }

  lemma UntouchedSum(m0: map<nat, Page>, m1: map<nat, Page>, m2: map<nat, Page>, a: set<nat>, b: set<nat>)
    requires Untouched(m0, m1, a) && Untouched(m1, m2, b)
    ensures Untouched(m0, m2, b + a)
  {
  }

  /** What a call for task `p` may do: its own space changes, and pages move only between it and the pool. */
  ghost predicate Confines(p: nat, trees: Trees, trees': Trees, spaces: Table, spaces': Table, pool: set<nat>,
                           pool': set<nat>) {
    OnlyTask(p, trees, trees', spaces, spaces') && Owned(trees') + pool' == Owned(trees) + pool
  }

  lemma Usable(ram: Ram, trees: Trees, spaces: Table, p: nat)
    requires ram.Valid() && Separate(trees, spaces, ram.mem, ram.Pool()) && p in spaces
    ensures p in trees && Owns(trees[p], spaces[p], ram.mem, ram.Pool()) && trees.Keys == spaces.Keys
    ensures var n, s := trees[p], spaces[p];
            Holds(ram, n) && n.page == s.root && Good(n, s.next)
            && WindowClear(n, s.next) && NothingAbove(n) && Exec.AllUser(n) && Open(n, true)
  {
    hide Sound, WindowClear, NothingAbove, Exec.AllUser, Open;
  }

  lemma Holder(ram: Ram, n: Node, s: Space)
    requires Holds(ram, n) && n.page == s.root && Good(n, s.next)
    ensures Owns(n, s, ram.mem, ram.Pool())
  {
    hide Sound, Good;
  }

  lemma NextApart(trees: Trees, spaces: Table, mem: map<nat, Page>, pool: set<nat>, p: nat, q: nat)
    requires Separate(trees, spaces, mem, pool) && p in trees && q in trees && p != q
    ensures spaces[p].root != spaces[q].root
  {
    hide Pages;
    OwnsApart(trees[p], spaces[p], mem, pool);
    OwnsApart(trees[q], spaces[q], mem, pool);
  }

  lemma SizedRam(ram: Ram)
    requires ram.Valid()
    ensures Sized(ram.mem)
  {
  }

  lemma GoodFrom(n: Node, next: nat)
    requires WindowClear(n, next) && NothingAbove(n) && Exec.AllUser(n) && Open(n, true)
    ensures Good(n, next)
  {
  }

  lemma GoodStored(n: Node, t: Node, next: nat, v: nat, data: Page)
    requires Good(n, next) && v < USER_PAGES && UserMapped(n, v)
    requires OnlyAt(n, t, v, Find(n, Path(v)).(data := data)) && Opens(n, t, true)
    ensures Good(t, next)
  {
    hide Find, Path;
    GoodSame(n, t, next);
  }

  lemma StoreConfined(n: Node, mem: map<nat, Page>, pool: set<nat>, f: nat, index: nat, w: Word)
    requires f in mem && f in Pages(n) && index < |mem[f]|
    ensures Confined(n, mem, Poke(mem, f, index, w), pool)
  {
    hide Pages;
  }

  ghost predicate OpOk(op: Op) {
    match op
    case Map(length, _, _, _) => length <= UINT64_MAX
    case Unmap(address, length) => address <= UINT64_MAX && length <= UINT64_MAX
    case Store(_, index, _) => index < PAGE_WORDS
    case Report(_, _, index, _) => index < PAGE_WORDS
    case _ => true
  }

  /** Some call switches to `p` or reports an exit to it. */
  ghost predicate Named(ops: seq<Op>, p: nat) {
    exists i :: 0 <= i < |ops| && NamedBy(ops[i], p)
  }

  predicate NamedBy(op: Op, p: nat) {
    match op
    case Exit(next) => p == next
    case Switch(next) => p == next
    case Report(parent, _, _, _) => p == parent
    case _ => false
  }

  /** All spaces at one moment. */
  datatype Moment = Moment(trees: Trees, spaces: Table, current: nat, pool: set<nat>)

  ghost predicate StepOf(a: Moment, op: Op, b: Moment) {
    && Confines(Actor(op, a.current), a.trees, b.trees, a.spaces, b.spaces, a.pool, b.pool)
    && (b.current == a.current || NamedBy(op, b.current))
  }

  class Tasks {
    const ram: Ram
    var spaces: Table
    var current: nat
    ghost var trees: Trees

    ghost predicate Valid()
      reads this, ram
    {
      ram.Valid() && current in spaces && Separate(trees, spaces, ram.mem, ram.Pool())
    }

    /** The first task, with the space that was loaded for it. */
    constructor (ram: Ram, pid: nat, root: nat, ghost t: Node)
      requires Holds(ram, t) && t.page == root && Good(t, MMAP_BASE)
      ensures Valid() && this.ram == ram && current == pid && trees == map[pid := t]
      ensures spaces == map[pid := Space(root, MMAP_BASE)]
    {
      this.ram := ram;
      current, trees, spaces := pid, map[pid := t], map[pid := Space(root, MMAP_BASE)];
    }

    method MapMemory(length: nat, readable: bool, write: bool, unknown: bool) returns (result: Outcome)
      requires Valid() && length <= UINT64_MAX
      modifies this, ram
      ensures Valid() && current == old(current) && trees.Keys == old(trees.Keys)
      ensures Confines(current, old(trees), trees, old(spaces), spaces, old(ram.Pool()), ram.Pool())
      ensures var size := PageAlign(length);
              var n, t, s := old(trees)[current], trees[current], old(spaces)[current];
              if result.Done? then result.base == s.next && spaces[current] == s.(next := s.next + size)
                                   && FreshRun(n, t, s.next / 4096, 0, size / 4096, write, old(ram.Pool()))
              else spaces == old(spaces) && FreshRun(n, t, 0, 0, 0, write, {})
      ensures result.InvalidArgument? <==> length == 0 || unknown || !readable
      ensures result.NoMemory? ==>
                var size, base := PageAlign(length), PageAlign(old(spaces)[current].next);
                size == 0 || base < MMAP_BASE || size > MMAP_END - base || |old(ram.Pool())| < 4 * (size / 4096)
    {
      hide Ram.Valid, Ram.Pool, Sound, Pages, Good, Opens, Owns, Owned, Separate, FreshRun, Conserved, Confined,
           WindowClear, NothingAbove;
      var s := spaces[current];
      Usable(ram, trees, spaces, current);
      ghost var n, mem0, pool0 := trees[current], ram.mem, ram.Pool();
      var next';
      ghost var t;
      result, next', t := HandleMap(ram, s.root, s.next, length, readable, write, unknown, n);
      ConservedSum(n, t, pool0, ram.Pool());
      if result.Done? {
        GoodMapped(n, t, s.next, next', s.next / 4096, 0, PageAlign(length) / 4096, write, pool0);
      } else {
        GoodMapped(n, t, s.next, next', 0, 0, 0, write, {});
      }
      Holder(ram, t, s.(next := next'));
      StepKeeps(trees, spaces, mem0, pool0, current, t, s.(next := next'), ram.mem, ram.Pool());
      trees, spaces := trees[current := t], spaces[current := s.(next := next')];
    }

    method UnmapMemory(address: nat, length: nat) returns (result: Outcome)
      requires Valid() && length <= UINT64_MAX && address <= UINT64_MAX
      modifies this, ram
      ensures Valid() && current == old(current) && spaces == old(spaces)
      ensures Confines(current, old(trees), trees, old(spaces), spaces, old(ram.Pool()), ram.Pool())
      ensures !result.Done? ==> trees == old(trees)
      ensures var n, lo, hi := old(trees)[current], Landing(address), Landing(address) + PageAlign(length) / 4096;
              && (result.Done? <==> Admits(address, length) && AllUserMapped(n, lo, hi))
              && (result.Done? ==> UnmappedRun(n, trees[current], lo, hi))
    {
      hide Ram.Valid, Ram.Pool, Sound, Pages, Good, Opens, Owns, Owned, Separate, UnmappedRun, Confined,
           WindowClear, NothingAbove, AllUserMapped;
      var s := spaces[current];
      Usable(ram, trees, spaces, current);
      ghost var n, mem0, pool0 := trees[current], ram.mem, ram.Pool();
      ghost var t;
      result, t := HandleUnmap(ram, s.root, s.next, address, length, n);
      if result.Done? {
        GoodUnmapped(n, t, s.next, Landing(address), Landing(address) + PageAlign(length) / 4096);
      }
      Holder(ram, t, s);
      StepKeeps(trees, spaces, mem0, pool0, current, t, s, ram.mem, ram.Pool());
      assert trees[current := n] == trees && spaces[current := s] == spaces;
      trees := trees[current := t];
    }

    /** A store by task `p`, or by the kernel for it, through the tables of its space. */
    method StoreWord(p: nat, v: nat, index: nat, w: Word) returns (ok: bool)
      requires Valid() && p in spaces && index < PAGE_WORDS
      modifies this, ram
      ensures Valid() && current == old(current) && spaces == old(spaces) && trees.Keys == old(trees.Keys)
      ensures Confines(p, old(trees), trees, old(spaces), spaces, old(ram.Pool()), ram.Pool())
      ensures ok <==> v < USER_PAGES && UserMapped(old(trees)[p], v)
      ensures !ok ==> trees == old(trees)
      ensures ok ==> var m := Find(old(trees)[p], Path(v));
                     index < |m.data|
                     && OnlyAt(old(trees)[p], trees[p], v, m.(data := m.data[index := w]))
    {
      hide Ram.Valid, Ram.Pool, Sound, Pages, Good, Opens, Owns, Owned, Separate, Find, Path, Confined, OnlyAt;
      var s := spaces[p];
      Usable(ram, trees, spaces, p);
      ghost var n, mem0, pool0 := trees[p], ram.mem, ram.Pool();
      if v >= USER_PAGES {
        return false;
      }
      var frame := UserPhys(ram, s.root, v, n);
      if frame == 0 {
        SameKeeps(trees, spaces, mem0, pool0, ram.mem) by { Spaces.SameUntouched(mem0, pool0); }
        return false;
      }
      SizedRam(ram);
      StoreEffect(n, mem0, pool0, v, index, w);
      ram.Write(frame, index, w);
      ghost var t := ByteView.Refill(n, ram.mem);
      GoodStored(n, t, s.next, v, ram.mem[frame]);
      StoreConfined(n, mem0, pool0, frame, index, w);
      Holder(ram, t, s);
      StepKeeps(trees, spaces, mem0, pool0, p, t, s, ram.mem, ram.Pool());
      assert spaces[p := s] == spaces;
      trees := trees[p := t];
      ok := true;
    }

    /** The child sees the pages of the parent with the same permissions and bytes. */
    method ForkSpace(child: nat, fds: bool) returns (ok: bool)
      requires Valid() && child !in spaces
      modifies this, ram
      ensures Valid() && current == old(current)
      ensures Confines(child, old(trees), trees, old(spaces), spaces, old(ram.Pool()), ram.Pool())
      ensures ok <==> fds && Spaces.Enough(old(ram.Pool()), old(trees)[current])
      ensures if ok then trees.Keys == old(trees.Keys) + {child} else trees == old(trees) && spaces == old(spaces)
      ensures ok ==> spaces[child].next == old(spaces)[current].next
      ensures ok ==> forall v: nat :: v < USER_PAGES ==>
                       Spaces.AlikeMapping(Find(old(trees)[current], Path(v)), Find(trees[child], Path(v)))
    {
      hide Ram.Valid, Ram.Pool, Sound, Pages, Good, Opens, Owns, Owned, Separate, Untouched, Find, Path,
           Spaces.RootCopy, Spaces.Enough;
      var s := spaces[current];
      Usable(ram, trees, spaces, current);
      ghost var n, mem0, pool0 := trees[current], ram.mem, ram.Pool();
      var root;
      ghost var t;
      root, t := CloneFor(ram, s.root, s, fds, n);
      if root == 0 {
        SameKeeps(trees, spaces, mem0, pool0, ram.mem);
        return false;
      }
      AddKeeps(trees, spaces, mem0, pool0, child, t, Space(root, s.next), ram.mem, ram.Pool());
      ghost var kernel :| Spaces.RootCopy(n, t, kernel);
      forall v: nat | v < USER_PAGES ensures Spaces.AlikeMapping(Find(n, Path(v)), Find(t, Path(v))) {
        Spaces.CloneSameMap(n, t, kernel, v);
      }
      trees, spaces := trees[child := t], spaces[child := Space(root, s.next)];
      ok := true;
    }

    /** `task_exec`: the new space is switched to before the old one is destroyed. */
    method ExecTask(image: seq<Bytes.Byte>, segments: seq<UserImage.Segment>, fits: bool) returns (ok: bool)
      requires Valid()
      modifies this, ram
      ensures Valid() && current == old(current) && trees.Keys == old(trees.Keys)
      ensures Confines(current, old(trees), trees, old(spaces), spaces, old(ram.Pool()), ram.Pool())
      ensures !ok ==> trees == old(trees) && spaces == old(spaces)
      ensures ok ==> Exec.Domain(trees[current], segments, |segments|, true) && spaces[current].next == MMAP_BASE
      ensures ok ==> fits && !UserImage.Malformed(image, segments)
      ensures ok ==> Exec.Perms(trees[current], segments, |segments|)
      ensures !ok ==> UserImage.Malformed(image, segments) || !fits
                      || |old(ram.Pool())| < 1 + Exec.Need(segments, |segments|) + 64
    {
      hide Ram.Valid, Ram.Pool, Sound, Pages, Good, Opens, Owns, Owned, Separate, Untouched, Exec.Domain,
           Exec.Perms, UserImage.Malformed, Confined;
      var s := spaces[current];
      Usable(ram, trees, spaces, current);
      ghost var n, mem0, pool0 := trees[current], ram.mem, ram.Pool();
      OwnsApart(n, s, mem0, pool0);
      var root;
      ghost var t;
      root, t := Exec.ExecSpace(ram, s.root, image, segments, fits);
      ghost var mem1, pool1 := ram.mem, ram.Pool();
      if root == 0 {
        SameKeeps(trees, spaces, mem0, pool0, ram.mem);
        return false;
      }
      var s' := Space(root, MMAP_BASE);
      GoodFrom(t, MMAP_BASE);
      Holder(ram, t, s');
      PoolStays(n, s, mem0, mem1, pool0, pool1);
      OwnsApart(t, s', mem1, pool1);
      OwnsApart(n, s, mem1, pool1);
      Spaces.SpaceDestroy(ram, root, s.root, n);
      ExecKeeps(n, s, t, s', mem0, mem1, ram.mem, pool0, pool1);
      StepKeeps(trees, spaces, mem0, pool0, current, t, s', ram.mem, ram.Pool());
      trees, spaces := trees[current := t], spaces[current := s'];
      ok := true;
    }

    /** The space part of `task_exit`, after the switch to `next`. */
    method ExitTask(next: nat)
      requires Valid() && next in spaces && next != current
      modifies this, ram
      ensures Valid() && current == next && trees.Keys == old(trees.Keys) - {old(current)}
      ensures Confines(old(current), old(trees), trees, old(spaces), spaces, old(ram.Pool()), ram.Pool())
      ensures ram.Pool() == old(ram.Pool()) + Pages(old(trees[current]))
    {
      hide Ram.Valid, Ram.Pool, Sound, Pages, Good, Opens, Owns, Owned, Separate, Untouched;
      var s := spaces[current];
      Usable(ram, trees, spaces, current);
      ghost var n, mem0, pool0 := trees[current], ram.mem, ram.Pool();
      OwnsApart(n, s, mem0, pool0);
      Usable(ram, trees, spaces, next);
      OwnsApart(trees[next], spaces[next], mem0, pool0);
      NextApart(trees, spaces, mem0, pool0, current, next);
      Spaces.SpaceDestroy(ram, spaces[next].root, s.root, n);
      RemoveKeeps(trees, spaces, mem0, pool0, current, ram.mem);
      trees, spaces, current := trees - {current}, spaces - {current}, next;
    }

    /** One call.  A call for a task that does not exist, or a fork to a pid in use, is none. */
    method Serve(op: Op)
      requires Valid() && OpOk(op)
      modifies this, ram
      ensures Valid() && (current == old(current) || NamedBy(op, current))
      ensures Confines(Actor(op, old(current)), old(trees), trees, old(spaces), spaces, old(ram.Pool()), ram.Pool())
    {
      hide Ram.Valid, Ram.Pool, Separate, Owned, Find, Path, FreshRun, UnmappedRun, OnlyAt, UserMapped, Spaces.Enough,
           Exec.Domain, Exec.Perms, Spaces.AlikeMapping;
      match op
      case Map(length, readable, write, unknown) =>
        var result := MapMemory(length, readable, write, unknown);
      case Unmap(address, length) =>
        var result := UnmapMemory(address, length);
      case Store(page, index, word) =>
        var ok := StoreWord(current, page, index, word);
      case Fork(child, fds) =>
        if child !in spaces {
          Known(trees, spaces, ram.mem, ram.Pool());
          var ok := ForkSpace(child, fds);
        }
      case Exec(image, segments, fits) =>
        var ok := ExecTask(image, segments, fits);
      case Exit(next) =>
        if next in spaces && next != current {
          ExitTask(next);
        }
      case Switch(next) =>
        if next in spaces {
          current := next;
        }
      case Report(parent, page, index, word) =>
        if parent in spaces {
          var ok := StoreWord(parent, page, index, word);
        }
    }

    ghost function Now(): Moment
      reads this, ram
    {
      Moment(trees, spaces, current, ram.Pool())
    }

    /** Every sequence of calls keeps all spaces whole and apart and loses no page.  Each call changes at most
        the space of the task it is for, so a task that never runs and is sent no report keeps every mapping
        and every byte. */
    method ServeAll(ops: seq<Op>) returns (ghost history: seq<Moment>)
      requires Valid() && forall i :: 0 <= i < |ops| ==> OpOk(ops[i])
      modifies this, ram
      ensures Valid() && |history| == |ops| + 1 && history[0] == old(Now()) && history[|ops|] == Now()
      ensures forall t :: 0 <= t < |ops| ==> StepOf(history[t], ops[t], history[t + 1])
      ensures Owned(trees) + ram.Pool() == Owned(old(trees)) + old(ram.Pool())
      ensures forall p :: p in old(trees) && p in old(spaces) && p != old(current) && !Named(ops, p) ==>
                p in trees && p in spaces && trees[p] == old(trees)[p] && spaces[p] == old(spaces)[p]
    {
      hide Ram.Valid, Ram.Pool, Separate, Owned, OpOk, NamedBy;
      history := [Now()];
      var i := 0;
      while i < |ops|
        invariant 0 <= i <= |ops| && Valid()
        invariant |history| == i + 1 && history[0] == old(Now()) && history[i] == Now()
        invariant forall t :: 0 <= t < i ==> StepOf(history[t], ops[t], history[t + 1])
        invariant Owned(trees) + ram.Pool() == Owned(old(trees)) + old(ram.Pool())
        invariant current == old(current) || Named(ops, current)
        invariant forall p :: p in old(trees) && p in old(spaces) && p != old(current) && !Named(ops, p) ==>
                    p in trees && p in spaces && trees[p] == old(trees)[p] && spaces[p] == old(spaces)[p]
      {
        ActorNamed(ops, i, current);
        Serve(ops[i]);
        history := history + [Now()];
        i := i + 1;
      }
    }
  }

  lemma Known(trees: Trees, spaces: Table, mem: map<nat, Page>, pool: set<nat>)
    requires Separate(trees, spaces, mem, pool)
    ensures trees.Keys == spaces.Keys
  {
  }

  lemma ActorNamed(ops: seq<Op>, i: nat, current: nat)
    requires i < |ops|
    ensures Actor(ops[i], current) == current || Named(ops, Actor(ops[i], current))
    ensures forall p :: NamedBy(ops[i], p) ==> Named(ops, p)
  {
    assert ops[i].Report? ==> NamedBy(ops[i], ops[i].parent);
  }
}

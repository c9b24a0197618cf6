/**
 The map and unmap system calls of kernel/syscall.c, on top of the page tables.
 `next` is the task's mmap_next, in bytes.
 */
module Mmap {
  import opened Ram
  import opened PageTree
  import opened PageTables
  import Spaces

  const UINT64_MAX: nat := 0xffff_ffff_ffff_ffff
  const MMAP_BASE: nat := 0x1_0000_0000
  const MMAP_END: nat := 0x1_4000_0000
  const END_PAGE: nat := 0x14_0000

  datatype Outcome = InvalidArgument | NoMemory | Done(base: nat)

  /** Rounds up to a page; 0 when that would overflow. */
  function PageAlign(value: nat): (r: nat)
    ensures r % 4096 == 0
    ensures value <= UINT64_MAX - 4095 ==> value <= r < value + 4096
    ensures value % 4096 == 0 && value <= UINT64_MAX - 4095 ==> r == value
    ensures value > UINT64_MAX - 4095 ==> r == 0
  {
    if value > UINT64_MAX - 4095 then 0 else (value + 4095) / 4096 * 4096
  }

  /** Nothing at or above mmap_next is mapped in the window. */
  ghost predicate WindowClear(n: Node, next: nat) {
    && MMAP_BASE <= next <= MMAP_END && next % 4096 == 0
    && (forall v: nat :: next / 4096 <= v < END_PAGE ==> Find(n, Path(v)) == Unmapped)
  }

  /** Nothing above the window is mapped. */
  ghost predicate NothingAbove(n: Node) {
    forall v: nat :: END_PAGE <= v < USER_PAGES ==> Find(n, Path(v)) == Unmapped
  }

  /** A page of a fresh anonymous mapping. */
  ghost predicate FreshPage(m: Mapping, write: bool, pool: set<nat>) {
    m.Mapped? && m.write == write && m.user && m.data == ZeroPage() && m.page in pool
  }

  /** `t` maps pages [first, first + k) freshly and everything else as `n`. */
  ghost predicate FreshRun(n: Node, t: Node, first: nat, lo: nat, hi: nat, write: bool, pool: set<nat>) {
    forall w: nat :: w < USER_PAGES ==>
      if first + lo <= w < first + hi then FreshPage(Find(t, Path(w)), write, pool)
      else Find(t, Path(w)) == Find(n, Path(w))
  }

  /** No page appears or disappears between the tree and the pool. */
  ghost predicate Conserved(n: Node, t: Node, pool: set<nat>, pool': set<nat>) {
    Pages(n) <= Pages(t) && Pages(t) !! pool' && Pages(t) + pool' == Pages(n) + pool
  }

  /** Only pages of the space and of the pool may have changed. */
  ghost predicate Confined(n: Node, mem: map<nat, Page>, mem': map<nat, Page>, pool: set<nat>) {
    Untouched(mem, mem', Pages(n) + pool)
  }

  lemma ConfinedNone(n: Node, mem: map<nat, Page>, pool: set<nat>)
    ensures Confined(n, mem, mem, pool)
  {
  }

  lemma ConfinedBy(n: Node, mem: map<nat, Page>, mem': map<nat, Page>, pool: set<nat>, pages: set<nat>)
    requires Untouched(mem, mem', pages) && pages <= Pages(n) + pool
    ensures Confined(n, mem, mem', pool)
  {
  }

  /** Two steps that keep the pages of space and pool together. */
  lemma ConfinedTrans(n: Node, a: Node, m0: map<nat, Page>, m1: map<nat, Page>, m2: map<nat, Page>, p0: set<nat>,
                      p1: set<nat>)
    requires Confined(n, m0, m1, p0) && Confined(a, m1, m2, p1) && Pages(a) + p1 == Pages(n) + p0
    ensures Confined(n, m0, m2, p0)
  {
  }

  lemma ConservedSum(n: Node, t: Node, pool: set<nat>, pool': set<nat>)
    requires Conserved(n, t, pool, pool')
    ensures Pages(t) + pool' == Pages(n) + pool
  {
  }

  lemma RunGrows(n: Node, a: Node, b: Node, first: nat, k: nat, write: bool, pool: set<nat>, m: Mapping)
    requires FreshRun(n, a, first, 0, k, write, pool) && OnlyAt(a, b, first + k, m) && FreshPage(m, write, pool)
    ensures FreshRun(n, b, first, 0, k + 1, write, pool)
  {
  }

  lemma RunShrinks(n: Node, a: Node, b: Node, first: nat, lo: nat, hi: nat, write: bool, pool: set<nat>)
    requires FreshRun(n, a, first, lo, hi, write, pool) && lo < hi && OnlyAt(a, b, first + lo, Unmapped)
    requires first + lo < USER_PAGES && Find(n, Path(first + lo)) == Unmapped
    ensures FreshRun(n, b, first, lo + 1, hi, write, pool)
  {
  }

  lemma RunSame(n: Node, a: Node, b: Node, first: nat, k: nat, write: bool, pool: set<nat>)
    requires FreshRun(n, a, first, 0, k, write, pool) && SameMap(a, b)
    ensures FreshRun(n, b, first, 0, k, write, pool)
  {
  }

  /** One round of the mapping loop: allocate, map, or undo the allocation. */
  method MapFresh(ram: Ram, root: nat, v: nat, write: bool, ghost n: Node) returns (ok: bool, ghost t: Node)
    requires Holds(ram, n) && n.page == root && v < USER_PAGES && Find(n, Path(v)) == Unmapped
    modifies ram
    ensures Holds(ram, t) && t.page == root && Conserved(n, t, old(ram.Pool()), ram.Pool())
    ensures ok ==> exists m :: FreshPage(m, write, old(ram.Pool())) && OnlyAt(n, t, v, m)
    ensures !ok ==> SameMap(n, t) && Few(old(ram.Pool()), 3)
    ensures ok ==> Spent(old(ram.Pool()), ram.Pool(), 4)
    ensures Confined(n, old(ram.mem), ram.mem, old(ram.Pool())) && Opens(n, t, true)
  {
    hide Spent, Few, Sound, Ram.Valid, Ram.Pool, Path, OnlyAt, SameMap, Pages, Find, Conserved, Untouched, Confined,
         Opens;
    OpensRefl(n, true);
    ghost var mem0, pool0 := ram.mem, ram.Pool();
    SoundFacts(n, ram.mem, ram.Pool());
    ConservedRefl(n, mem0, pool0);
    var phys := ram.AllocPage();
    if phys == 0 {
      SameMapRefl(n);
      ConfinedNone(n, mem0, pool0);
      NothingLeft(pool0);
      return false, n;
    }
    AllocKeeps(n, mem0, pool0, phys);
    ghost var mem1, pool1 := ram.mem, ram.Pool();
    ok, t := MapUser(ram, root, v, phys, write, n);
    ghost var mem2, pool2 := ram.mem, ram.Pool();
    OneMore(pool0, pool1, pool2, phys, if ok then 3 else 2);
    FreshConfined(n, t, mem0, mem1, mem2, pool0, phys);
    if ok {
      MapTook(Pages(n), Pages(t), pool0, pool1, pool2, phys);
      assert Conserved(n, t, pool0, pool2) by { TookConserved(n, t, pool0, pool2); }
      assert FreshPage(Mapped(phys, write, true, ZeroPage()), write, pool0);
    } else {
      MapLeft(Pages(n), Pages(t), pool0, pool1, phys);
      StillThere(mem1, mem2, Pages(n) + Pages(t) - {phys}, phys);
      UndoFresh(ram, phys, n, t, pool0);
      PageConfined(n, mem0, mem2, ram.mem, pool0, phys);
    }
  }

  /** Clearing a pool page and then mapping it. */
  lemma FreshConfined(n: Node, t: Node, mem: map<nat, Page>, mem1: map<nat, Page>, mem2: map<nat, Page>, pool: set<nat>,
                      page: nat)
    requires page in pool && page in mem && mem1 == mem[page := ZeroPage()]
    requires Untouched(mem1, mem2, Pages(n) + Pages(t) - {page}) && Pages(t) <= Pages(n) + pool
    ensures Confined(n, mem, mem2, pool)
  {
  }

  lemma PageConfined(n: Node, mem: map<nat, Page>, mem1: map<nat, Page>, mem2: map<nat, Page>, pool: set<nat>,
                     page: nat)
    requires Confined(n, mem, mem1, pool) && page in pool
    requires mem1.Keys == mem2.Keys && forall p :: p in mem1 && p != page ==> mem2[p] == mem1[p]
    ensures Confined(n, mem, mem2, pool)
  {
  }

  /** The frame that could not be mapped goes back. */
  method UndoFresh(ram: Ram, phys: nat, ghost n: Node, ghost t: Node, ghost pool0: set<nat>)
    requires Holds(ram, t) && ram.Pool() == {} && phys != 0 && phys in ram.mem && phys !in Pages(t)
    requires Pages(n) <= Pages(t) && Pages(t) + {phys} == Pages(n) + pool0
    modifies ram
    ensures Holds(ram, t) && Conserved(n, t, pool0, ram.Pool())
    ensures old(ram.mem).Keys == ram.mem.Keys && forall p :: p in ram.mem && p != phys ==> ram.mem[p] == old(ram.mem)[p]
  {
    hide Sound, Ram.Valid, Ram.Pool, Pages, Conserved;
    ghost var mem, pool := ram.mem, ram.Pool();
    ram.FreePage(phys);
    FreeOutside(t, mem, ram.mem, pool, phys);
    TookConserved(n, t, pool0, ram.Pool());
  }

  lemma StillThere(mem: map<nat, Page>, mem': map<nat, Page>, pages: set<nat>, p: nat)
    requires Untouched(mem, mem', pages) && p in mem
    ensures p in mem'
  {
  }

  lemma TookConserved(n: Node, t: Node, pool: set<nat>, pool': set<nat>)
    requires Pages(n) <= Pages(t) && Pages(t) !! pool' && Pages(t) + pool' == Pages(n) + pool
    ensures Conserved(n, t, pool, pool')
  {
  }

  lemma MapTook(n: set<nat>, t: set<nat>, pool0: set<nat>, pool1: set<nat>, pool2: set<nat>, page: nat)
    requires n !! pool0 && page in pool0 && pool1 == pool0 - {page} && pool2 == pool1 - t
    requires t == n + (pool1 - pool2) - {} + {page}
    ensures n <= t && t !! pool2 && t + pool2 == n + pool0
  {
  }

  lemma MapLeft(n: set<nat>, t: set<nat>, pool0: set<nat>, pool1: set<nat>, page: nat)
    requires n !! pool0 && page in pool0 && pool1 == pool0 - {page} && t == n + (pool1 - {}) - {} + {}
    ensures page !in t && n <= t && t !! {page} && t + {page} == n + pool0
  {
  }

  lemma SameMapRefl(n: Node)
    ensures SameMap(n, n)
  {
  }

  lemma SoundFacts(n: Node, mem: map<nat, Page>, pool: set<nat>)
    requires Sound(n, mem, pool)
    ensures Pages(n) !! pool && 0 !in Pages(n)
  {
  }

  /** All or nothing: a fresh zeroed region disjoint from every mapping, or the same mappings
      and the same mmap_next as before.  No page is lost either way. */
  method HandleMap(ram: Ram, root: nat, next: nat, length: nat, readable: bool, write: bool, unknown: bool,
                   ghost n: Node)
    returns (result: Outcome, next': nat, ghost t: Node)
    requires Holds(ram, n) && n.page == root && WindowClear(n, next) && length <= UINT64_MAX
    modifies ram
    ensures Holds(ram, t) && t.page == root && WindowClear(t, next') && (NothingAbove(n) ==> NothingAbove(t))
    ensures Conserved(n, t, old(ram.Pool()), ram.Pool()) && Opens(n, t, true)
    ensures Confined(n, old(ram.mem), ram.mem, old(ram.Pool()))
    ensures result.InvalidArgument? <==> length == 0 || unknown || !readable
    ensures result.NoMemory? ==>
              var size, base := PageAlign(length), PageAlign(next);
              size == 0 || base < MMAP_BASE || size > MMAP_END - base || |old(ram.Pool())| < 4 * (size / 4096)
    ensures !result.Done? ==> next' == next && FreshRun(n, t, 0, 0, 0, write, {})
    ensures result.Done? ==> result.base == next && next' == next + PageAlign(length) && PageAlign(length) >= length
    ensures result.Done? ==> FreshRun(n, t, next / 4096, 0, PageAlign(length) / 4096, write, old(ram.Pool()))
  {
    hide Sound, Ram.Valid, Ram.Pool, Path, SameMap, Pages, FreshPage, Find, Conserved, Confined, Opens;
    t, next' := n, next;
    OpensRefl(n, true);
    ghost var mem0, pool0 := ram.mem, ram.Pool();
    ConservedRefl(n, ram.mem, ram.Pool());
    ConfinedNone(n, mem0, pool0);
    if length == 0 || unknown || !readable {
      return InvalidArgument, next, n;
    }
    var size := PageAlign(length);
    var base := PageAlign(next);
    if size == 0 || base < MMAP_BASE || size > MMAP_END - base {
      return NoMemory, next, n;
    }
    var first, count := base / 4096, size / 4096;
    assert first + count <= END_PAGE;
    var mapped;
    mapped, t := MapRun(ram, root, first, count, write, n);
    if mapped != count {
      TooFew(old(ram.Pool()), 4 * count);
      ghost var a, mem1, pool1 := t, ram.mem, ram.Pool();
      ConservedSum(n, a, pool0, pool1);
      t := Rollback(ram, root, first, mapped, write, n, t, old(ram.Pool()));
      ConfinedTrans(n, a, mem0, mem1, ram.mem, pool0, pool1);
      OpensTrans(n, a, t, true);
      return NoMemory, next, t;
    }
    return Done(base), base + size, t;
  }

  lemma NothingLeft(pool: set<nat>)
    requires pool == {}
    ensures Few(pool, 3)
  {
  }

  lemma OneMore(pool0: set<nat>, pool1: set<nat>, pool2: set<nat>, page: nat, k: nat)
    requires pool1 == pool0 - {page} && Spent(pool1, pool2, k)
    ensures Spent(pool0, pool2, k + 1)
    ensures pool2 == {} && k == 2 ==> Few(pool0, 3)
  {
    SpentOne(pool0, page);
  }

  lemma RanOut(pool0: set<nat>, pool1: set<nat>, k: nat, n: nat)
    requires Spent(pool0, pool1, k) && Few(pool1, 3) && k + 3 <= n
    ensures Few(pool0, n)
  {
  }

  lemma TooFew(pool: set<nat>, n: nat)
    requires n > 0 && Few(pool, n - 1)
    ensures |pool| < n
  {
  }

  lemma ConservedRefl(n: Node, mem: map<nat, Page>, pool: set<nat>)
    requires Sound(n, mem, pool)
    ensures Conserved(n, n, pool, pool) && Pages(n) !! pool
  {
  }

  /** The mapping loop: fresh pages from `first` on, until `count` are mapped or memory runs out. */
  method MapRun(ram: Ram, root: nat, first: nat, count: nat, write: bool, ghost n: Node)
    returns (mapped: nat, ghost t: Node)
    requires Holds(ram, n) && n.page == root && first + count <= USER_PAGES
    requires forall v: nat :: first <= v < first + count ==> Find(n, Path(v)) == Unmapped
    modifies ram
    ensures mapped <= count && Holds(ram, t) && t.page == root
    ensures FreshRun(n, t, first, 0, mapped, write, old(ram.Pool())) && Conserved(n, t, old(ram.Pool()), ram.Pool())
    ensures mapped < count ==> Few(old(ram.Pool()), 4 * count - 1)
    ensures Confined(n, old(ram.mem), ram.mem, old(ram.Pool())) && Opens(n, t, true)
  {
    hide Spent, Few, Sound, Ram.Valid, Ram.Pool, Path, SameMap, Pages, FreshPage, Find, Conserved, Confined, Opens;
    OpensRefl(n, true);
    t := n;
    ghost var mem0, pool0 := ram.mem, ram.Pool();
    ConfinedNone(n, mem0, pool0);
    ConservedRefl(n, ram.mem, pool0);
    SpentNone(pool0);
    mapped := 0;
    while mapped < count
      invariant mapped <= count && Holds(ram, t) && t.page == root
      invariant FreshRun(n, t, first, 0, mapped, write, pool0)
      invariant Conserved(n, t, pool0, ram.Pool())
      invariant Spent(pool0, ram.Pool(), 4 * mapped) && Confined(n, mem0, ram.mem, pool0) && Opens(n, t, true)
    {
      ghost var a, mem1, pool1 := t, ram.mem, ram.Pool();
      assert Find(t, Path(first + mapped)) == Unmapped;
      var ok;
      ok, t := MapFresh(ram, root, first + mapped, write, t);
      ConservedSum(n, a, pool0, pool1);
      ConfinedTrans(n, a, mem0, mem1, ram.mem, pool0, pool1);
      ConservedTrans(n, a, t, pool0, pool1, ram.Pool());
      OpensTrans(n, a, t, true);
      if !ok {
        RanOut(pool0, pool1, 4 * mapped, 4 * count - 1);
        RunSame(n, a, t, first, mapped, write, pool0);
        return;
      }
      SpentMore(pool0, pool1, ram.Pool(), 4 * mapped, 4, 4 * (mapped + 1));
      ghost var m :| FreshPage(m, write, pool1) && OnlyAt(a, t, first + mapped, m);
      FreshFrom(n, a, m, write, pool0, pool1);
      RunGrows(n, a, t, first, mapped, write, pool0, m);
      mapped := mapped + 1;
    }
  }

  lemma FreshFrom(n: Node, a: Node, m: Mapping, write: bool, pool0: set<nat>, pool1: set<nat>)
    requires Conserved(n, a, pool0, pool1) && FreshPage(m, write, pool1)
    ensures FreshPage(m, write, pool0)
  {
  }

  lemma ConservedTrans(a: Node, b: Node, c: Node, p0: set<nat>, p1: set<nat>, p2: set<nat>)
    requires Conserved(a, b, p0, p1) && Conserved(b, c, p1, p2)
    ensures Conserved(a, c, p0, p2)
  {
  }

  /** The undo loop of a failed map. */
  method Rollback(ram: Ram, root: nat, first: nat, mapped: nat, write: bool, ghost n: Node, ghost a: Node,
                  ghost pool0: set<nat>)
    returns (ghost t: Node)
    requires Holds(ram, a) && a.page == root && first + mapped <= USER_PAGES && Pages(n) !! pool0
    requires forall v: nat :: first <= v < first + mapped ==> Find(n, Path(v)) == Unmapped
    requires FreshRun(n, a, first, 0, mapped, write, pool0) && Conserved(n, a, pool0, ram.Pool())
    modifies ram
    ensures Holds(ram, t) && t.page == root && Conserved(n, t, pool0, ram.Pool())
    ensures FreshRun(n, t, 0, 0, 0, write, {})
    ensures Confined(a, old(ram.mem), ram.mem, old(ram.Pool())) && Opens(a, t, true)
  {
    hide Sound, Ram.Valid, Ram.Pool, Path, SameMap, Pages, Find, OnlyAt, Confined, Untouched, Opens;
    t := a;
    OpensRefl(a, true);
    ghost var mem0, pool1 := ram.mem, ram.Pool();
    ConfinedNone(a, mem0, pool1);
    var off := 0;
    while off < mapped
      invariant 0 <= off <= mapped && Holds(ram, t) && t.page == root
      invariant FreshRun(n, t, first, off, mapped, write, pool0)
      invariant Conserved(n, t, pool0, ram.Pool())
      invariant Confined(a, mem0, ram.mem, pool1) && Pages(t) + ram.Pool() == Pages(a) + pool1 && Opens(a, t, true)
    {
      ghost var b, mem2, pool2 := t, ram.mem, ram.Pool();
      assert FreshPage(Find(t, Path(first + off)), write, pool0);
      var ok;
      ok, t := UnmapUser(ram, root, first + off, t);
      RunShrinks(n, b, t, first, off, mapped, write, pool0);
      ConfinedBy(b, mem2, ram.mem, pool2, Pages(b));
      ConfinedTrans(a, b, mem0, mem2, ram.mem, pool1, pool2);
      OpensTrans(a, b, t, true);
      SoundFacts(t, ram.mem, ram.Pool());
      off := off + 1;
    }
  }

  const ALIASES: nat := 0x10_0000_0000  // virtual pages that have different paths

  /** A page walk looks at 36 bits of the page number. */
  lemma PathAlias(v: nat)
    ensures Path(v) == Path(v % ALIASES)
  {
    var q, r := v / 0x10_0000_0000, v % 0x10_0000_0000;
    SamePath(q, r);
    assert v == 0x10_0000_0000 * q + r;
  }

  lemma SamePath(q: nat, r: nat)
    ensures Path(0x10_0000_0000 * q + r) == Path(r)
  {
    TopField(q, r);
    ThirdField(q, r);
    SecondField(q, r);
    LastField(q, r);
  }

  lemma LastField(q: nat, r: nat)
    ensures (0x10_0000_0000 * q + r) % 512 == r % 512
  {
  }

  lemma TopField(q: nat, r: nat)
    ensures (0x10_0000_0000 * q + r) / 0x800_0000 % 512 == r / 0x800_0000 % 512
  {
    assert (0x10_0000_0000 * q + r) / 0x800_0000 == 512 * q + r / 0x800_0000;
  }

  lemma ThirdField(q: nat, r: nat)
    ensures (0x10_0000_0000 * q + r) / 0x4_0000 % 512 == r / 0x4_0000 % 512
  {
    assert (0x10_0000_0000 * q + r) / 0x4_0000 == 512 * (512 * q) + r / 0x4_0000;
  }

  lemma SecondField(q: nat, r: nat)
    ensures (0x10_0000_0000 * q + r) / 512 % 512 == r / 512 % 512
  {
    assert (0x10_0000_0000 * q + r) / 512 == 512 * (0x4_0000 * q) + r / 512;
  }

  /** 64-bit subtraction. */
  function Minus(a: nat, b: nat): nat
    requires a <= UINT64_MAX && b <= UINT64_MAX
  {
    if b <= a then a - b else a + UINT64_MAX + 1 - b
  }

  /** What the checks before the two loops let through. */
  predicate Admits(address: nat, length: nat)
    requires address <= UINT64_MAX && length <= UINT64_MAX
  {
    && length != 0 && address % 4096 == 0 && PageAlign(length) != 0
    && MMAP_BASE <= address && PageAlign(length) <= Minus(MMAP_END, address)
  }

  /** The page that a walk for `address` ends at. */
  function Landing(address: nat): nat {
    address / 4096 % ALIASES
  }

  /** Every page of the range must be mapped, and then all of them go, otherwise nothing changes.
      Addresses count by the page they land on; the kernel's half maps nothing for the user. */
  method HandleUnmap(ram: Ram, root: nat, next: nat, address: nat, length: nat, ghost n: Node)
    returns (result: Outcome, ghost t: Node)
    requires Holds(ram, n) && n.page == root && WindowClear(n, next) && length <= UINT64_MAX && address <= UINT64_MAX
    modifies ram
    ensures Holds(ram, t) && t.page == root && WindowClear(t, next) && (NothingAbove(n) ==> NothingAbove(t))
    ensures Pages(t) + ram.Pool() == Pages(n) + old(ram.Pool()) && Opens(n, t, true)
    ensures Confined(n, old(ram.mem), ram.mem, old(ram.Pool()))
    ensures !result.Done? ==> t == n && ram.mem == old(ram.mem) && ram.Pool() == old(ram.Pool())
    ensures result.Done? <==>
              Admits(address, length) && AllUserMapped(n, Landing(address), Landing(address) + PageAlign(length) / 4096)
    ensures result.Done? ==> UnmappedRun(n, t, Landing(address), Landing(address) + PageAlign(length) / 4096)
  {
    hide Sound, Ram.Valid, Ram.Pool, Path, SameMap, Pages, Find, OnlyAt, UserMapped, Confined, Opens;
    t := n;
    OpensRefl(n, true);
    ConfinedNone(n, ram.mem, ram.Pool());
    if length == 0 || address % 4096 != 0 {
      return InvalidArgument, n;
    }
    var size := PageAlign(length);
    if size == 0 || address < MMAP_BASE || size > Minus(MMAP_END, address) {
      return InvalidArgument, n;
    }
    var lo, count := Landing(address), size / 4096;
    var all := AllMapped(ram, root, lo, count, n);
    if !all {
      return InvalidArgument, n;
    }
    t := UnmapRun(ram, root, lo, lo + count, n);
    UnmappedStays(n, t, lo, lo + count, next);
    return Done(0), t;
  }

  /** A successful unmap stays inside the window if and only if the low 48 bits of the address are not
      below it.  For canonical user addresses they never are. */
  lemma UnmapConfinedIff(n: Node, address: nat, length: nat)
    requires address <= UINT64_MAX && length <= UINT64_MAX && NothingAbove(n)
    requires Admits(address, length) && AllUserMapped(n, Landing(address), Landing(address) + PageAlign(length) / 4096)
    ensures InWindow(Landing(address), Landing(address) + PageAlign(length) / 4096) <==>
              address % 0x1_0000_0000_0000 >= MMAP_BASE
    ensures address < 0x8000_0000_0000 ==> address % 0x1_0000_0000_0000 >= MMAP_BASE
  {
    hide Find, Path;
    var last := Landing(address) + PageAlign(length) / 4096 - 1;
    assert PageAlign(length) >= 4096;
    assert UserMapped(n, last);
    assert last < END_PAGE;
    LandingLow(address);
  }

  ghost predicate InWindow(lo: nat, hi: nat) {
    MMAP_BASE / 4096 <= lo && hi <= END_PAGE
  }

  lemma LandingLow(address: nat)
    requires address % 4096 == 0
    ensures Landing(address) * 4096 == address % 0x1_0000_0000_0000
  {
    var p := address / 4096;
    assert address == p * 4096;
    assert p == 0x10_0000_0000 * (p / 0x10_0000_0000) + p % 0x10_0000_0000;
    assert address == 0x1_0000_0000_0000 * (p / 0x10_0000_0000) + p % 0x10_0000_0000 * 4096;
  }

  /** Addresses 2^48 apart are the same to it, so an admitted call can reach any mapped page. */
  lemma UnmapReaches(n: Node, v: nat)
    requires v < USER_PAGES && UserMapped(n, v)
    ensures var address := 0x1_0000_0000_0000 + v * 4096;
            Admits(address, 4096) && Landing(address) == v && AllUserMapped(n, Landing(address), Landing(address) + 1)
  {
    hide Find, Path, UserMapped;
    var address := 0x1_0000_0000_0000 + v * 4096;
    assert address / 4096 == 0x10_0000_0000 + v && address % 4096 == 0;
    assert PageAlign(4096) == 4096;
    assert address < 0x2_0000_0000_0000;
    assert Minus(MMAP_END, address) >= 4096;
  }

  /** The first loop.  A page number past the user half lands in the kernel's. */
  method AllMapped(ram: Ram, root: nat, lo: nat, count: nat, ghost n: Node) returns (all: bool)
    requires Holds(ram, n) && n.page == root && lo < ALIASES
    modifies ram
    ensures Holds(ram, n) && ram.mem == old(ram.mem) && ram.Pool() == old(ram.Pool())
    ensures all <==> AllUserMapped(n, lo, lo + count)
  {
    hide Sound, Ram.Valid, Ram.Pool, Path, Find, UserMapped;
    var v := lo;
    while v < lo + count
      invariant lo <= v <= lo + count && (v <= USER_PAGES || v == lo)
      invariant Holds(ram, n) && ram.mem == old(ram.mem) && ram.Pool() == old(ram.Pool())
      invariant forall w: nat :: lo <= w < v ==> UserMapped(n, w)
      decreases lo + count - v
    {
      if v >= USER_PAGES {
        return false;
      }
      var frame := UserPhys(ram, root, v, n);
      if frame == 0 {
        assert !UserMapped(n, v) by { NotThere(n, v); }
        return false;
      }
      assert UserMapped(n, v) by { NotThere(n, v); }
      v := v + 1;
    }
    return true;
  }

  lemma NotThere(n: Node, v: nat)
    ensures UserMapped(n, v) <==> Find(n, Path(v)).Mapped? && Find(n, Path(v)).user
  {
  }

  ghost predicate AllUserMapped(n: Node, lo: nat, hi: nat) {
    (lo < hi ==> hi <= USER_PAGES) && forall v: nat :: lo <= v < hi ==> UserMapped(n, v)
  }

  lemma UnmappedStays(n: Node, t: Node, lo: nat, hi: nat, next: nat)
    requires UnmappedRun(n, t, lo, hi) && WindowClear(n, next)
    ensures WindowClear(t, next) && (NothingAbove(n) ==> NothingAbove(t))
  {
  }

  method UnmapRun(ram: Ram, root: nat, lo: nat, hi: nat, ghost n: Node) returns (ghost t: Node)
    requires Holds(ram, n) && n.page == root && lo <= hi <= USER_PAGES
    requires forall v: nat :: lo <= v < hi ==> UserMapped(n, v)
    modifies ram
    ensures Holds(ram, t) && t.page == root && UnmappedRun(n, t, lo, hi)
    ensures Pages(t) + ram.Pool() == Pages(n) + old(ram.Pool())
    ensures Confined(n, old(ram.mem), ram.mem, old(ram.Pool())) && Opens(n, t, true)
  {
    hide Sound, Ram.Valid, Ram.Pool, Path, SameMap, Pages, Find, OnlyAt, Confined, Untouched, Opens;
    t := n;
    OpensRefl(n, true);
    ghost var mem0, pool0 := ram.mem, ram.Pool();
    ConfinedNone(n, mem0, pool0);
    var v := lo;
    while v < hi
      invariant lo <= v <= hi && Holds(ram, t) && t.page == root && UnmappedRun(n, t, lo, v)
      invariant Pages(t) + ram.Pool() == Pages(n) + old(ram.Pool()) && Confined(n, mem0, ram.mem, pool0)
      invariant Opens(n, t, true)
    {
      ghost var a, mem1, pool1 := t, ram.mem, ram.Pool();
      assert UserMapped(n, v) && Find(t, Path(v)) == Find(n, Path(v));
      var ok;
      ok, t := UnmapUser(ram, root, v, t);
      UnmapGrows(n, a, t, lo, v);
      OpensTrans(n, a, t, true);
      ConfinedBy(a, mem1, ram.mem, pool1, Pages(a));
      ConfinedTrans(n, a, mem0, mem1, ram.mem, pool0, pool1);
      SoundFacts(t, ram.mem, ram.Pool());
      v := v + 1;
    }
  }

  ghost predicate UserMapped(n: Node, v: nat) {
    Find(n, Path(v)).Mapped? && Find(n, Path(v)).user
  }

  /** `t` maps nothing in [lo, hi) and everything else as `n`. */
  ghost predicate UnmappedRun(n: Node, t: Node, lo: nat, hi: nat) {
    forall w: nat :: w < USER_PAGES ==> Find(t, Path(w)) == if lo <= w < hi then Unmapped else Find(n, Path(w))
  }

  lemma UnmapGrows(n: Node, a: Node, b: Node, lo: nat, hi: nat)
    requires UnmappedRun(n, a, lo, hi) && OnlyAt(a, b, hi, Unmapped) && lo <= hi
    ensures UnmappedRun(n, b, lo, hi + 1)
  {
  }

  // ----- The window invariant across fork

  /** A fork copies mmap_next along with the mappings, so the child's window is clear too. */
  lemma ForkKeepsWindow(n: Node, t: Node, kernel: Page, next: nat)
    requires WindowClear(n, next) && Spaces.RootCopy(n, t, kernel)
    ensures WindowClear(t, next) && (NothingAbove(n) ==> NothingAbove(t))
  {
    forall v: nat | next / 4096 <= v < USER_PAGES && Find(n, Path(v)) == Unmapped ensures Find(t, Path(v)) == Unmapped {
      Spaces.CloneSameMap(n, t, kernel, v);
    }
  }
}

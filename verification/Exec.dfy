/**
 The address space of a new program, kernel/user.c over the page tables: every page it maps
 is a user page of a segment or of the stack, so nothing is mapped from the mmap window on,
 and a failed exec gives every page back.
 */
module Exec {
  import opened Ram
  import opened PageTree
  import opened PageTables
  import opened Mmap
  import Spaces
  import Frames
  import Bytes
  import UserMemory
  import UserImage

  const STACK_LOW: nat := 0x7_fff0   // first and last page of the stack
  const STACK_HIGH: nat := 0x8_0000

  /** Whatever is mapped in the user half is mapped for the user. */
  ghost predicate AllUser(n: Node) {
    forall v: nat :: v < USER_PAGES && Find(n, Path(v)).Mapped? ==> Find(n, Path(v)).user
  }

  /** Exactly the pages of the first `k` segments are mapped, and the stack's if `stack`. */
  ghost predicate Domain(n: Node, segments: seq<UserImage.Segment>, k: nat, stack: bool)
    requires k <= |segments|
  {
    forall v: nat {:trigger Find(n, Path(v))} :: v < USER_PAGES ==>
      (Find(n, Path(v)).Mapped? <==> UserImage.Covered(segments, k, v) || (stack && STACK_LOW <= v < STACK_HIGH))
  }

  ghost predicate SameDomain(n: Node, t: Node) {
    forall v: nat {:trigger Find(t, Path(v))} :: v < USER_PAGES ==>
      (Find(t, Path(v)).Mapped? <==> Find(n, Path(v)).Mapped?)
  }

  /** `t` maps what `n` maps, and besides only pages in [lo, hi), all writable. */
  ghost predicate MappedMore(n: Node, t: Node, lo: nat, hi: nat) {
    forall v: nat {:trigger Find(t, Path(v))} :: v < USER_PAGES ==>
      if Find(n, Path(v)).Mapped? || !(lo <= v < hi) then Find(t, Path(v)) == Find(n, Path(v))
      else Find(t, Path(v)).Mapped? ==> Find(t, Path(v)).write
  }

  /** Every mapped page has the permission of the last of the first `k` segments on it, and is writable without one. */
  ghost predicate Perms(n: Node, segments: seq<UserImage.Segment>, k: nat)
    requires k <= |segments|
  {
    forall v: nat {:trigger Find(n, Path(v))} :: v < USER_PAGES && Find(n, Path(v)).Mapped? ==>
      Find(n, Path(v)).write == UserImage.Writable(segments, k, v)
  }

  // ----- What keeps user pages user pages

  lemma FreshAllUser(root: nat, kernel: Page)
    requires |kernel| == PAGE_WORDS
    ensures AllUser(Spaces.FreshRoot(root, kernel))
    ensures forall v: nat :: v < USER_PAGES ==> Find(Spaces.FreshRoot(root, kernel), Path(v)) == Unmapped
  {
    forall v: nat | v < USER_PAGES ensures Find(Spaces.FreshRoot(root, kernel), Path(v)) == Unmapped {
      assert Path(v)[0] < 256;
    }
  }

  lemma EditAllUser(n: Node, t: Node, v: nat, m: Mapping)
    requires AllUser(n) && OnlyAt(n, t, v, m) && (m.Mapped? ==> m.user)
    ensures AllUser(t)
  {
    hide Path, Find;
  }

  lemma CopyAllUser(n: Node, t: Node, kernel: Page)
    requires AllUser(n) && Spaces.RootCopy(n, t, kernel)
    ensures AllUser(t)
  {
    forall v: nat | v < USER_PAGES && Find(t, Path(v)).Mapped? ensures Find(t, Path(v)).user {
      Spaces.CloneSameMap(n, t, kernel, v);
    }
  }

  // ----- The loader's effect on the window

  /** From the page list of a loaded space: the window is clear and so is everything above it. */
  lemma ExecClearsWindow(table: UserMemory.Table, t: Node, image: seq<Bytes.Byte>,
                         segments: seq<UserImage.Segment>)
    requires Frames.Lists(table, t) && AllUser(t) && !UserImage.Malformed(image, segments)
    requires forall p: nat :: p in table <==>
               UserImage.Covered(segments, |segments|, p)
                 || UserImage.STACK_BASE / 4096 <= p < UserImage.STACK_TOP / 4096
    ensures WindowClear(t, MMAP_BASE) && NothingAbove(t)
  {
    hide Path, Find;
    forall v: nat | MMAP_BASE / 4096 <= v < USER_PAGES ensures Find(t, Path(v)) == Unmapped {
      if Find(t, Path(v)).Mapped? {
        assert Frames.UserPage(t, v);
        assert v in table;
        CoveredLow(image, segments, v);
      }
    }
  }

  /** Segments lie below the end of the image. */
  lemma CoveredLow(image: seq<Bytes.Byte>, segments: seq<UserImage.Segment>, v: nat)
    requires !UserImage.Malformed(image, segments)
    ensures UserImage.Covered(segments, |segments|, v) ==> v < UserImage.IMAGE_END / 4096
  {
    if UserImage.Covered(segments, |segments|, v) {
      var i :| 0 <= i < |segments| && UserImage.Covers(segments[i], v);
      assert UserImage.InBounds(image, segments[i]);
    }
  }

  /** The same from the pages that are mapped. */
  lemma DomainClears(t: Node, image: seq<Bytes.Byte>, segments: seq<UserImage.Segment>)
    requires Domain(t, segments, |segments|, true) && !UserImage.Malformed(image, segments)
    ensures WindowClear(t, MMAP_BASE) && NothingAbove(t)
  {
    hide Path, Find;
    forall v: nat | MMAP_BASE / 4096 <= v < USER_PAGES ensures Find(t, Path(v)) == Unmapped {
      CoveredLow(image, segments, v);
      assert !Find(t, Path(v)).Mapped?;
    }
  }

  // ----- Building the space

  lemma MoreOne(n: Node, a: Node, b: Node, lo: nat, v: nat, hi: nat, m: Mapping)
    requires MappedMore(n, a, lo, hi) && lo <= v < hi && OnlyAt(a, b, v, m) && Find(a, Path(v)) == Unmapped
    requires v < USER_PAGES && (m.Mapped? ==> m.write)
    ensures MappedMore(n, b, lo, hi)
    ensures m.Mapped? ==> Find(b, Path(v)).Mapped?
    ensures forall w: nat :: w < USER_PAGES && Find(a, Path(w)).Mapped? ==> Find(b, Path(w)).Mapped?
  {
    hide Path, Find;
  }

  lemma MoreSame(n: Node, a: Node, b: Node, lo: nat, hi: nat)
    requires MappedMore(n, a, lo, hi) && SameMap(a, b) && AllUser(a)
    ensures MappedMore(n, b, lo, hi) && AllUser(b)
  {
    SameFinds(a, b);
    hide Path, Find, SameMap;
  }

  lemma SameFinds(a: Node, b: Node)
    requires SameMap(a, b)
    ensures forall v: nat {:trigger Find(b, Path(v))} :: v < USER_PAGES ==> Find(b, Path(v)) == Find(a, Path(v))
  {
  }

  /** The number of pages in [lo, hi). */
  function Span(lo: nat, hi: nat): (r: nat)
    ensures lo <= hi ==> lo + r == hi
    ensures lo > hi ==> r == 0
  {
    if lo < hi then hi - lo else 0
  }

  ghost predicate Lacks(pool: set<nat>, n: nat) {
    |pool| < n
  }

  lemma RanShort(pool0: set<nat>, pool1: set<nat>, k: nat, n: nat)
    requires Spent(pool0, pool1, k) && Few(pool1, 3) && k + 4 <= n
    ensures Lacks(pool0, n)
  {
  }

  /** `map_range` in pages: one frame and at most three tables a page. */
  method MapPages(ram: Ram, root: nat, lo: nat, hi: nat, ghost n: Node) returns (ok: bool, ghost t: Node)
    requires Holds(ram, n) && n.page == root && hi <= USER_PAGES && AllUser(n)
    modifies ram
    ensures Holds(ram, t) && t.page == root && Conserved(n, t, old(ram.Pool()), ram.Pool())
    ensures AllUser(t) && MappedMore(n, t, lo, hi)
    ensures ok ==> forall v: nat :: lo <= v < hi ==> Find(t, Path(v)).Mapped?
    ensures ok ==> Spent(old(ram.Pool()), ram.Pool(), 4 * Span(lo, hi))
    ensures !ok ==> Lacks(old(ram.Pool()), 4 * Span(lo, hi))
    ensures Confined(n, old(ram.mem), ram.mem, old(ram.Pool())) && Opens(n, t, true)
  {
    hide Sound, Ram.Valid, Ram.Pool, Path, OnlyAt, SameMap, Pages, Find, Conserved, AllUser, MappedMore, Spent, Few,
         Lacks, Confined, Opens;
    t := n;
    OpensRefl(n, true);
    ghost var mem0, pool0 := ram.mem, ram.Pool();
    ConservedRefl(n, ram.mem, pool0);
    ConfinedNone(n, mem0, pool0);
    SpentNone(pool0);
    MoreRefl(n, lo, hi);
    var v := lo;
    while v < hi
      invariant lo <= v && (v <= hi || v == lo)
      invariant Holds(ram, t) && t.page == root && Conserved(n, t, pool0, ram.Pool())
      invariant AllUser(t) && MappedMore(n, t, lo, hi)
      invariant forall w: nat :: lo <= w < v ==> Find(t, Path(w)).Mapped?
      invariant Spent(pool0, ram.Pool(), 4 * (v - lo)) && Confined(n, mem0, ram.mem, pool0) && Opens(n, t, true)
    {
      var frame := UserPhys(ram, root, v, t);
      ghost var spent := 4 * (v - lo);
      if frame == 0 {
        ghost var a, mem1, pool1 := t, ram.mem, ram.Pool();
        NotUserUnmapped(a, v);
        var mapped;
        mapped, t := MapFresh(ram, root, v, true, t);
        ConservedSum(n, a, pool0, pool1);
        ConfinedTrans(n, a, mem0, mem1, ram.mem, pool0, pool1);
        ConservedTrans(n, a, t, pool0, pool1, ram.Pool());
        OpensTrans(n, a, t, true);
        if !mapped {
          MoreSame(n, a, t, lo, hi);
          RanShort(pool0, pool1, spent, 4 * Span(lo, hi));
          return false, t;
        }
        ghost var m :| FreshPage(m, true, pool1) && OnlyAt(a, t, v, m);
        EditAllUser(a, t, v, m);
        MoreOne(n, a, t, lo, v, hi, m);
        SpentMore(pool0, pool1, ram.Pool(), spent, 4, spent + 4);
      } else {
        SpentNone(ram.Pool());
        SpentMore(pool0, ram.Pool(), ram.Pool(), spent, 0, spent + 4);
      }
      v := v + 1;
    }
    ok := true;
  }

  lemma MoreRefl(n: Node, lo: nat, hi: nat)
    ensures MappedMore(n, n, lo, hi)
  {
  }

  lemma NotUserUnmapped(n: Node, v: nat)
    requires AllUser(n) && v < USER_PAGES && !(Find(n, Path(v)).Mapped? && Find(n, Path(v)).user)
    ensures Find(n, Path(v)) == Unmapped
  {
  }

  /** `t` has the write bit set to `write` in [lo, hi) and is `n` otherwise. */
  ghost predicate Protected(n: Node, t: Node, lo: nat, hi: nat, write: bool) {
    forall v: nat {:trigger Find(t, Path(v))} :: v < USER_PAGES ==>
      Find(t, Path(v)) ==
      if lo <= v < hi && Find(n, Path(v)).Mapped? then Find(n, Path(v)).(write := write) else Find(n, Path(v))
  }

  lemma ProtectedOne(n: Node, a: Node, b: Node, lo: nat, v: nat, write: bool)
    requires Protected(n, a, lo, v, write) && lo <= v < USER_PAGES && Find(a, Path(v)).Mapped?
    requires OnlyAt(a, b, v, Find(a, Path(v)).(write := write))
    ensures Protected(n, b, lo, v + 1, write)
  {
    hide Path, Find;
  }

  lemma ProtectedFacts(n: Node, t: Node, lo: nat, hi: nat, write: bool)
    requires Protected(n, t, lo, hi, write) && AllUser(n)
    ensures AllUser(t) && SameDomain(n, t)
  {
    hide Path, Find;
  }

  lemma ProtectedNone(n: Node, lo: nat, write: bool)
    ensures Protected(n, n, lo, lo, write)
  {
  }

  /** The loop that gives the pages of one segment their permission. */
  method ProtectPages(ram: Ram, root: nat, lo: nat, hi: nat, write: bool, ghost n: Node)
    returns (ok: bool, ghost t: Node)
    requires Holds(ram, n) && n.page == root && lo <= hi <= USER_PAGES && AllUser(n)
    modifies ram
    ensures Holds(ram, t) && t.page == root && Pages(t) == Pages(n) && ram.Pool() == old(ram.Pool())
    ensures AllUser(t) && SameDomain(n, t)
    ensures ok <==> forall v: nat :: lo <= v < hi ==> Find(n, Path(v)).Mapped?
    ensures ok ==> Protected(n, t, lo, hi, write)
    ensures Confined(n, old(ram.mem), ram.mem, old(ram.Pool())) && Opens(n, t, true)
  {
    hide Sound, Ram.Valid, Ram.Pool, Path, OnlyAt, Pages, Find, AllUser, SameDomain, Protected, Untouched, Confined,
         Opens;
    t := n;
    OpensRefl(n, true);
    ghost var mem0, pool0 := ram.mem, ram.Pool();
    ConfinedNone(n, mem0, pool0);
    ProtectedNone(n, lo, write);
    ProtectedFacts(n, t, lo, lo, write);
    var v := lo;
    while v < hi
      invariant lo <= v <= hi && Holds(ram, t) && t.page == root && Pages(t) == Pages(n)
      invariant ram.Pool() == old(ram.Pool())
      invariant AllUser(t) && SameDomain(n, t) && Protected(n, t, lo, v, write)
      invariant forall w: nat :: lo <= w < v ==> Find(n, Path(w)).Mapped?
      invariant Confined(n, mem0, ram.mem, pool0) && Opens(n, t, true)
    {
      ghost var a, mem1 := t, ram.mem;
      ok, t := ProtectUser(ram, root, v, write, t);
      OpensTrans(n, a, t, true);
      ConfinedBy(a, mem1, ram.mem, pool0, Pages(a));
      ConfinedTrans(n, a, mem0, mem1, ram.mem, pool0, pool0);
      DomainAt(n, a, v);
      if !ok {
        NotUserUnmapped(a, v);
        return;
      }
      ProtectedOne(n, a, t, lo, v, write);
      ProtectedFacts(n, t, lo, v + 1, write);
      v := v + 1;
    }
    ok := true;
  }

  lemma DomainAt(n: Node, t: Node, v: nat)
    requires SameDomain(n, t) && v < USER_PAGES
    ensures Find(t, Path(v)).Mapped? <==> Find(n, Path(v)).Mapped?
  {
  }

  // ----- Domains

  lemma DomainMore(n: Node, t: Node, segments: seq<UserImage.Segment>, k: nat, lo: nat, hi: nat)
    requires k < |segments| && Domain(n, segments, k, false) && MappedMore(n, t, lo, hi)
    requires forall v: nat :: lo <= v < hi ==> Find(t, Path(v)).Mapped?
    requires forall v: nat :: UserImage.Covers(segments[k], v) <==> lo <= v < hi
    ensures Domain(t, segments, k + 1, false)
  {
    hide Path, Find, UserImage.Covers;
    UserImage.CoveredMore(segments, k);
  }

  lemma DomainSkip(n: Node, segments: seq<UserImage.Segment>, k: nat)
    requires k < |segments| && Domain(n, segments, k, false) && forall v: nat :: !UserImage.Covers(segments[k], v)
    ensures Domain(n, segments, k + 1, false)
  {
    hide Path, Find, UserImage.Covers;
    UserImage.CoveredMore(segments, k);
  }

  lemma DomainStack(n: Node, t: Node, segments: seq<UserImage.Segment>)
    requires Domain(n, segments, |segments|, false) && MappedMore(n, t, STACK_LOW, STACK_HIGH)
    requires forall v: nat :: STACK_LOW <= v < STACK_HIGH ==> Find(t, Path(v)).Mapped?
    ensures Domain(t, segments, |segments|, true)
  {
    hide Path, Find, UserImage.Covered;
  }

  lemma DomainSame(n: Node, t: Node, segments: seq<UserImage.Segment>)
    requires Domain(n, segments, |segments|, false) && SameDomain(n, t)
    ensures Domain(t, segments, |segments|, false)
  {
    hide Path, Find, UserImage.Covered;
  }

  lemma DomainNone(n: Node, segments: seq<UserImage.Segment>)
    requires forall v: nat :: v < USER_PAGES ==> Find(n, Path(v)) == Unmapped
    ensures Domain(n, segments, 0, false)
  {
    UserImage.CoveredNone(segments);
    hide Path, Find, UserImage.Covered;
  }

  // ----- Permissions

  lemma PermsNone(n: Node, segments: seq<UserImage.Segment>)
    requires forall v: nat :: v < USER_PAGES ==> Find(n, Path(v)) == Unmapped
    ensures Perms(n, segments, 0)
  {
    hide Path, Find;
  }

  /** More pages, all writable, where no segment says otherwise. */
  lemma PermsMore(n: Node, t: Node, segments: seq<UserImage.Segment>, k: nat, lo: nat, hi: nat)
    requires k <= |segments| && Perms(n, segments, k) && MappedMore(n, t, lo, hi)
    requires forall v: nat :: lo <= v < hi ==> UserImage.Writable(segments, k, v)
    ensures Perms(t, segments, k)
  {
    hide Path, Find, UserImage.Writable;
  }

  lemma PermsNext(n: Node, t: Node, segments: seq<UserImage.Segment>, k: nat, lo: nat, hi: nat)
    requires k < |segments| && Perms(n, segments, k) && Protected(n, t, lo, hi, segments[k].write)
    requires forall v: nat :: UserImage.Covers(segments[k], v) <==> lo <= v < hi
    ensures Perms(t, segments, k + 1)
  {
    hide Path, Find, UserImage.Covers;
    forall v: nat | v < USER_PAGES && Find(t, Path(v)).Mapped?
      ensures Find(t, Path(v)).write == UserImage.Writable(segments, k + 1, v)
    {
      assert UserImage.Writable(segments, k + 1, v) ==
             if UserImage.Covers(segments[k], v) then segments[k].write else UserImage.Writable(segments, k, v);
    }
  }

  lemma PermsSkip(n: Node, segments: seq<UserImage.Segment>, k: nat)
    requires k < |segments| && Perms(n, segments, k) && forall v: nat :: !UserImage.Covers(segments[k], v)
    ensures Perms(n, segments, k + 1)
  {
    hide Path, Find, UserImage.Covers;
    forall v: nat ensures UserImage.Writable(segments, k + 1, v) == UserImage.Writable(segments, k, v) {
    }
  }

  /** No segment is on the stack. */
  lemma StackFree(image: seq<Bytes.Byte>, segments: seq<UserImage.Segment>)
    requires !UserImage.Malformed(image, segments)
    ensures forall v: nat :: STACK_LOW <= v < STACK_HIGH ==> UserImage.Writable(segments, |segments|, v)
  {
    forall v: nat | STACK_LOW <= v < STACK_HIGH ensures UserImage.Writable(segments, |segments|, v) {
      CoveredLow(image, segments, v);
      UserImage.NotCovered(segments, |segments|, v);
    }
  }

  // ----- Exec

  lemma FreshSpace(root: nat, kernel: Page, mem: map<nat, Page>, mem': map<nat, Page>, pool: set<nat>, pool': set<nat>)
    requires |kernel| == PAGE_WORDS && RootShaped(Spaces.FreshRoot(root, kernel)) && root in pool
    requires Spaces.Grown(Spaces.FreshRoot(root, kernel), mem, mem', pool, pool')
    ensures var t := Spaces.FreshRoot(root, kernel);
            Sound(t, mem', pool') && t.page == root && Pages(t) + pool' == pool && Pages(t) !! pool'
            && pool' == pool - {root} && Untouched(mem, mem', Pages(t))
  {
    var t := Spaces.FreshRoot(root, kernel);
    assert UpTo(t.slots, |t.slots|) == {};
    assert Pages(t) == {root};
  }

  /** Gives up a space that could not be filled. */
  method Abandon(ram: Ram, active: nat, root: nat, ghost t: Node, ghost pool0: set<nat>)
    requires Holds(ram, t) && t.page == root && root != active && Pages(t) + ram.Pool() == pool0
    modifies ram
    ensures ram.Valid() && ram.Pool() == pool0
    ensures Confined(t, old(ram.mem), ram.mem, old(ram.Pool()))
  {
    hide Sound, Pages, Confined, Untouched;
    ghost var mem, pool := ram.mem, ram.Pool();
    Spaces.SpaceDestroy(ram, active, root, t);
    ConfinedBy(t, mem, ram.mem, pool, Pages(t));
  }

  lemma Balance(a: Node, t: Node, pool1: set<nat>, pool2: set<nat>, pool0: set<nat>)
    requires Conserved(a, t, pool1, pool2) && Pages(a) + pool1 == pool0
    ensures Pages(t) + pool2 == pool0
  {
  }

  lemma CoversRange(image: seq<Bytes.Byte>, s: UserImage.Segment)
    requires UserImage.InBounds(image, s)
    ensures s.vaddr / 4096 <= (s.vaddr + s.memsz + 4095) / 4096 <= USER_PAGES
    ensures s.load && s.memsz > 0 ==>
              forall v: nat :: UserImage.Covers(s, v) <==> s.vaddr / 4096 <= v < (s.vaddr + s.memsz + 4095) / 4096
    ensures !s.load || s.memsz == 0 ==> forall v: nat :: !UserImage.Covers(s, v)
  {
  }

  lemma NotLoadable(s: UserImage.Segment)
    requires !s.load || s.memsz == 0
    ensures forall v: nat :: !UserImage.Covers(s, v)
  {
  }

  /** Pages that are surely enough for the first `k` segments: a frame and three tables each. */
  function Need(segments: seq<UserImage.Segment>, k: nat): nat
    requires k <= |segments|
  {
    if k == 0 then 0 else Need(segments, k - 1) + NeedOne(segments[k - 1])
  }

  function NeedOne(s: UserImage.Segment): nat {
    if s.load && s.memsz > 0 then 4 * Span(s.vaddr / 4096, (s.vaddr + s.memsz + 4095) / 4096) else 0
  }

  /** Four pages for every page a segment may be on. */
  lemma NeedBound(s: UserImage.Segment)
    ensures NeedOne(s) <= 4 * (s.memsz / 4096 + 2)
  {
  }

  lemma {:induction false} NeedGrows(segments: seq<UserImage.Segment>, j: nat, k: nat)
    requires j <= k <= |segments|
    ensures Need(segments, j) <= Need(segments, k)
    decreases k
  {
    if j < k {
      NeedGrows(segments, j, k - 1);
    }
  }

  lemma LacksMore(pool0: set<nat>, pool1: set<nat>, j: nat, k: nat, n: nat)
    requires Spent(pool0, pool1, j) && Lacks(pool1, k) && j + k <= n
    ensures Lacks(pool0, n)
  {
  }

  /** The first loop over the program headers. */
  method MapSegments(ram: Ram, root: nat, image: seq<Bytes.Byte>, segments: seq<UserImage.Segment>, ghost n: Node)
    returns (ok: bool, ghost t: Node)
    requires Holds(ram, n) && n.page == root && AllUser(n) && Domain(n, segments, 0, false) && Perms(n, segments, 0)
    modifies ram
    ensures Holds(ram, t) && t.page == root && AllUser(t) && Pages(t) + ram.Pool() == Pages(n) + old(ram.Pool())
    ensures ok ==> Domain(t, segments, |segments|, false) && !UserImage.Malformed(image, segments)
    ensures Perms(t, segments, 0)
    ensures ok ==> Spent(old(ram.Pool()), ram.Pool(), Need(segments, |segments|))
    ensures !ok ==> UserImage.Malformed(image, segments) || Lacks(old(ram.Pool()), Need(segments, |segments|))
    ensures Confined(n, old(ram.mem), ram.mem, old(ram.Pool())) && Opens(n, t, true)
  {
    hide Sound, Ram.Valid, Ram.Pool, Path, Pages, Find, AllUser, Domain, Conserved, MappedMore, UserImage.Covers,
         UserImage.InBounds, Confined, Spent, Lacks, Opens, Perms;
    t := n;
    OpensRefl(n, true);
    ghost var mem0, start, pool0 := ram.mem, ram.Pool(), Pages(n) + ram.Pool();
    ConfinedNone(n, mem0, start);
    SpentNone(start);
    var i := 0;
    while i < |segments|
      invariant 0 <= i <= |segments| && Holds(ram, t) && t.page == root && AllUser(t) && Pages(t) + ram.Pool() == pool0
      invariant Domain(t, segments, i, false) && Perms(t, segments, 0)
      invariant forall j :: 0 <= j < i && segments[j].load ==> UserImage.InBounds(image, segments[j])
      invariant Spent(start, ram.Pool(), Need(segments, i)) && Confined(n, mem0, ram.mem, start) && Opens(n, t, true)
    {
      NeedGrows(segments, i + 1, |segments|);
      var s := segments[i];
      if s.load && !UserImage.InBounds(image, s) {
        return false, t;
      }
      if s.load && s.memsz > 0 {
        ghost var a, mem1, pool1 := t, ram.mem, ram.Pool();
        CoversRange(image, s);
        ok, t := MapPages(ram, root, s.vaddr / 4096, (s.vaddr + s.memsz + 4095) / 4096, t);
        Balance(a, t, pool1, ram.Pool(), pool0);
        ConfinedTrans(n, a, mem0, mem1, ram.mem, start, pool1);
        OpensTrans(n, a, t, true);
        PermsMore(a, t, segments, 0, s.vaddr / 4096, (s.vaddr + s.memsz + 4095) / 4096);
        if !ok {
          LacksMore(start, pool1, Need(segments, i), NeedOne(s), Need(segments, |segments|));
          return;
        }
        SpentMore(start, pool1, ram.Pool(), Need(segments, i), NeedOne(s), Need(segments, i + 1));
        DomainMore(a, t, segments, i, s.vaddr / 4096, (s.vaddr + s.memsz + 4095) / 4096);
      } else {
        NotLoadable(s);
        DomainSkip(t, segments, i);
      }
      i := i + 1;
    }
    ok := true;
  }

  /** The second loop: it cannot fail, since every page it meets was mapped by the first. */
  method ProtectSegments(ram: Ram, root: nat, image: seq<Bytes.Byte>, segments: seq<UserImage.Segment>,
                         ghost n: Node)
    returns (ok: bool, ghost t: Node)
    requires Holds(ram, n) && n.page == root && AllUser(n) && Domain(n, segments, |segments|, false)
    requires !UserImage.Malformed(image, segments) && Perms(n, segments, 0)
    modifies ram
    ensures Holds(ram, t) && t.page == root && AllUser(t) && Pages(t) == Pages(n) && ram.Pool() == old(ram.Pool())
    ensures ok && Domain(t, segments, |segments|, false) && Perms(t, segments, |segments|)
    ensures Confined(n, old(ram.mem), ram.mem, old(ram.Pool())) && Opens(n, t, true)
  {
    hide Sound, Ram.Valid, Ram.Pool, Path, Pages, Find, AllUser, Domain, UserImage.Covers, UserImage.InBounds,
         SameDomain, Protected, Confined, Opens, Perms;
    t, ok := n, true;
    OpensRefl(n, true);
    ghost var mem0, pool0 := ram.mem, ram.Pool();
    ConfinedNone(n, mem0, pool0);
    var i := 0;
    while i < |segments| && ok
      invariant ok && 0 <= i <= |segments| && Holds(ram, t) && t.page == root && AllUser(t)
      invariant Pages(t) == Pages(n) && ram.Pool() == old(ram.Pool()) && Domain(t, segments, |segments|, false)
      invariant Confined(n, mem0, ram.mem, pool0) && Opens(n, t, true) && Perms(t, segments, i)
    {
      var s := segments[i];
      if s.load && s.memsz > 0 {
        ghost var a, mem1 := t, ram.mem;
        CoversRange(image, s);
        DomainHas(a, segments, i);
        ok, t := ProtectPages(ram, root, s.vaddr / 4096, (s.vaddr + s.memsz + 4095) / 4096, s.write, t);
        DomainSame(a, t, segments);
        OpensTrans(n, a, t, true);
        ConfinedTrans(n, a, mem0, mem1, ram.mem, pool0, pool0);
        PermsNext(a, t, segments, i, s.vaddr / 4096, (s.vaddr + s.memsz + 4095) / 4096);
      } else {
        NotLoadable(s);
        PermsSkip(t, segments, i);
      }
      i := i + 1;
    }
  }

  lemma DomainHas(n: Node, segments: seq<UserImage.Segment>, i: nat)
    requires i < |segments| && Domain(n, segments, |segments|, false)
    ensures forall v: nat :: v < USER_PAGES && UserImage.Covers(segments[i], v) ==> Find(n, Path(v)).Mapped?
  {
    hide Path, Find, UserImage.Covers;
    forall v: nat | v < USER_PAGES && UserImage.Covers(segments[i], v) ensures Find(n, Path(v)).Mapped? {
      assert UserImage.Covered(segments, |segments|, v);
    }
  }

  /** The segments and then the stack. */
  method FillSpace(ram: Ram, root: nat, image: seq<Bytes.Byte>, segments: seq<UserImage.Segment>, ghost n: Node)
    returns (ok: bool, ghost t: Node)
    requires Holds(ram, n) && n.page == root && AllUser(n) && Domain(n, segments, 0, false) && Perms(n, segments, 0)
    modifies ram
    ensures Holds(ram, t) && t.page == root && AllUser(t) && Pages(t) + ram.Pool() == Pages(n) + old(ram.Pool())
    ensures ok ==> Perms(t, segments, |segments|)
    ensures ok ==> Domain(t, segments, |segments|, true) && !UserImage.Malformed(image, segments)
    ensures !ok ==> UserImage.Malformed(image, segments) || Lacks(old(ram.Pool()), Need(segments, |segments|) + 64)
    ensures Confined(n, old(ram.mem), ram.mem, old(ram.Pool())) && Opens(n, t, true)
  {
    hide Sound, Ram.Valid, Ram.Pool, Path, OnlyAt, Pages, Find, AllUser, Domain, Conserved, MappedMore,
         UserImage.Malformed, Confined, Spent, Lacks, Opens, Perms;
    ghost var mem0, pool0 := ram.mem, ram.Pool();
    ghost var need := Need(segments, |segments|);
    ok, t := MapSegments(ram, root, image, segments, n);
    if !ok {
      LacksWider(pool0, need, need + 64);
      return;
    }
    ghost var a, mem1, pool1 := t, ram.mem, ram.Pool();
    ok, t := ProtectSegments(ram, root, image, segments, t);
    ConfinedTrans(n, a, mem0, mem1, ram.mem, pool0, pool1);
    OpensTrans(n, a, t, true);
    ghost var b, mem2 := t, ram.mem;
    ok, t := MapPages(ram, root, STACK_LOW, STACK_HIGH, t);
    Balance(b, t, pool1, ram.Pool(), Pages(n) + pool0);
    ConfinedTrans(n, b, mem0, mem2, ram.mem, pool0, pool1);
    OpensTrans(n, b, t, true);
    if ok {
      DomainStack(b, t, segments);
      StackFree(image, segments);
      PermsMore(b, t, segments, |segments|, STACK_LOW, STACK_HIGH);
    } else {
      LacksMore(pool0, pool1, need, 64, need + 64);
    }
  }

  lemma LacksWider(pool: set<nat>, j: nat, k: nat)
    ensures Lacks(pool, j) && j <= k ==> Lacks(pool, k)
  {
  }

  /** Everything up to here happened in pages that were free before. */
  lemma FreshUntouched(t: Node, m0: map<nat, Page>, m1: map<nat, Page>, m2: map<nat, Page>, pool: set<nat>,
                       pool1: set<nat>)
    requires Untouched(m0, m1, Pages(t)) && Pages(t) + pool1 == pool && Confined(t, m1, m2, pool1)
    ensures Untouched(m0, m2, pool)
  {
  }

  lemma OneLess(pool0: set<nat>, root: nat, n: nat)
    requires root in pool0 && Lacks(pool0 - {root}, n)
    ensures |pool0| < 1 + n
  {
  }

  /**
   `user_exec` up to the switch: a fresh space with the pages of the segments and the stack,
   or nothing.  `fits` says that copying and building the stack succeeded.
   */
  method ExecSpace(ram: Ram, active: nat, image: seq<Bytes.Byte>, segments: seq<UserImage.Segment>, fits: bool)
    returns (root: nat, ghost t: Node)
    requires ram.Valid() && active in ram.mem && active !in ram.Pool()
    modifies ram
    ensures ram.Valid() && (root == 0 ==> ram.Pool() == old(ram.Pool()))
    ensures root != 0 ==> Holds(ram, t) && t.page == root && Pages(t) + ram.Pool() == old(ram.Pool())
    ensures root != 0 ==> AllUser(t) && Domain(t, segments, |segments|, true) && !UserImage.Malformed(image, segments)
    ensures root != 0 ==> Perms(t, segments, |segments|)
    ensures root != 0 ==> WindowClear(t, MMAP_BASE) && NothingAbove(t) && Open(t, true) && fits
    ensures root == 0 ==>
              || UserImage.Malformed(image, segments) || !fits
              || |old(ram.Pool())| < 1 + Need(segments, |segments|) + 4 * (STACK_HIGH - STACK_LOW)
    ensures Untouched(old(ram.mem), ram.mem, old(ram.Pool()))
  {
    hide Sound, Ram.Valid, Ram.Pool, Path, OnlyAt, Pages, Find, AllUser, SameDomain, Protected, Untouched, Domain,
         Conserved, MappedMore, RootShaped, UserImage.Malformed, WindowClear, NothingAbove, Spaces.Grown, Confined,
         Spent, Lacks, Open, Perms;
    ghost var mem0, pool0 := ram.mem, ram.Pool();
    root := Spaces.SpaceCreate(ram, active);
    ghost var kernel := old(ram.mem)[active];
    t := Spaces.FreshRoot(root, kernel);
    if root == 0 {
      Spaces.SameUntouched(mem0, pool0);
      return;
    }
    ghost var first, mem1, pool1 := t, ram.mem, ram.Pool();
    FreshSpace(root, kernel, mem0, mem1, pool0, pool1);
    FreshAllUser(root, kernel);
    Spaces.FreshOpen(root, kernel, true);
    DomainNone(t, segments);
    PermsNone(t, segments);
    var ok;
    ok, t := FillSpace(ram, root, image, segments, t);
    if !ok && !UserImage.Malformed(image, segments) {
      OneLess(pool0, root, Need(segments, |segments|) + 64);
    }
    if !ok || !fits {
      ghost var a, mem2, pool2 := t, ram.mem, ram.Pool();
      Abandon(ram, active, root, t, pool0);
      ConfinedTrans(first, a, mem1, mem2, ram.mem, pool1, pool2);
      FreshUntouched(first, mem0, mem1, ram.mem, pool0, pool1);
      return 0, t;
    }
    FreshUntouched(first, mem0, mem1, ram.mem, pool0, pool1);
    DomainClears(t, image, segments);
  }
}

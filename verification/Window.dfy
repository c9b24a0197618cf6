/**
 The large-allocation window of kernel/mm/heap.c, in pages.  `free` is the sorted
 list of free ranges; `taken`, `dropped` and `mapped` are sets of page numbers
 that say where every page of the window is.
 */
module Window {

  datatype Range = Range(base: nat, pages: nat)

  predicate Between(lo: nat, p: nat, hi: nat) {
    lo <= p < hi
  }

  ghost function Interval(lo: nat, hi: nat): set<nat> {
    set p: nat | lo <= p < hi && Between(lo, p, hi)
  }

  predicate Within(r: Range, p: nat) {
    r.base <= p < r.base + r.pages
  }

  ghost predicate InFree(free: seq<Range>, p: nat) {
    exists i :: 0 <= i < |free| && Within(free[i], p)
  }

  /** All pages of the free list. */
  ghost function FreePages(free: seq<Range>): set<nat> {
    if free == [] then {} else FreePages(free[1..]) + Interval(free[0].base, free[0].base + free[0].pages)
  }

  lemma {:induction false} FreeIff(free: seq<Range>, p: nat)
    ensures p in FreePages(free) <==> InFree(free, p)
  {
    if free != [] {
      FreeIff(free[1..], p);
      if InFree(free[1..], p) {
        var i :| 0 <= i < |free[1..]| && Within(free[1..][i], p);
        assert Within(free[i + 1], p);
      }
      if i :| 0 <= i < |free| && Within(free[i], p) {
        assert i > 0 ==> Within(free[1..][i - 1], p);
      }
    }
  }

  /** Ranges are non-empty, in order, and never touch: neighbours have been merged. */
  ghost predicate Coalesced(free: seq<Range>) {
    && (forall i :: 0 <= i < |free| ==> free[i].pages > 0)
    && (forall i, j :: 0 <= i < j < |free| ==> free[i].base + free[i].pages < free[j].base)
  }

  /** Every page of the window is in exactly one of the four. */
  ghost predicate Partition(base: nat, end: nat, next: nat, free: set<nat>, taken: set<nat>, dropped: set<nat>) {
    && base <= next <= end && free !! taken && free !! dropped && taken !! dropped
    && free + taken + dropped == Interval(base, next)
  }

  lemma TakePart(base: nat, end: nat, next: nat, free: set<nat>, taken: set<nat>, dropped: set<nat>, r: nat, pages: nat)
    requires Partition(base, end, next, free, taken, dropped) && Interval(r, r + pages) <= free && pages > 0
    ensures Partition(base, end, next, free - Interval(r, r + pages), taken + Interval(r, r + pages), dropped)
    ensures Interval(r, r + pages) !! taken && base <= r
  {
    assert r in Interval(r, r + pages);
    assert r in Interval(base, next);
  }

  lemma TailPart(base: nat, end: nat, next: nat, free: set<nat>, taken: set<nat>, dropped: set<nat>, pages: nat)
    requires Partition(base, end, next, free, taken, dropped) && next + pages <= end
    ensures Partition(base, end, next + pages, free, taken + Interval(next, next + pages), dropped)
    ensures Interval(next, next + pages) !! taken && base <= next
  {
    assert Interval(base, next + pages) == Interval(base, next) + Interval(next, next + pages);
    assert Interval(base, next) !! Interval(next, next + pages);
  }

  lemma GivePart(base: nat, end: nat, next: nat, free: set<nat>, taken: set<nat>, dropped: set<nat>, r: nat, pages: nat)
    requires Partition(base, end, next, free, taken, dropped) && Interval(r, r + pages) <= taken
    ensures Partition(base, end, next, free + Interval(r, r + pages), taken - Interval(r, r + pages), dropped)
    ensures Partition(base, end, next, free, taken - Interval(r, r + pages), dropped + Interval(r, r + pages))
    ensures Interval(r, r + pages) !! free
  {
  }

  /** A range of pages that nobody had was lost. */
  ghost predicate LostAt(taken: set<nat>, before: set<nat>, after: set<nat>, base: nat, pages: nat) {
    after == before + Interval(base, base + pages) && Interval(base, base + pages) !! taken
  }

  // ----- Edits of the list

  ghost predicate FirstFit(free: seq<Range>, i: nat, pages: nat) {
    i < |free| && free[i].pages >= pages && forall j :: 0 <= j < i ==> free[j].pages < pages
  }

  /** Taking `pages` from the front of range `i`. */
  function Carve(free: seq<Range>, i: nat, pages: nat): seq<Range>
    requires i < |free| && pages <= free[i].pages
  {
    if pages == free[i].pages then free[..i] + free[i + 1..]
    else free[i := Range(free[i].base + pages, free[i].pages - pages)]
  }

  lemma CarveCoalesced(free: seq<Range>, i: nat, pages: nat)
    requires Coalesced(free) && i < |free| && pages <= free[i].pages
    ensures Coalesced(Carve(free, i, pages))
  {
    var r := Carve(free, i, pages);
    if pages == free[i].pages {
      forall j, k | 0 <= j < k < |r| ensures r[j].base + r[j].pages < r[k].base {
        assert r[j] == free[if j < i then j else j + 1] && r[k] == free[if k < i then k else k + 1];
      }
    }
  }

  lemma CarvePage(free: seq<Range>, i: nat, pages: nat, p: nat)
    requires Coalesced(free) && i < |free| && 0 < pages <= free[i].pages
    ensures InFree(Carve(free, i, pages), p) <==> InFree(free, p) && !(free[i].base <= p < free[i].base + pages)
  {
    var r := Carve(free, i, pages);
    var whole := pages == free[i].pages;
    hide Coalesced;
    if k :| 0 <= k < |r| && Within(r[k], p) {
      var j := if whole && k >= i then k + 1 else k;
      assert Within(free[j], p);
      Single(free, i, j, p);
    }
    if j :| 0 <= j < |free| && Within(free[j], p) {
      assert !(free[i].base <= p < free[i].base + pages) ==> Within(r[if whole && j > i then j - 1 else j], p);
    }
  }

  lemma Single(free: seq<Range>, i: nat, j: nat, p: nat)
    requires Coalesced(free) && i < |free| && j < |free| && Within(free[j], p)
    ensures Within(free[i], p) ==> i == j
  {
  }

  lemma CarveKeeps(free: seq<Range>, i: nat, pages: nat)
    requires Coalesced(free) && i < |free| && 0 < pages <= free[i].pages
    ensures Coalesced(Carve(free, i, pages))
    ensures FreePages(Carve(free, i, pages)) == FreePages(free) - Interval(free[i].base, free[i].base + pages)
    ensures Interval(free[i].base, free[i].base + pages) <= FreePages(free)
  {
    CarveCoalesced(free, i, pages);
    hide FreePages, InFree, Carve, Coalesced;
    var cut := Interval(free[i].base, free[i].base + pages);
    forall p: nat ensures p in FreePages(Carve(free, i, pages)) <==> p in FreePages(free) && p !in cut {
      FreeIff(free, p);
      FreeIff(Carve(free, i, pages), p);
      CarvePage(free, i, pages, p);
    }
    forall p: nat | p in cut ensures p in FreePages(free) {
      FreeIff(free, p);
      FreeAt(free, i, p);
    }
  }

  lemma FreeAt(free: seq<Range>, i: nat, p: nat)
    requires i < |free| && Within(free[i], p)
    ensures InFree(free, p)
  {
  }

  /** Where a range starting at `base` belongs. */
  ghost predicate Slot(free: seq<Range>, i: nat, base: nat) {
    i <= |free| && (forall j :: 0 <= j < i ==> free[j].base < base)
      && (forall j :: i <= j < |free| ==> base <= free[j].base)
  }

  /** The list with a range given back at position `i`, merged with the neighbours it touches. */
  function Insert(free: seq<Range>, i: nat, base: nat, pages: nat): seq<Range>
    requires i <= |free|
  {
    var left := i > 0 && free[i - 1].base + free[i - 1].pages == base;
    var right := i < |free| && base + pages == free[i].base;
    if left && right then
      free[..i - 1] + [Range(free[i - 1].base, free[i - 1].pages + pages + free[i].pages)] + free[i + 1..]
    else if left then free[i - 1 := Range(free[i - 1].base, free[i - 1].pages + pages)]
    else if right then free[i := Range(base, pages + free[i].pages)]
    else free[..i] + [Range(base, pages)] + free[i..]
  }

  predicate NeedsNode(free: seq<Range>, i: nat, base: nat, pages: nat)
    requires i <= |free|
  {
    !(i > 0 && free[i - 1].base + free[i - 1].pages == base) && !(i < |free| && base + pages == free[i].base)
  }

  /** A range that is not free fits between its neighbours. */
  lemma Fits(free: seq<Range>, i: nat, base: nat, pages: nat)
    requires Coalesced(free) && Slot(free, i, base) && pages > 0 && Interval(base, base + pages) !! FreePages(free)
    ensures i > 0 ==> free[i - 1].base + free[i - 1].pages <= base
    ensures i < |free| ==> base + pages <= free[i].base
  {
    FreeIff(free, base);
    assert base in Interval(base, base + pages);
    if i < |free| {
      FreeIff(free, free[i].base);
      assert Within(free[i], free[i].base);
      assert free[i].base !in Interval(base, base + pages);
    }
  }

  /** The page just before or just after the range is free. */
  ghost predicate Touches(free: seq<Range>, base: nat, pages: nat) {
    (base > 0 && InFree(free, base - 1)) || InFree(free, base + pages)
  }

  lemma NodeIff(free: seq<Range>, i: nat, base: nat, pages: nat)
    requires Coalesced(free) && Slot(free, i, base) && pages > 0
    requires i > 0 ==> free[i - 1].base + free[i - 1].pages <= base
    requires i < |free| ==> base + pages <= free[i].base
    ensures NeedsNode(free, i, base, pages) <==> !Touches(free, base, pages)
  {
    if !NeedsNode(free, i, base, pages) {
      if i > 0 && free[i - 1].base + free[i - 1].pages == base {
        assert Within(free[i - 1], base - 1);
      } else {
        assert Within(free[i], base + pages);
      }
    }
    if j :| 0 <= j < |free| && base > 0 && Within(free[j], base - 1) {
      assert j < i;
    }
    if j :| 0 <= j < |free| && Within(free[j], base + pages) {
      assert j >= i;
      assert j == i;
    }
  }

  lemma InsertCoalesced(free: seq<Range>, i: nat, base: nat, pages: nat)
    requires Coalesced(free) && Slot(free, i, base) && pages > 0
    requires i > 0 ==> free[i - 1].base + free[i - 1].pages <= base
    requires i < |free| ==> base + pages <= free[i].base
    ensures Coalesced(Insert(free, i, base, pages))
  {
    var r := Insert(free, i, base, pages);
    forall j | 0 <= j < |r| ensures r[j].pages > 0 {
      InsertAt(free, i, base, pages, j);
    }
    forall j, k | 0 <= j < k < |r| ensures r[j].base + r[j].pages < r[k].base {
      InsertAt(free, i, base, pages, j);
      InsertAt(free, i, base, pages, k);
    }
  }

  /** Where an entry of the new list comes from. */
  lemma InsertAt(free: seq<Range>, i: nat, base: nat, pages: nat, k: nat)
    requires i <= |free| && k < |Insert(free, i, base, pages)|
    ensures var r := Insert(free, i, base, pages);
      var left := i > 0 && free[i - 1].base + free[i - 1].pages == base;
      var right := i < |free| && base + pages == free[i].base;
      var at := if left then i - 1 else i;
      && |r| == |free| + 1 - (if left then 1 else 0) - (if right then 1 else 0)
      && (k < at ==> r[k] == free[k])
      && (k > at ==> r[k] == free[k + |free| - |r|])
      && r[at].base == (if left then free[i - 1].base else base)
      && r[at].base + r[at].pages == (if right then free[i].base + free[i].pages else base + pages)
  {
  }

  lemma InsertPage(free: seq<Range>, i: nat, base: nat, pages: nat, p: nat)
    requires i <= |free| && pages > 0
    ensures InFree(Insert(free, i, base, pages), p) <==> InFree(free, p) || base <= p < base + pages
  {
    hide Insert;
    var r := Insert(free, i, base, pages);
    var left := i > 0 && free[i - 1].base + free[i - 1].pages == base;
    var right := i < |free| && base + pages == free[i].base;
    var at := if left then i - 1 else i;
    InsertSize(free, i, base, pages);
    InsertAt(free, i, base, pages, at);
    if InFree(r, p) && !(base <= p < base + pages) {
      var k :| 0 <= k < |r| && Within(r[k], p);
      InsertAt(free, i, base, pages, k);
      var j := if k < at then k else if k > at then k + |free| - |r| else if p < base then i - 1 else i;
      assert Within(free[j], p);
    }
    if InFree(free, p) {
      var j :| 0 <= j < |free| && Within(free[j], p);
      var k := if j < at then j else if (left && j == i - 1) || (right && j == i) then at else j + |r| - |free|;
      InsertAt(free, i, base, pages, k);
      assert Within(r[k], p);
    }
    if base <= p < base + pages {
      assert Within(r[at], p);
    }
  }

  lemma InsertSize(free: seq<Range>, i: nat, base: nat, pages: nat)
    requires i <= |free|
    ensures |Insert(free, i, base, pages)| >= (if i > 0 && free[i - 1].base + free[i - 1].pages == base then i
              else i + 1)
  {
  }

  lemma InsertPages(free: seq<Range>, i: nat, base: nat, pages: nat)
    requires i <= |free| && pages > 0
    ensures FreePages(Insert(free, i, base, pages)) == FreePages(free) + Interval(base, base + pages)
  {
    hide FreePages, InFree, Insert;
    forall p: nat ensures p in FreePages(Insert(free, i, base, pages)) <==>
      p in FreePages(free) || p in Interval(base, base + pages) {
      FreeIff(free, p);
      FreeIff(Insert(free, i, base, pages), p);
      InsertPage(free, i, base, pages, p);
    }
  }

  // ----- The window

  class Window {
    const base: nat
    const end: nat
    var next: nat
    var free: seq<Range>
    ghost var taken: set<nat>
    ghost var dropped: set<nat>
    ghost var mapped: set<nat>
    var blocks: map<nat, nat>

    ghost predicate Valid()
      reads this
    {
      && base > 0 && Coalesced(free)
      && Partition(base, end, next, FreePages(free), taken, dropped)
    }

    constructor (base: nat, size: nat)
      requires base > 0
      ensures Settled() && taken == {} && dropped == {} && FreePages(free) == {} && next == base && end == base + size
    {
      this.base, end, next := base, base + size, base;
      free := [];
      taken, dropped, mapped := {}, {}, {};
      blocks := map[];
    }

    predicate Room(pages: nat)
      reads this
    {
      pages <= end - next || exists i :: 0 <= i < |free| && free[i].pages >= pages
    }

    /** First fit on the free list, then the untouched tail. */
    method Alloc(pages: nat) returns (r: nat)
      requires Valid() && pages > 0
      modifies this`free, this`taken, this`next
      ensures Valid()
      ensures r == 0 ==> taken == old(taken) && free == old(free) && next == old(next)
      ensures r == 0 <==> !old(Room(pages))
      ensures next != old(next) ==> r == old(next) && forall i :: 0 <= i < |free| ==> free[i].pages < pages
      ensures r != 0 && next == old(next) ==> exists i: nat :: FirstFit(old(free), i, pages) && r == old(free)[i].base
      ensures r != 0 ==> Interval(r, r + pages) !! old(taken) && taken == old(taken) + Interval(r, r + pages)
    {
      hide FreePages, Coalesced, Partition, Interval, Carve;
      var i := 0;
      while i < |free|
        invariant 0 <= i <= |free| && forall j :: 0 <= j < i ==> free[j].pages < pages
      {
        if free[i].pages >= pages {
          r := free[i].base;
          CarveKeeps(free, i, pages);
          TakePart(base, end, next, FreePages(free), taken, dropped, r, pages);
          free := Carve(free, i, pages);
          taken := taken + Interval(r, r + pages);
          return;
        }
        i := i + 1;
      }
      if pages > end - next {
        return 0;
      }
      r := next;
      TailPart(base, end, next, FreePages(free), taken, dropped, pages);
      next := next + pages;
      taken := taken + Interval(r, r + pages);
    }

    /** Gives a range back.  Without memory for a list node it is dropped, if it merges with nothing. */
    method Free(start: nat, pages: nat, memory: bool)
      requires Valid() && pages > 0 && Interval(start, start + pages) <= taken
      modifies this`free, this`taken, this`dropped
      ensures Valid() && taken == old(taken) - Interval(start, start + pages)
      ensures dropped == if memory || Touches(old(free), start, pages) then old(dropped)
        else old(dropped) + Interval(start, start + pages)
      ensures FreePages(free) + dropped == FreePages(old(free)) + old(dropped) + Interval(start, start + pages)
    {
      hide FreePages, Partition, Interval, Insert, NeedsNode, Touches;
      GivePart(base, end, next, FreePages(free), taken, dropped, start, pages);
      var i := 0;
      while i < |free| && free[i].base < start
        invariant 0 <= i <= |free| && forall j :: 0 <= j < i ==> free[j].base < start
      {
        i := i + 1;
      }
      assert Slot(free, i, start);
      Fits(free, i, start, pages);
      taken := taken - Interval(start, start + pages);
      NodeIff(free, i, start, pages);
      if NeedsNode(free, i, start, pages) && !memory {
        dropped := dropped + Interval(start, start + pages);
        return;
      }
      InsertCoalesced(free, i, start, pages);
      InsertPages(free, i, start, pages);
      free := Insert(free, i, start, pages);
    }

    /** Between calls: exactly the taken pages are mapped, and the block headers tile them. */
    ghost predicate Settled()
      reads this
    {
      Valid() && mapped == taken
      && Tiled(blocks, taken)
    }

    /**
     A large allocation maps its pages one by one.  `available` is the number of pages
     that can be had and mapped; if it is too small everything is undone.
     */
    method LargeAlloc(pages: nat, available: nat, memory: bool) returns (r: nat)
      requires Settled() && pages > 0
      modifies this
      ensures Settled()
      ensures r != 0 ==> Interval(r, r + pages) !! old(taken) && taken == old(taken) + Interval(r, r + pages)
      ensures r != 0 ==> blocks == old(blocks)[r := pages] && dropped == old(dropped)
      ensures r == 0 ==> taken == old(taken) && blocks == old(blocks) && (memory ==> dropped == old(dropped))
      ensures r == 0 <==> available < pages || !old(Room(pages))
      ensures dropped == old(dropped) || exists base: nat :: LostAt(old(taken), old(dropped), dropped, base, pages)
    {
      hide Coalesced, FreePages, Tiled, InFree;
      r := Alloc(pages);
      if r == 0 {
        return;
      }
      var i := 0;
      while i < pages
        invariant 0 <= i <= pages && i <= available && Valid() && taken == old(taken) + Interval(r, r + pages)
        invariant mapped == old(mapped) + Interval(r, r + i) && blocks == old(blocks) && dropped == old(dropped)
        invariant r != 0 && Interval(r, r + pages) !! old(taken)
      {
        if i == available {
          GiveUp(r, pages, i, memory, old(taken), old(mapped));
          return 0;
        }
        mapped := mapped + {r + i};
        assert Interval(r, r + (i + 1)) == Interval(r, r + i) + {r + i};
        i := i + 1;
      }
      AddBlock(blocks, old(taken), r, pages);
      blocks := blocks[r := pages];
    }

    /** Undoes an allocation of which the first `done` pages were mapped. */
    method GiveUp(start: nat, pages: nat, done: nat, memory: bool, ghost taken0: set<nat>, ghost mapped0: set<nat>)
      requires Valid() && 0 < pages && done <= pages && taken == taken0 + Interval(start, start + pages)
      requires Interval(start, start + pages) !! taken0 && mapped0 == taken0
      requires mapped == mapped0 + Interval(start, start + done)
      modifies this`free, this`taken, this`dropped, this`mapped
      ensures Valid() && taken == taken0 && mapped == mapped0 && (memory ==> dropped == old(dropped))
      ensures dropped == old(dropped) || LostAt(taken0, old(dropped), dropped, start, pages)
    {
      hide Coalesced, FreePages, InFree, Partition;
      Unmap(start, done);
      assert mapped == mapped0;
      Free(start, pages, memory);
      assert taken == taken0;
    }

    /** `unmap_pages`. */
    method Unmap(start: nat, pages: nat)
      modifies this`mapped
      ensures mapped == old(mapped) - Interval(start, start + pages)
    {
      var i := 0;
      while i < pages
        invariant 0 <= i <= pages && mapped == old(mapped) - Interval(start, start + i)
      {
        mapped := mapped - {start + i};
        assert Interval(start, start + (i + 1)) == Interval(start, start + i) + {start + i};
        i := i + 1;
      }
    }

    /** `kfree` of a large block: its header gives its length. */
    method LargeFree(start: nat, memory: bool)
      requires Settled() && start in blocks
      modifies this
      ensures Settled() && blocks == old(blocks) - {start}
      ensures taken == old(taken) - Interval(start, start + old(blocks)[start]) && next == old(next)
      ensures memory ==> dropped == old(dropped)
      ensures memory ==> FreePages(free) == FreePages(old(free)) + Interval(start, start + old(blocks)[start])
    {
      var pages := blocks[start];
      DropBlock(blocks, taken, start);
      Unmap(start, pages);
      Free(start, pages, memory);
      blocks := blocks - {start};
    }
  }

  // ----- Live blocks

  predicate Covers(blocks: map<nat, nat>, a: nat, p: nat) {
    a in blocks && a <= p < a + blocks[a]
  }

  ghost predicate Covered(blocks: map<nat, nat>, p: nat) {
    exists a :: Covers(blocks, a, p)
  }

  /** The blocks are non-empty, disjoint and fill exactly the taken pages. */
  ghost predicate Tiled(blocks: map<nat, nat>, taken: set<nat>) {
    && (forall a :: a in blocks ==> blocks[a] > 0)
    && (forall a, b, p :: Covers(blocks, a, p) && Covers(blocks, b, p) ==> a == b)
    && (forall p :: p in taken <==> Covered(blocks, p))
  }

  lemma AddBlock(blocks: map<nat, nat>, taken: set<nat>, r: nat, pages: nat)
    requires Tiled(blocks, taken) && pages > 0 && Interval(r, r + pages) !! taken
    ensures Tiled(blocks[r := pages], taken + Interval(r, r + pages))
  {
    var after := blocks[r := pages];
    assert r in Interval(r, r + pages);
    assert r in blocks ==> Covers(blocks, r, r);
    forall a, p: nat ensures Covers(after, a, p) <==> Covers(blocks, a, p) || (a == r && p in Interval(r, r + pages)) {
    }
    forall p: nat ensures p in taken + Interval(r, r + pages) <==> Covered(after, p) {
      assert p in Interval(r, r + pages) ==> Covers(after, r, p);
      if a :| Covers(blocks, a, p) {
        assert Covers(after, a, p);
      }
    }
  }

  lemma DropBlock(blocks: map<nat, nat>, taken: set<nat>, r: nat)
    requires Tiled(blocks, taken) && r in blocks
    ensures Tiled(blocks - {r}, taken - Interval(r, r + blocks[r]))
    ensures Interval(r, r + blocks[r]) <= taken
  {
    var after := blocks - {r};
    forall p: nat ensures Covers(blocks, r, p) <==> p in Interval(r, r + blocks[r]) {
    }
    forall a, p: nat ensures Covers(after, a, p) <==> Covers(blocks, a, p) && a != r {
    }
    forall p: nat ensures p in taken - Interval(r, r + blocks[r]) <==> Covered(after, p) {
      if a :| Covers(blocks, a, p) {
        assert a != r ==> Covers(after, a, p);
        assert p in Interval(r, r + blocks[r]) ==> Covers(blocks, r, p);
      }
      assert p in taken <==> Covered(blocks, p);
    }
    forall p: nat | p in Interval(r, r + blocks[r]) ensures p in taken {
      assert Covers(blocks, r, p);
      assert p in taken <==> Covered(blocks, p);
    }
  }
}

/**
 The block headers of lib/libc/src/stdlib/allocator.c.  Headers are kept by
 address; a block at `b` has its payload at b + HEADER.  Null is 0.
 */
module Blocks {

  const HEADER: nat := 48        // sizeof(allocation_block_t)
  const ARENA_HEADER: nat := 32  // arena_header_size()
  const ALIGN: nat := 16
  const ADDRESSES: nat := 0x1_0000_0000_0000_0000

  datatype Block = Block(size: nat, previous: nat, next: nat, arena: nat, free: bool)

  datatype Arena = Arena(mapped: nat, active: nat)

  type Heap = map<nat, Block>

  function First(arena: nat): nat {
    arena + ARENA_HEADER
  }

  function End(blocks: Heap, b: nat): nat
    requires b in blocks
  {
    b + HEADER + blocks[b].size
  }

  // ----- Invariants

  /** Block `b` lies in its arena and agrees with its neighbours on where it ends and starts. */
  ghost predicate InPlace(blocks: Heap, arenas: map<nat, Arena>, b: nat)
    requires b in blocks
  {
    var k := blocks[b];
    && k.arena in arenas && k.size >= ALIGN
    && First(k.arena) <= b && End(blocks, b) <= k.arena + arenas[k.arena].mapped
    && (k.next == 0 <==> End(blocks, b) == k.arena + arenas[k.arena].mapped)
    && (k.next != 0 ==> k.next == End(blocks, b) && k.next in blocks
                        && blocks[k.next].previous == b && blocks[k.next].arena == k.arena)
    && (k.previous == 0 <==> b == First(k.arena))
    && (k.previous != 0 ==> k.previous in blocks && blocks[k.previous].next == b && blocks[k.previous].arena == k.arena)
  }

  ghost predicate ArenasApart(arenas: map<nat, Arena>) {
    && (forall a :: a in arenas ==> a > 0 && a + arenas[a].mapped <= ADDRESSES)
    && (forall a, c :: a in arenas && c in arenas && a != c ==>
          a + arenas[a].mapped <= c || c + arenas[c].mapped <= a)
  }

  /** Every arena is tiled by a doubly linked chain of blocks. */
  ghost predicate Linked(blocks: Heap, arenas: map<nat, Arena>) {
    && ArenasApart(arenas) && 0 !in blocks
    && (forall b {:trigger InPlace(blocks, arenas, b)} :: b in blocks ==> InPlace(blocks, arenas, b))
    && (forall a :: a in arenas ==> First(a) in blocks && blocks[First(a)].arena == a)
  }

  /** Headers, and so payloads, are 16-aligned, and so are sizes. */
  ghost predicate Aligned(blocks: Heap) {
    forall b :: b in blocks ==> b % 16 == 0 && blocks[b].size % 16 == 0
  }

  /** No two neighbouring blocks are both free. */
  ghost predicate Coalesced(blocks: Heap) {
    forall b {:trigger Bordered(blocks, b)} :: b in blocks ==> Bordered(blocks, b)
  }

  ghost predicate Bordered(blocks: Heap, b: nat)
    requires b in blocks
  {
    blocks[b].free && blocks[b].next in blocks ==> !blocks[blocks[b].next].free
  }

  ghost function Used(blocks: Heap, a: nat): set<nat> {
    set b | b in blocks && blocks[b].arena == a && !blocks[b].free
  }

  ghost predicate Counted(blocks: Heap, arenas: map<nat, Arena>) {
    forall a :: a in arenas ==> arenas[a].active == |Used(blocks, a)|
  }

  // ----- Blocks never overlap

  lemma {:induction false} BlocksOrdered(blocks: Heap, arenas: map<nat, Arena>, b: nat, c: nat)
    requires Linked(blocks, arenas) && b in blocks && c in blocks && blocks[b].arena == blocks[c].arena && b < c
    ensures End(blocks, b) <= c
    decreases c
  {
    assert InPlace(blocks, arenas, c) && InPlace(blocks, arenas, b);
    var p := blocks[c].previous;
    assert InPlace(blocks, arenas, p);
    if p > b {
      BlocksOrdered(blocks, arenas, b, p);
    } else if p < b {
      BlocksOrdered(blocks, arenas, p, b);
    }
  }

  /** Distinct blocks occupy disjoint stretches of memory, header and payload. */
  lemma NoOverlap(blocks: Heap, arenas: map<nat, Arena>, b: nat, c: nat)
    requires Linked(blocks, arenas) && b in blocks && c in blocks && b != c
    ensures End(blocks, b) <= c || End(blocks, c) <= b
  {
    assert InPlace(blocks, arenas, b) && InPlace(blocks, arenas, c);
    if blocks[b].arena == blocks[c].arena {
      if b < c { BlocksOrdered(blocks, arenas, b, c); } else { BlocksOrdered(blocks, arenas, c, b); }
    }
  }

  /** The blocks of an arena leave no gap: every address behind its header is in one of them. */
  lemma {:induction false} Covering(blocks: Heap, arenas: map<nat, Arena>, b: nat, x: nat) returns (c: nat)
    requires Linked(blocks, arenas) && b in blocks && blocks[b].arena in arenas
    requires b <= x < blocks[b].arena + arenas[blocks[b].arena].mapped
    ensures c in blocks && blocks[c].arena == blocks[b].arena && c <= x < End(blocks, c)
    decreases x - b
  {
    assert InPlace(blocks, arenas, b);
    if x < End(blocks, b) {
      c := b;
    } else {
      c := Covering(blocks, arenas, blocks[b].next, x);
    }
  }

  // ----- Splitting and merging

  predicate Splits(blocks: Heap, b: nat, size: nat)
    requires b in blocks && size <= blocks[b].size
  {
    blocks[b].size - size >= HEADER + ALIGN
  }

  function Relink(blocks: Heap, b: nat, previous: nat): (r: Heap)
    requires b == 0 || b in blocks
  {
    if b == 0 then blocks else blocks[b := blocks[b].(previous := previous)]
  }

  /** `b` swallows its successor if that is free. */
  function Merge(blocks: Heap, b: nat): Heap
    requires b in blocks
    requires blocks[b].next != 0 ==> blocks[b].next in blocks
    requires blocks[b].next != 0 && blocks[blocks[b].next].next != 0 ==> blocks[blocks[b].next].next in blocks
  {
    var k := blocks[b];
    var n := k.next;
    if n == 0 || !blocks[n].free then blocks
    else
      Relink(blocks, blocks[n].next, b)
        [b := k.(size := k.size + HEADER + blocks[n].size, next := blocks[n].next)] - {n}
  }

  /** The tail of `b` beyond `size` becomes a free block. */
  function Cut(blocks: Heap, b: nat, size: nat): Heap
    requires b in blocks && size <= blocks[b].size && Splits(blocks, b, size)
    requires blocks[b].next != 0 ==> blocks[b].next in blocks
  {
    var k := blocks[b];
    var s := b + HEADER + size;
    Relink(blocks, k.next, s)
      [b := k.(size := size, next := s)]
      [s := Block(k.size - size - HEADER, b, k.next, k.arena, true)]
  }

  /** `split_block`: cut off the tail and join it with a free successor, unless it is too small. */
  function Split(blocks: Heap, b: nat, size: nat): Heap
    requires Neighbours2(blocks, b) && size <= blocks[b].size
    requires b + HEADER + size !in blocks || !Splits(blocks, b, size)
  {
    if Splits(blocks, b, size) then
      var cut := Cut(blocks, b, size);
      assert cut[b + HEADER + size].next == blocks[b].next;
      Merge(cut, b + HEADER + size)
    else blocks
  }

  /** A neighbour's neighbour, ready for the links above. */
  lemma Neighbours(blocks: Heap, arenas: map<nat, Arena>, b: nat)
    requires Linked(blocks, arenas) && b in blocks
    ensures var n := blocks[b].next;
            && (n != 0 ==> n in blocks && n > b && blocks[n].arena == blocks[b].arena)
            && (n != 0 && blocks[n].next != 0 ==> blocks[n].next in blocks && blocks[n].next > n
                                                  && blocks[blocks[n].next].previous == n
                                                  && blocks[blocks[n].next].arena == blocks[b].arena)
    ensures var p := blocks[b].previous;
            p != 0 ==> p in blocks && p < b && blocks[p].next == b
  {
    assert InPlace(blocks, arenas, b);
    var n, p := blocks[b].next, blocks[b].previous;
    if n != 0 {
      assert InPlace(blocks, arenas, n);
      if blocks[n].next != 0 { assert InPlace(blocks, arenas, blocks[n].next); }
    }
    if p != 0 { assert InPlace(blocks, arenas, p); }
  }

  lemma MergeLinked(blocks: Heap, arenas: map<nat, Arena>, b: nat)
    requires Linked(blocks, arenas) && b in blocks
    ensures Neighbours2(blocks, b) && Linked(Merge(blocks, b), arenas)
  {
    Neighbours(blocks, arenas, b);
    var n := blocks[b].next;
    if n != 0 && blocks[n].free {
      assert InPlace(blocks, arenas, b) && blocks[b].arena > 0 && b > 0;
      forall x | x in Merge(blocks, b) ensures InPlace(Merge(blocks, b), arenas, x) {
        MergeInPlace(blocks, arenas, b, x);
      }
      forall a | a in arenas ensures First(a) in Merge(blocks, b) && Merge(blocks, b)[First(a)].arena == a {
        assert First(a) in blocks;
        assert InPlace(blocks, arenas, n) && InPlace(blocks, arenas, First(a));
      }
    }
  }

  lemma MergeInPlace(blocks: Heap, arenas: map<nat, Arena>, b: nat, x: nat)
    requires Linked(blocks, arenas) && b in blocks && Neighbours2(blocks, b)
    requires blocks[b].next != 0 && blocks[blocks[b].next].free && x in Merge(blocks, b)
    ensures InPlace(Merge(blocks, b), arenas, x)
  {
    hide Linked, InPlace;
    if x == b {
      MergeSelf(blocks, arenas, b);
    } else if x == blocks[blocks[b].next].next {
      MergeAfter(blocks, arenas, b);
    } else {
      MergeElsewhere(blocks, arenas, b, x);
    }
  }

  lemma MergeSelf(blocks: Heap, arenas: map<nat, Arena>, b: nat)
    requires Linked(blocks, arenas) && b in blocks && Neighbours2(blocks, b)
    requires blocks[b].next != 0 && blocks[blocks[b].next].free
    ensures b in Merge(blocks, b) ==> InPlace(Merge(blocks, b), arenas, b)
  {
    var n := blocks[b].next;
    assert InPlace(blocks, arenas, b) && InPlace(blocks, arenas, n);
  }

  lemma MergeAfter(blocks: Heap, arenas: map<nat, Arena>, b: nat)
    requires Linked(blocks, arenas) && b in blocks && Neighbours2(blocks, b)
    requires blocks[b].next != 0 && blocks[blocks[b].next].free
    requires blocks[blocks[b].next].next in Merge(blocks, b)
    ensures InPlace(Merge(blocks, b), arenas, blocks[blocks[b].next].next)
  {
    var n := blocks[b].next;
    var x := blocks[n].next;
    Neighbours(blocks, arenas, b);
    Neighbours(blocks, arenas, n);
    assert InPlace(blocks, arenas, b) && InPlace(blocks, arenas, n) && InPlace(blocks, arenas, x);
    Neighbours(blocks, arenas, x);
  }

  lemma MergeElsewhere(blocks: Heap, arenas: map<nat, Arena>, b: nat, x: nat)
    requires Linked(blocks, arenas) && b in blocks && Neighbours2(blocks, b)
    requires blocks[b].next != 0 && blocks[blocks[b].next].free
    requires x in Merge(blocks, b) && x != b && x != blocks[blocks[b].next].next
    ensures InPlace(Merge(blocks, b), arenas, x)
  {
    var n := blocks[b].next;
    Neighbours(blocks, arenas, b);
    assert InPlace(blocks, arenas, b) && InPlace(blocks, arenas, n) && InPlace(blocks, arenas, x);
    Neighbours(blocks, arenas, x);
    if blocks[x].next == n {
      NextUnique(blocks, arenas, x, b);
    }
  }

  ghost predicate Neighbours2(blocks: Heap, b: nat) {
    && b in blocks
    && (blocks[b].next != 0 ==> blocks[b].next in blocks)
    && (blocks[b].next != 0 && blocks[blocks[b].next].next != 0 ==> blocks[blocks[b].next].next in blocks)
  }

  lemma NextUnique(blocks: Heap, arenas: map<nat, Arena>, x: nat, y: nat)
    requires Linked(blocks, arenas) && x in blocks && y in blocks && blocks[x].next == blocks[y].next != 0
    ensures x == y
  {
    assert InPlace(blocks, arenas, x) && InPlace(blocks, arenas, y);
  }

  /** The header a split creates is inside the block being split, so it is no block yet. */
  lemma SplitFresh(blocks: Heap, arenas: map<nat, Arena>, b: nat, size: nat)
    requires Linked(blocks, arenas) && b in blocks && size <= blocks[b].size && Splits(blocks, b, size)
    ensures b + HEADER + size !in blocks && b + HEADER + size > 0
  {
    var s := b + HEADER + size;
    if s in blocks {
      NoOverlap(blocks, arenas, b, s);
    }
  }

  lemma SplitLinked(blocks: Heap, arenas: map<nat, Arena>, b: nat, size: nat)
    requires Linked(blocks, arenas) && b in blocks && ALIGN <= size <= blocks[b].size
    ensures Neighbours2(blocks, b) && (Splits(blocks, b, size) ==> b + HEADER + size !in blocks)
    ensures Linked(Split(blocks, b, size), arenas)
  {
    Neighbours(blocks, arenas, b);
    if Splits(blocks, b, size) {
      SplitFresh(blocks, arenas, b, size);
      CutLinked(blocks, arenas, b, size);
      MergeLinked(Cut(blocks, b, size), arenas, b + HEADER + size);
    }
  }

  lemma CutLinked(blocks: Heap, arenas: map<nat, Arena>, b: nat, size: nat)
    requires Linked(blocks, arenas) && Neighbours2(blocks, b) && ALIGN <= size <= blocks[b].size
    requires Splits(blocks, b, size) && b + HEADER + size !in blocks
    ensures Linked(Cut(blocks, b, size), arenas)
  {
    var r := Cut(blocks, b, size);
    assert InPlace(blocks, arenas, b) && blocks[b].arena > 0 && b > 0;
    forall x | x in r ensures InPlace(r, arenas, x) {
      CutInPlace(blocks, arenas, b, size, x);
    }
    forall a | a in arenas ensures First(a) in r && r[First(a)].arena == a {
      assert First(a) in blocks;
    }
  }

  lemma CutInPlace(blocks: Heap, arenas: map<nat, Arena>, b: nat, size: nat, x: nat)
    requires Linked(blocks, arenas) && Neighbours2(blocks, b) && ALIGN <= size <= blocks[b].size
    requires Splits(blocks, b, size) && b + HEADER + size !in blocks && b > 0
    requires x in Cut(blocks, b, size)
    ensures InPlace(Cut(blocks, b, size), arenas, x)
  {
    if x == b || x == b + HEADER + size {
      CutHalves(blocks, arenas, b, size, x);
    } else if x == blocks[b].next {
      CutAfter(blocks, arenas, b, size);
    } else {
      CutElsewhere(blocks, arenas, b, size, x);
    }
  }

  lemma CutHalves(blocks: Heap, arenas: map<nat, Arena>, b: nat, size: nat, x: nat)
    requires Linked(blocks, arenas) && Neighbours2(blocks, b) && ALIGN <= size <= blocks[b].size
    requires Splits(blocks, b, size) && b + HEADER + size !in blocks && b > 0
    requires x == b || x == b + HEADER + size
    ensures x in Cut(blocks, b, size) ==> InPlace(Cut(blocks, b, size), arenas, x)
  {
    Neighbours(blocks, arenas, b);
    assert InPlace(blocks, arenas, b);
    if blocks[b].next != 0 { assert InPlace(blocks, arenas, blocks[b].next); }
  }

  lemma CutAfter(blocks: Heap, arenas: map<nat, Arena>, b: nat, size: nat)
    requires Linked(blocks, arenas) && Neighbours2(blocks, b) && ALIGN <= size <= blocks[b].size
    requires Splits(blocks, b, size) && b + HEADER + size !in blocks && b > 0
    requires blocks[b].next in blocks
    ensures blocks[b].next in Cut(blocks, b, size) ==> InPlace(Cut(blocks, b, size), arenas, blocks[b].next)
  {
    Neighbours(blocks, arenas, b);
    assert InPlace(blocks, arenas, b) && InPlace(blocks, arenas, blocks[b].next);
  }

  lemma CutElsewhere(blocks: Heap, arenas: map<nat, Arena>, b: nat, size: nat, x: nat)
    requires Linked(blocks, arenas) && Neighbours2(blocks, b) && size <= blocks[b].size && Splits(blocks, b, size)
    requires b + HEADER + size !in blocks && x in blocks && x != b && x != blocks[b].next
    ensures InPlace(Cut(blocks, b, size), arenas, x)
  {
    assert InPlace(blocks, arenas, x);
    Neighbours(blocks, arenas, x);
    if blocks[x].next != 0 && blocks[x].next == blocks[b].next { NextUnique(blocks, arenas, x, b); }
    assert Cut(blocks, b, size)[x] == blocks[x];
  }

  // ----- Coalescing

  ghost predicate CoalescedExcept(blocks: Heap, except: set<nat>) {
    forall b {:trigger Bordered(blocks, b)} :: b in blocks && b !in except ==> Bordered(blocks, b)
  }

  /** After a merge at `b` its border is in order: what followed a free block was not free. */
  lemma MergeCoalesced(blocks: Heap, arenas: map<nat, Arena>, b: nat, except: set<nat>)
    requires Linked(blocks, arenas) && Neighbours2(blocks, b) && CoalescedExcept(blocks, except)
    requires blocks[b].next !in except
    ensures CoalescedExcept(Merge(blocks, b), except - {b})
  {
    var r := Merge(blocks, b);
    var n := blocks[b].next;
    Neighbours(blocks, arenas, b);
    if n != 0 { assert Bordered(blocks, n); }
    forall x | x in r && x !in except - {b} ensures Bordered(r, x) {
      if x != b {
        assert Bordered(blocks, x);
        assert InPlace(blocks, arenas, x);
        if n != 0 && blocks[x].next == n { NextUnique(blocks, arenas, x, b); }
      }
    }
  }

  lemma CutCoalesced(blocks: Heap, arenas: map<nat, Arena>, b: nat, size: nat)
    requires Linked(blocks, arenas) && Neighbours2(blocks, b) && size <= blocks[b].size && Splits(blocks, b, size)
    requires b + HEADER + size !in blocks && Coalesced(blocks)
    ensures CoalescedExcept(Cut(blocks, b, size), {b, b + HEADER + size})
  {
    var s := b + HEADER + size;
    var r := Cut(blocks, b, size);
    Neighbours(blocks, arenas, b);
    forall x | x in r && x !in {b, s} ensures Bordered(r, x) {
      assert Bordered(blocks, x);
      assert InPlace(blocks, arenas, x);
    }
  }

  /** A split leaves at most the border behind `b` itself open. */
  lemma SplitCoalesced(blocks: Heap, arenas: map<nat, Arena>, b: nat, size: nat)
    requires Linked(blocks, arenas) && b in blocks && ALIGN <= size <= blocks[b].size && Coalesced(blocks)
    requires Neighbours2(blocks, b) && (Splits(blocks, b, size) ==> b + HEADER + size !in blocks)
    ensures CoalescedExcept(Split(blocks, b, size), {b})
    ensures b in Split(blocks, b, size) && Split(blocks, b, size)[b].free == blocks[b].free
  {
    if Splits(blocks, b, size) {
      var s := b + HEADER + size;
      CutLinked(blocks, arenas, b, size);
      CutCoalesced(blocks, arenas, b, size);
      Neighbours(blocks, arenas, b);
      assert Cut(blocks, b, size)[s].next == blocks[b].next && blocks[b].next !in {b, s};
      MergeCoalesced(Cut(blocks, b, size), arenas, s, {b, s});
      assert {b, s} - {s} == {b};
    }
  }

  // ----- Who is in use

  /** Every used block but `b` is still there, with the same size. */
  ghost predicate OthersKept(before: Heap, after: Heap, b: nat) {
    forall x :: x in before && !before[x].free && x != b ==>
      x in after && after[x].size == before[x].size && after[x].arena == before[x].arena && !after[x].free
  }

  lemma MergeUsed(blocks: Heap, b: nat)
    requires Neighbours2(blocks, b) && blocks[b].next != b
    ensures OthersKept(blocks, Merge(blocks, b), b) && b in Merge(blocks, b)
    ensures Merge(blocks, b)[b].free == blocks[b].free && Merge(blocks, b)[b].arena == blocks[b].arena
    ensures Merge(blocks, b)[b].size >= blocks[b].size
    ensures forall a :: Used(Merge(blocks, b), a) == Used(blocks, a)
  {
    forall a ensures Used(Merge(blocks, b), a) == Used(blocks, a) {
    }
  }

  lemma CutUsed(blocks: Heap, b: nat, size: nat)
    requires Neighbours2(blocks, b) && size <= blocks[b].size && Splits(blocks, b, size)
    requires b + HEADER + size !in blocks && blocks[b].next != b
    ensures OthersKept(blocks, Cut(blocks, b, size), b)
    ensures Cut(blocks, b, size)[b] == blocks[b].(size := size, next := b + HEADER + size)
    ensures forall a :: Used(Cut(blocks, b, size), a) == Used(blocks, a)
  {
    forall a ensures Used(Cut(blocks, b, size), a) == Used(blocks, a) {
    }
  }

  lemma SplitUsed(blocks: Heap, arenas: map<nat, Arena>, b: nat, size: nat)
    requires Linked(blocks, arenas) && b in blocks && ALIGN <= size <= blocks[b].size
    requires Neighbours2(blocks, b) && (Splits(blocks, b, size) ==> b + HEADER + size !in blocks)
    ensures OthersKept(blocks, Split(blocks, b, size), b) && b in Split(blocks, b, size)
    ensures Split(blocks, b, size)[b].arena == blocks[b].arena && Split(blocks, b, size)[b].free == blocks[b].free
    ensures size <= Split(blocks, b, size)[b].size <= blocks[b].size
    ensures Split(blocks, b, size)[b].size < size + HEADER + ALIGN
    ensures forall a :: Used(Split(blocks, b, size), a) == Used(blocks, a)
  {
    Neighbours(blocks, arenas, b);
    if Splits(blocks, b, size) {
      var s := b + HEADER + size;
      var cut := Cut(blocks, b, size);
      CutUsed(blocks, b, size);
      CutLinked(blocks, arenas, b, size);
      assert InPlace(cut, arenas, s) && InPlace(blocks, arenas, b);
      MergeUsed(cut, s);
      assert Merge(cut, s)[b] == cut[b];
    }
  }
}

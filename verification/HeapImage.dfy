/**
 The heap as memory holds it.  A program that knows only the bytes and the address of the first
 arena header can find every arena and every block: no two heaps look alike.
 */
module HeapImage {
  import opened Blocks
  import opened Bytes
  import opened Allocator

  /** What an arena header says. */
  datatype ArenaFields = ArenaFields(mapped: nat, active: nat, previous: nat, next: nat)

  function LoadArena(m: Memory, a: nat): ArenaFields {
    ArenaFields(Load(m, a, 8), Load(m, a + 8, 8), Load(m, a + 16, 8), Load(m, a + 24, 8))
  }

  function Head(list: seq<nat>): nat {
    if list == [] then 0 else list[0]
  }

  // ----- Everything a header holds is a 64-bit number

  lemma BlockFits(blocks: Heap, arenas: map<nat, Arena>, b: nat)
    requires Linked(blocks, arenas) && b in blocks
    ensures Fields64(blocks[b]) && b <= SIZE_MAX
  {
    assert InPlace(blocks, arenas, b);
    var k := blocks[b];
    if k.next != 0 {
      assert InPlace(blocks, arenas, k.next);
    }
    if k.previous != 0 {
      assert InPlace(blocks, arenas, k.previous);
    }
  }

  lemma ArenaFits(blocks: Heap, arenas: map<nat, Arena>, a: nat)
    requires Linked(blocks, arenas) && a in arenas
    ensures 0 < a <= SIZE_MAX && arenas[a].mapped <= SIZE_MAX
  {
    assert InPlace(blocks, arenas, First(a));
  }

  /** Every block header of a valid heap is read back from memory. */
  lemma BlockReads(blocks: Heap, arenas: map<nat, Arena>, list: seq<nat>, m: Memory, b: nat)
    requires Stored(blocks, arenas, list, m) && b in blocks
    ensures LoadBlock(m, b) == blocks[b]
  {
    hide Linked, HeaderAt, LoadBlock;
    BlockFits(blocks, arenas, b);
    HeaderReads(m, b, blocks[b]);
  }

  lemma ActiveFits(blocks: Heap, arenas: map<nat, Arena>, a: nat)
    requires Linked(blocks, arenas) && Counted(blocks, arenas) && a in arenas
    ensures arenas[a].active <= SIZE_MAX
  {
    forall b | b in Used(blocks, a) ensures a < b <= SIZE_MAX {
      assert InPlace(blocks, arenas, b);
      BlockFits(blocks, arenas, b);
    }
    FewBelow(Used(blocks, a), SIZE_MAX);
  }

  lemma {:induction false} FewBelow(s: set<nat>, n: nat)
    requires forall b :: b in s ==> 0 < b <= n
    ensures |s| <= n
    decreases n
  {
    if n == 0 {
      assert s == {};
    } else {
      FewBelow(s - {n}, n - 1);
      assert n !in s ==> s - {n} == s;
    }
  }

  lemma ArenaField(m: Memory, list: seq<nat>, arenas: map<nat, Arena>, i: nat, k: nat)
    requires i < |list| && ArenaAt(m, list, arenas, i) && k < 8
    ensures list[i] in arenas
    ensures m(list[i] + k) == Le(arenas[list[i]].mapped, 8)[k] && m(list[i] + 8 + k) == Le(arenas[list[i]].active, 8)[k]
    ensures m(list[i] + 16 + k) == Le(Before(list, i), 8)[k] && m(list[i] + 24 + k) == Le(After(list, i), 8)[k]
  {
    hide Le, Before, After;
  }

  /** Every arena header of a valid heap is read back from memory, with the links of the list. */
  lemma ArenaReads(blocks: Heap, arenas: map<nat, Arena>, list: seq<nat>, m: Memory, i: nat)
    requires Stored(blocks, arenas, list, m) && i < |list|
    ensures list[i] in arenas && 0 < list[i] <= SIZE_MAX
    ensures LoadArena(m, list[i]) ==
            ArenaFields(arenas[list[i]].mapped, arenas[list[i]].active, Before(list, i), After(list, i))
  {
    hide Linked, Counted, Load, Le, ArenaAt;
    assert ArenaAt(m, list, arenas, i);
    assert list[i] in arenas && (i > 0 ==> list[i - 1] in arenas) && (i + 1 < |list| ==> list[i + 1] in arenas);
    var a := list[i];
    forall c | c in arenas ensures 0 < c <= SIZE_MAX && arenas[c].mapped <= SIZE_MAX {
      ArenaFits(blocks, arenas, c);
    }
    ActiveFits(blocks, arenas, a);
    forall k: nat | k < 8
      ensures m(a + k) == Le(arenas[a].mapped, 8)[k] && m(a + 8 + k) == Le(arenas[a].active, 8)[k]
      ensures m(a + 16 + k) == Le(Before(list, i), 8)[k] && m(a + 24 + k) == Le(After(list, i), 8)[k]
    {
      ArenaField(m, list, arenas, i, k);
    }
    LoadWord(m, a, arenas[a].mapped);
    LoadWord(m, a + 8, arenas[a].active);
    LoadWord(m, a + 16, Before(list, i));
    LoadWord(m, a + 24, After(list, i));
  }

  // ----- Two heaps in the same bytes

  lemma {:induction false} SamePrefix(b1: Heap, a1: map<nat, Arena>, l1: seq<nat>, b2: Heap, a2: map<nat, Arena>,
                                      l2: seq<nat>, m: Memory, n: nat)
    requires Stored(b1, a1, l1, m) && Stored(b2, a2, l2, m) && Head(l1) == Head(l2) && n <= |l1|
    ensures n <= |l2| && l1[..n] == l2[..n]
    ensures n == |l1| ==> |l2| == n
  {
    hide LoadArena, Stored;
    if n == 0 {
      if |l1| == 0 && |l2| > 0 {
        ArenaReads(b2, a2, l2, m, 0);
      }
    } else {
      SamePrefix(b1, a1, l1, b2, a2, l2, m, n - 1);
      ArenaReads(b1, a1, l1, m, n - 1);
      if n == 1 {
        if |l2| > 0 { ArenaReads(b2, a2, l2, m, 0); }
      } else {
        ArenaReads(b1, a1, l1, m, n - 2);
        ArenaReads(b2, a2, l2, m, n - 2);
        assert l1[..n - 1][n - 2] == l2[..n - 1][n - 2];
      }
      assert n <= |l2| && l1[n - 1] == l2[n - 1];
      ArenaReads(b2, a2, l2, m, n - 1);
      if n < |l2| { ArenaReads(b2, a2, l2, m, n); }
      assert l1[..n] == l1[..n - 1] + [l1[n - 1]] && l2[..n] == l2[..n - 1] + [l2[n - 1]];
    }
  }

  /** A block of the one heap is found in the other: through the arena or the block before it. */
  lemma {:induction false} SameBlock(b1: Heap, a1: map<nat, Arena>, l1: seq<nat>, b2: Heap, a2: map<nat, Arena>,
                                     l2: seq<nat>, m: Memory, b: nat)
    requires Stored(b1, a1, l1, m) && Stored(b2, a2, l2, m) && a1.Keys == a2.Keys && b in b1
    ensures b in b2 && b2[b] == b1[b]
    decreases b
  {
    assert InPlace(b1, a1, b);
    var p := b1[b].previous;
    if p == 0 {
      assert b == First(b1[b].arena) && b1[b].arena in a2;
    } else {
      assert InPlace(b1, a1, p) && p < b;
      SameBlock(b1, a1, l1, b2, a2, l2, m, p);
      assert InPlace(b2, a2, p);
    }
    BlockReads(b1, a1, l1, m, b);
    BlockReads(b2, a2, l2, m, b);
  }

  /** The bytes and the first arena determine the whole heap. */
  lemma HeapUnique(b1: Heap, a1: map<nat, Arena>, l1: seq<nat>, b2: Heap, a2: map<nat, Arena>, l2: seq<nat>, m: Memory)
    requires Stored(b1, a1, l1, m) && Stored(b2, a2, l2, m) && Head(l1) == Head(l2)
    ensures l1 == l2 && a1 == a2 && b1 == b2
  {
    hide Stored, LoadArena;
    SamePrefix(b1, a1, l1, b2, a2, l2, m, |l1|);
    assert l1[..|l1|] == l1 && l2[..|l1|] == l2;
    Keys(b1, a1, l1, m);
    Keys(b2, a2, l2, m);
    forall b | b in b1 ensures b in b2 && b2[b] == b1[b] {
      SameBlock(b1, a1, l1, b2, a2, l2, m, b);
    }
    forall b | b in b2 ensures b in b1 {
      SameBlock(b2, a2, l2, b1, a1, l1, m, b);
    }
    forall a | a in a1 ensures a2[a] == a1[a] {
      var i :| 0 <= i < |l1| && l1[i] == a;
      ArenaReads(b1, a1, l1, m, i);
      ArenaReads(b2, a2, l2, m, i);
    }
  }

  lemma Keys(blocks: Heap, arenas: map<nat, Arena>, list: seq<nat>, m: Memory)
    requires Stored(blocks, arenas, list, m)
    ensures forall a :: a in arenas <==> a in list
  {
  }
}

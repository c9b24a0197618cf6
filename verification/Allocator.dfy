/**
 lib/libc/src/stdlib/allocator.c and realloc.c: first fit over arenas, splitting,
 two-sided coalescing, resizing in place.  `bytes` is the memory that headers and
 payloads share, so every header store really overwrites bytes.
 */
module Allocator {
  import opened Blocks
  import opened Bytes

  const SIZE_MAX: nat := 0xffff_ffff_ffff_ffff
  const PAGE_SIZE: nat := 4096
  const ARENA_SIZE: nat := 65536

  type Memory = nat -> Byte

  function AlignUp(value: nat): (r: nat)
    ensures value <= r < value + ALIGN && r % 16 == 0
  {
    (value + 15) / 16 * 16
  }

  function PageUp(value: nat): (r: nat)
    ensures value <= r < value + PAGE_SIZE && r % 4096 == 0
  {
    (value + 4095) / 4096 * 4096
  }

  // ----- Headers are bytes too

  /** Byte `i` of a stored header; the last field ends at byte 36. */
  function HeaderByte(k: Block, i: nat): Byte
    requires i < 36
  {
    if i < 8 then Le(k.size, 8)[i]
    else if i < 16 then Le(k.previous, 8)[i - 8]
    else if i < 24 then Le(k.next, 8)[i - 16]
    else if i < 32 then Le(k.arena, 8)[i - 24]
    else Le(Flag(k.free), 4)[i - 32]
  }

  function Flag(b: bool): nat {
    if b then 1 else 0
  }

  /** The number that the `n` bytes from `x` on hold. */
  function Load(m: Memory, x: nat, n: nat): nat {
    Value(Slice(m, x, n))
  }

  /** A block header as C reads it. */
  function LoadBlock(m: Memory, b: nat): Block {
    Block(Load(m, b, 8), Load(m, b + 8, 8), Load(m, b + 16, 8), Load(m, b + 24, 8), Load(m, b + 32, 4) != 0)
  }

  lemma LoadField(m: Memory, x: nat, n: nat, value: nat)
    requires value < Power(n) && forall i: nat :: i < n ==> m(x + i) == Le(value, n)[i]
    ensures Load(m, x, n) == value
  {
    assert Slice(m, x, n) == Le(value, n);
    LeValue(value, n);
  }

  /** Every number of a header fits its 64-bit field. */
  predicate Fields64(k: Block) {
    k.size <= SIZE_MAX && k.previous <= SIZE_MAX && k.next <= SIZE_MAX && k.arena <= SIZE_MAX
  }

  lemma HeaderField(m: Memory, b: nat, k: Block, i: nat)
    requires HeaderAt(m, b, k) && i < 8
    ensures m(b + i) == Le(k.size, 8)[i] && m(b + 8 + i) == Le(k.previous, 8)[i]
    ensures m(b + 16 + i) == Le(k.next, 8)[i] && m(b + 24 + i) == Le(k.arena, 8)[i]
    ensures i < 4 ==> m(b + 32 + i) == Le(Flag(k.free), 4)[i]
  {
    hide Le;
  }

  lemma LoadWord(m: Memory, x: nat, value: nat)
    requires value <= SIZE_MAX && forall i: nat :: i < 8 ==> m(x + i) == Le(value, 8)[i]
    ensures Load(m, x, 8) == value
  {
    hide Le, Load;
    assert Power(4) == 0x1_0000_0000;
    assert Power(8) == SIZE_MAX + 1;
    LoadField(m, x, 8, value);
  }

  /** A header is read back as it was stored. */
  lemma HeaderReads(m: Memory, b: nat, k: Block)
    requires HeaderAt(m, b, k) && Fields64(k)
    ensures LoadBlock(m, b) == k
  {
    hide Load, Le, Value, HeaderAt;
    forall i: nat | i < 8
      ensures m(b + i) == Le(k.size, 8)[i] && m(b + 8 + i) == Le(k.previous, 8)[i]
      ensures m(b + 16 + i) == Le(k.next, 8)[i] && m(b + 24 + i) == Le(k.arena, 8)[i]
      ensures i < 4 ==> m(b + 32 + i) == Le(Flag(k.free), 4)[i]
    {
      HeaderField(m, b, k, i);
    }
    LoadWord(m, b, k.size);
    LoadWord(m, b + 8, k.previous);
    LoadWord(m, b + 16, k.next);
    LoadWord(m, b + 24, k.arena);
    LoadField(m, b + 32, 4, Flag(k.free));
  }

  function StoreHeader(m: Memory, b: nat, k: Block): Memory {
    (x: nat) => if b <= x < b + 36 then HeaderByte(k, x - b) else m(x)
  }

  /** Memory holds header `k` at `b`. */
  ghost predicate HeaderAt(m: Memory, b: nat, k: Block) {
    forall x: nat :: b <= x < b + 36 ==> m(x) == HeaderByte(k, x - b)
  }

  /** Memory holds the header of every block. */
  ghost predicate Imaged(blocks: Heap, m: Memory) {
    forall b :: b in blocks ==> HeaderAt(m, b, blocks[b])
  }

  /** Headers at these addresses do not overlap. */
  ghost predicate Spaced(keys: set<nat>) {
    forall a, b :: a in keys && b in keys && a < b ==> a + HEADER <= b
  }

  ghost predicate Within(blocks: Heap, keys: set<nat>) {
    Spaced(keys) && blocks.Keys <= keys
  }

  lemma WithinMore(blocks: Heap, b: nat, k: Block)
    requires Spaced(blocks[b := k].Keys)
    ensures Within(blocks, blocks[b := k].Keys)
  {
  }

  lemma LinkedSpaced(blocks: Heap, arenas: map<nat, Arena>)
    requires Linked(blocks, arenas)
    ensures Spaced(blocks.Keys) && Within(blocks, blocks.Keys)
  {
    forall a, b | a in blocks && b in blocks && a < b ensures a + HEADER <= b {
      NoOverlap(blocks, arenas, a, b);
    }
  }

  lemma StoreImaged(blocks: Heap, m: Memory, keys: set<nat>, b: nat, k: Block)
    requires Imaged(blocks, m) && Spaced(keys) && b in keys && blocks.Keys <= keys
    ensures Imaged(blocks[b := k], StoreHeader(m, b, k))
  {
    var m' := StoreHeader(m, b, k);
    forall a | a in blocks && a != b ensures HeaderAt(m', a, blocks[a]) {
      assert HeaderAt(m, a, blocks[a]);
      assert a < b || b < a;
    }
  }

  lemma CutWithin(blocks: Heap, b: nat, size: nat)
    requires Neighbours2(blocks, b) && size <= blocks[b].size && Splits(blocks, b, size)
    requires Spaced(Cut(blocks, b, size).Keys)
    ensures Within(blocks, Cut(blocks, b, size).Keys)
    ensures b + HEADER + size in Cut(blocks, b, size) && b in Cut(blocks, b, size)
    ensures blocks[b].next != 0 ==> blocks[b].next in Cut(blocks, b, size)
  {
  }

  lemma CutFacts(blocks: Heap, b: nat, size: nat)
    requires Neighbours2(blocks, b) && size <= blocks[b].size && Splits(blocks, b, size)
    ensures b + HEADER + size in Cut(blocks, b, size) && Cut(blocks, b, size).Keys == blocks.Keys + {b + HEADER + size}
    ensures Cut(blocks, b, size)[b + HEADER + size].next == blocks[b].next
  {
  }

  /** A cut as the stores it consists of. */
  lemma CutStores(blocks: Heap, b: nat, size: nat)
    requires Neighbours2(blocks, b) && size <= blocks[b].size && Splits(blocks, b, size)
    requires b + HEADER + size !in blocks && blocks[b].next != b
    ensures var k, s := blocks[b], b + HEADER + size;
            var tail := blocks[s := Block(k.size - size - HEADER, b, k.next, k.arena, true)];
            Cut(blocks, b, size) ==
            (if k.next == 0 then tail else tail[k.next := blocks[k.next].(previous := s)])
              [b := k.(next := s, size := size)]
  {
  }

  /** A merge as the stores it consists of. */
  lemma MergeStores(blocks: Heap, b: nat)
    requires Neighbours2(blocks, b) && blocks[b].next != b
    requires blocks[b].next != 0 ==> blocks[blocks[b].next].next != b
    ensures var n := blocks[b].next;
            if n == 0 || !blocks[n].free then Merge(blocks, b) == blocks
            else
              var after := blocks[n].next;
              var k := blocks[b].(size := blocks[b].size + HEADER + blocks[n].size, next := after);
              Merge(blocks, b) ==
              (if after == 0 then blocks[b := k] else blocks[b := k][after := blocks[after].(previous := b)]) - {n}
  {
  }

  lemma MergeTouched(m: Memory, m': Memory, hs: set<nat>, before: Heap, b: nat, after: Heap)
    requires Touched(m, m', hs) && b in before && hs <= before.Keys
    ensures HeadersOnly(m, m', before, after)
  {
    TouchedHeaders(m, m', hs, before, after);
  }

  lemma ImagedPart(blocks: Heap, part: Heap, m: Memory)
    requires Imaged(blocks, m) && forall b :: b in part ==> b in blocks && part[b] == blocks[b]
    ensures Imaged(part, m)
  {
  }

  /** A write inside a payload leaves every header in place. */
  lemma PayloadImaged(blocks: Heap, arenas: map<nat, Arena>, m: Memory, m': Memory, b: nat)
    requires Linked(blocks, arenas) && Imaged(blocks, m) && b in blocks
    requires forall x: nat :: !(b + HEADER <= x < End(blocks, b)) ==> m'(x) == m(x)
    ensures Imaged(blocks, m')
  {
    forall a | a in blocks ensures HeaderAt(m', a, blocks[a]) {
      assert HeaderAt(m, a, blocks[a]);
      if a != b {
        NoOverlap(blocks, arenas, a, b);
      }
    }
  }

  /** Only bytes inside headers of one of the two heaps differ. */
  ghost predicate HeadersOnly(m: Memory, m': Memory, before: Heap, after: Heap) {
    forall x: nat :: m'(x) != m(x) ==> InHeader(before, x) || InHeader(after, x)
  }

  ghost predicate InHeader(blocks: Heap, x: nat) {
    exists h :: h in blocks && h <= x < h + HEADER
  }

  /** No header overlaps a payload. */
  lemma PayloadNoHeader(blocks: Heap, arenas: map<nat, Arena>, b: nat, x: nat)
    requires Linked(blocks, arenas) && b in blocks && b + HEADER <= x < End(blocks, b)
    ensures !InHeader(blocks, x)
  {
    forall h | h in blocks ensures !(h <= x < h + HEADER) {
      if h != b { NoOverlap(blocks, arenas, b, h); }
    }
  }

  /** Live blocks other than `b` are still live, with the same payload. */
  ghost predicate PayloadsKept(before: Heap, m: Memory, after: Heap, m': Memory, b: nat) {
    && OthersKept(before, after, b)
    && (forall x :: x in before && !before[x].free && x != b ==> SameBytes(m, m', x + HEADER, before[x].size))
  }

  /** The `length` bytes from `from` on. */
  function Slice(m: Memory, from: nat, length: nat): (s: seq<Byte>)
    ensures |s| == length && forall i :: 0 <= i < length ==> s[i] == m(from + i)
  {
    seq(length, i requires 0 <= i < length => m(from + i))
  }

  lemma SameSlice(m: Memory, m': Memory, from: nat, length: nat)
    requires SameBytes(m, m', from, length)
    ensures Slice(m', from, length) == Slice(m, from, length)
  {
  }

  ghost predicate SameBytes(m: Memory, m': Memory, from: nat, length: nat) {
    forall x: nat :: from <= x < from + length ==> m'(x) == m(x)
  }

  lemma HeadersSparePayloads(before: Heap, m: Memory, arenas: map<nat, Arena>, after: Heap, m': Memory,
                             arenas': map<nat, Arena>, b: nat)
    requires Linked(before, arenas) && Linked(after, arenas') && OthersKept(before, after, b)
    requires HeadersOnly(m, m', before, after)
    ensures PayloadsKept(before, m, after, m', b)
  {
    forall x | x in before && !before[x].free && x != b ensures SameBytes(m, m', x + HEADER, before[x].size) {
      HeadersSparePrefix(before, m, arenas, after, m', arenas', x, before[x].size);
    }
  }

  /** A block that survives an operation keeps the payload bytes it had room for throughout. */
  lemma HeadersSparePrefix(before: Heap, m: Memory, arenas: map<nat, Arena>, after: Heap, m': Memory,
                           arenas': map<nat, Arena>, b: nat, length: nat)
    requires Linked(before, arenas) && Linked(after, arenas') && HeadersOnly(m, m', before, after)
    requires b in before && b in after && length <= before[b].size && length <= after[b].size
    ensures SameBytes(m, m', b + HEADER, length)
  {
    forall x: nat | b + HEADER <= x < b + HEADER + length ensures m'(x) == m(x) {
      PayloadNoHeader(before, arenas, b, x);
      PayloadNoHeader(after, arenas', b, x);
    }
  }

  // ----- Arena headers

  /** Byte `x` of the header of the `i`-th arena of the list. */
  function ArenaByte(list: seq<nat>, arenas: map<nat, Arena>, i: nat, x: nat): Byte
    requires i < |list| && list[i] in arenas && x < 32
  {
    if x < 8 then Le(arenas[list[i]].mapped, 8)[x]
    else if x < 16 then Le(arenas[list[i]].active, 8)[x - 8]
    else if x < 24 then Le(Before(list, i), 8)[x - 16]
    else Le(After(list, i), 8)[x - 24]
  }

  function Before(list: seq<nat>, i: nat): nat
    requires i < |list|
  {
    if i == 0 then 0 else list[i - 1]
  }

  function After(list: seq<nat>, i: nat): nat
    requires i < |list|
  {
    if i + 1 == |list| then 0 else list[i + 1]
  }

  ghost predicate ArenaAt(m: Memory, list: seq<nat>, arenas: map<nat, Arena>, i: nat)
    requires i < |list|
  {
    list[i] in arenas && forall x: nat :: list[i] <= x < list[i] + 32 ==>
      m(x) == ArenaByte(list, arenas, i, x - list[i])
  }

  /** Memory holds the header of every arena of the list, but perhaps those at the indices `todo`. */
  ghost predicate ArenasImaged(list: seq<nat>, arenas: map<nat, Arena>, m: Memory, todo: set<int>) {
    forall i :: 0 <= i < |list| && i !in todo ==> ArenaAt(m, list, arenas, i)
  }

  ghost predicate ArenaOnly(m: Memory, m': Memory, a: nat) {
    forall x: nat :: !(a <= x < a + 32) ==> m'(x) == m(x)
  }

  /** No block overlaps the header of an arena. */
  lemma ArenaNoBlock(blocks: Heap, arenas: map<nat, Arena>, a: nat, b: nat)
    requires Linked(blocks, arenas) && a in arenas && b in blocks
    ensures End(blocks, b) <= a || a + 32 <= b
  {
    assert InPlace(blocks, arenas, b) && InPlace(blocks, arenas, First(a));
  }

  lemma ArenasSpaced(blocks: Heap, arenas: map<nat, Arena>, a: nat, c: nat)
    requires Linked(blocks, arenas) && a in arenas && c in arenas && a != c
    ensures a + 32 <= c || c + 32 <= a
  {
    assert InPlace(blocks, arenas, First(a)) && InPlace(blocks, arenas, First(c));
  }

  /** Stores to block headers leave arena headers alone. */
  lemma HeadersSpareArenas(before: Heap, arenas: map<nat, Arena>, after: Heap, arenas': map<nat, Arena>,
                           m: Memory, m': Memory,
                           list: seq<nat>, todo: set<int>)
    requires Linked(before, arenas) && Linked(after, arenas') && HeadersOnly(m, m', before, after)
    requires ArenasImaged(list, arenas, m, todo) && forall a :: a in list ==> a in arenas && a in arenas'
    ensures ArenasImaged(list, arenas, m', todo)
  {
    forall i | 0 <= i < |list| && i !in todo ensures ArenaAt(m', list, arenas, i) {
      assert ArenaAt(m, list, arenas, i);
      forall x: nat | list[i] <= x < list[i] + 32 ensures m'(x) == m(x) {
        ArenaNoHeader(before, arenas, list[i], x);
        ArenaNoHeader(after, arenas', list[i], x);
      }
    }
  }

  lemma ArenaNoHeader(blocks: Heap, arenas: map<nat, Arena>, a: nat, x: nat)
    requires Linked(blocks, arenas) && a in arenas && a <= x < a + 32
    ensures !InHeader(blocks, x)
  {
    forall h | h in blocks ensures !(h <= x < h + HEADER) {
      ArenaNoBlock(blocks, arenas, a, h);
    }
  }

  /** Stores to an arena header leave blocks and payloads alone. */
  lemma ArenaSpares(blocks: Heap, arenas: map<nat, Arena>, m: Memory, m': Memory, a: nat)
    requires Linked(blocks, arenas) && a in arenas && ArenaOnly(m, m', a) && Imaged(blocks, m)
    ensures Imaged(blocks, m') && PayloadsKept(blocks, m, blocks, m', 0)
  {
    forall b | b in blocks ensures HeaderAt(m', b, blocks[b]) && SameBytes(m, m', b + HEADER, blocks[b].size) {
      assert HeaderAt(m, b, blocks[b]);
      ArenaNoBlock(blocks, arenas, a, b);
    }
  }

  function StoreArenaHeader(m: Memory, list: seq<nat>, arenas: map<nat, Arena>, i: nat): Memory
    requires i < |list| && list[i] in arenas
  {
    (x: nat) => if list[i] <= x < list[i] + 32 then ArenaByte(list, arenas, i, x - list[i]) else m(x)
  }

  lemma StoreArenaImaged(blocks: Heap, list: seq<nat>, arenas: map<nat, Arena>, m: Memory, todo: set<int>, i: nat)
    requires Linked(blocks, arenas) && Listed(list, arenas) && i < |list| && ArenasImaged(list, arenas, m, todo)
    ensures list[i] in arenas && ArenasImaged(list, arenas, StoreArenaHeader(m, list, arenas, i), todo - {i})
    ensures ArenaOnly(m, StoreArenaHeader(m, list, arenas, i), list[i])
  {
    var m' := StoreArenaHeader(m, list, arenas, i);
    forall j | 0 <= j < |list| && j !in todo - {i} ensures ArenaAt(m', list, arenas, j) {
      assert list[j] in arenas;
      if j != i {
        assert ArenaAt(m, list, arenas, j);
        ArenasSpaced(blocks, arenas, list[i], list[j]);
      }
    }
  }

  /** A write inside a payload leaves arena headers alone. */
  lemma PayloadSparesArenas(blocks: Heap, arenas: map<nat, Arena>, m: Memory, m': Memory, b: nat, list: seq<nat>)
    requires Linked(blocks, arenas) && Listed(list, arenas) && ArenasImaged(list, arenas, m, {}) && b in blocks
    requires forall x: nat :: !(b + HEADER <= x < End(blocks, b)) ==> m'(x) == m(x)
    ensures ArenasImaged(list, arenas, m', {})
  {
    forall i | 0 <= i < |list| ensures ArenaAt(m', list, arenas, i) {
      assert ArenaAt(m, list, arenas, i);
      assert list[i] in arenas;
      ArenaNoBlock(blocks, arenas, list[i], b);
    }
  }

  /** An arena whose four fields stay is still in memory. */
  lemma SameArena(list: seq<nat>, arenas: map<nat, Arena>, i: nat, list': seq<nat>, arenas': map<nat, Arena>, j: nat,
                  m: Memory)
    requires i < |list| && ArenaAt(m, list, arenas, i) && j < |list'| && list'[j] == list[i]
    requires list[i] in arenas && list[i] in arenas' && arenas'[list[i]] == arenas[list[i]]
    requires Before(list', j) == Before(list, i) && After(list', j) == After(list, i)
    ensures ArenaAt(m, list', arenas', j)
  {
    hide Le, Before, After;
  }

  /** A new count for the `i`-th arena. */
  lemma RecountImaged(list: seq<nat>, arenas: map<nat, Arena>, m: Memory, i: nat, active: nat)
    requires Listed(list, arenas) && ArenasImaged(list, arenas, m, {}) && i < |list|
    ensures list[i] in arenas
    ensures ArenasImaged(list, arenas[list[i] := arenas[list[i]].(active := active)], m, {i as int})
  {
    var after := arenas[list[i] := arenas[list[i]].(active := active)];
    hide ArenaAt;
    forall j | 0 <= j < |list| && j != i ensures ArenaAt(m, list, after, j) {
      SameArena(list, arenas, j, list, after, j, m);
    }
  }

  /** A new arena in front of the list. */
  lemma PrependImaged(list: seq<nat>, arenas: map<nat, Arena>, m: Memory, a: nat, arena: Arena)
    requires Listed(list, arenas) && ArenasImaged(list, arenas, m, {}) && a !in arenas
    ensures ArenasImaged([a] + list, arenas[a := arena], m, {0, 1})
  {
    var more, after := [a] + list, arenas[a := arena];
    hide ArenaAt;
    forall j | 0 <= j < |more| && j !in {0, 1} ensures ArenaAt(m, more, after, j) {
      SameArena(list, arenas, j - 1, more, after, j, m);
    }
  }

  /** The `i`-th arena taken out of the list. */
  lemma RemoveImaged(list: seq<nat>, arenas: map<nat, Arena>, m: Memory, i: nat)
    requires Listed(list, arenas) && ArenasImaged(list, arenas, m, {}) && i < |list|
    ensures ArenasImaged(list[..i] + list[i + 1..], arenas - {list[i]}, m, {i - 1, i as int})
  {
    hide ArenaAt;
    var less := list[..i] + list[i + 1..];
    forall j | 0 <= j < |less| && j !in {i - 1, i as int} ensures ArenaAt(m, less, arenas - {list[i]}, j) {
      var k := if j < i then j else j + 1;
      assert less[j] == list[k];
      SameArena(list, arenas, k, less, arenas - {list[i]}, j, m);
    }
  }

  lemma ListedIn(list: seq<nat>, arenas: map<nat, Arena>)
    requires Listed(list, arenas)
    ensures forall a :: a in list ==> a in arenas
  {
  }

  lemma SplitHas(blocks: Heap, arenas: map<nat, Arena>, b: nat, size: nat)
    requires Linked(blocks, arenas) && Neighbours2(blocks, b) && ALIGN <= size <= blocks[b].size
    requires Splits(blocks, b, size) ==> b + HEADER + size !in blocks
    ensures b in Split(blocks, b, size) && Linked(Split(blocks, b, size), arenas)
  {
    SplitLinked(blocks, arenas, b, size);
    assert InPlace(blocks, arenas, b);
  }

  lemma SoundParts(blocks: Heap, arenas: map<nat, Arena>, list: seq<nat>)
    requires Sound(blocks, arenas, list)
    ensures Linked(blocks, arenas) && Listed(list, arenas)
  {
  }

  lemma RestStored(list: seq<nat>, arenas: map<nat, Arena>, m: Memory, todo: set<int>)
    requires ArenasImaged(list, arenas, m, todo) && forall i :: i in todo ==> i < 0 || i >= |list|
    ensures ArenasImaged(list, arenas, m, {})
  {
  }

  /** Nobody lives in a dropped arena, so what the others keep is everything that was live. */
  lemma DroppedKept(blocks: Heap, a: nat, m: Memory, m': Memory)
    requires Used(blocks, a) == {} && PayloadsKept(Dropped(blocks, a), m, Dropped(blocks, a), m', 0)
    ensures PayloadsKept(blocks, m, blocks, m', 0)
  {
    forall x | x in blocks && !blocks[x].free && x != 0 ensures SameBytes(m, m', x + HEADER, blocks[x].size) {
      assert x !in Used(blocks, a);
      assert x in Dropped(blocks, a);
    }
  }

  lemma WasFree(b0: Heap, m0: Memory, b1: Heap, m1: Memory, b: nat)
    requires PayloadsKept(b0, m0, b1, m1, 0) && b in b1 && b1[b].free && b != 0
    ensures b in b0 ==> b0[b].free
  {
  }

  lemma NewSparesArenas(before: Heap, arenas: map<nat, Arena>, after: Heap, arenas': map<nat, Arena>,
                        m: Memory, m': Memory,
                        list: seq<nat>, a: nat)
    requires Linked(before, arenas) && Linked(after, arenas') && HeadersOnly(m, m', before, after) && a !in arenas
    requires Listed(list, arenas) && (forall c :: c in arenas ==> c in arenas' && c != a)
    requires ArenasImaged([a] + list, arenas', m, {0, 1})
    ensures ArenasImaged([a] + list, arenas', m', {0, 1})
  {
    var more := [a] + list;
    forall i | 0 <= i < |more| && i !in {0, 1} ensures ArenaAt(m', more, arenas', i) {
      assert ArenaAt(m, more, arenas', i);
      assert more[i] == list[i - 1] && list[i - 1] in list;
      forall x: nat | more[i] <= x < more[i] + 32 ensures m'(x) == m(x) {
        ArenaNoHeader(before, arenas, more[i], x);
        ArenaNoHeader(after, arenas', more[i], x);
      }
    }
  }

  lemma AllStored(list: seq<nat>, arenas: map<nat, Arena>, m: Memory, todo: set<int>)
    requires ArenasImaged(list, arenas, m, if |list| > 1 then todo - {1} else todo) && todo <= {1}
    ensures ArenasImaged(list, arenas, m, {})
  {
  }

  lemma PayloadsTrans(b0: Heap, m0: Memory, b1: Heap, m1: Memory, b2: Heap, m2: Memory, b: nat, c: nat)
    requires PayloadsKept(b0, m0, b1, m1, b) && PayloadsKept(b1, m1, b2, m2, c)
    requires c == b || c == 0 || c !in b1 || b1[c].free
    requires 0 !in b1
    ensures PayloadsKept(b0, m0, b2, m2, b)
  {
  }

  // ----- The allocator's invariant

  ghost predicate Listed(list: seq<nat>, arenas: map<nat, Arena>) {
    && (forall a :: a in list <==> a in arenas)
    && (forall i, j :: 0 <= i < j < |list| ==> list[i] != list[j])
  }

  ghost predicate OneIdle(arenas: map<nat, Arena>) {
    forall a, c :: a in arenas && c in arenas && arenas[a].active == 0 && arenas[c].active == 0 ==> a == c
  }

  ghost predicate Sound(blocks: Heap, arenas: map<nat, Arena>, list: seq<nat>) {
    && Linked(blocks, arenas) && Aligned(blocks) && Coalesced(blocks)
    && Counted(blocks, arenas) && Listed(list, arenas) && OneIdle(arenas)
  }

  /** A sound heap whose headers are all in memory. */
  ghost predicate Stored(blocks: Heap, arenas: map<nat, Arena>, list: seq<nat>, m: Memory) {
    Sound(blocks, arenas, list) && Imaged(blocks, m) && ArenasImaged(list, arenas, m, {})
  }

  lemma SplitAligned(blocks: Heap, arenas: map<nat, Arena>, b: nat, size: nat)
    requires Linked(blocks, arenas) && Neighbours2(blocks, b) && size <= blocks[b].size && size % 16 == 0
    requires Splits(blocks, b, size) ==> b + HEADER + size !in blocks
    requires Aligned(blocks)
    ensures Aligned(Split(blocks, b, size))
  {
    if Splits(blocks, b, size) {
      var cut := Cut(blocks, b, size);
      assert Aligned(cut);
      MergeAligned(cut, b + HEADER + size);
    }
  }

  lemma MergeAligned(blocks: Heap, b: nat)
    requires Neighbours2(blocks, b) && Aligned(blocks)
    ensures Aligned(Merge(blocks, b))
  {
  }

  // ----- Taking a free block

  function Take(blocks: Heap, b: nat, size: nat): Heap
    requires Neighbours2(blocks, b) && size <= blocks[b].size
    requires b + HEADER + size !in blocks || !Splits(blocks, b, size)
    requires b in Split(blocks, b, size)
  {
    Split(blocks, b, size)[b := Split(blocks, b, size)[b].(free := false)]
  }

  /** Flipping the free flag of a block does not move anything. */
  lemma FlipLinked(blocks: Heap, arenas: map<nat, Arena>, b: nat, free: bool)
    requires Linked(blocks, arenas) && b in blocks
    ensures Linked(blocks[b := blocks[b].(free := free)], arenas)
  {
    var r := blocks[b := blocks[b].(free := free)];
    forall x | x in r ensures InPlace(r, arenas, x) {
      FlipInPlace(blocks, arenas, b, free, x);
    }
  }

  lemma FlipInPlace(blocks: Heap, arenas: map<nat, Arena>, b: nat, free: bool, x: nat)
    requires Linked(blocks, arenas) && b in blocks && x in blocks
    ensures InPlace(blocks[b := blocks[b].(free := free)], arenas, x)
  {
    assert InPlace(blocks, arenas, x);
  }

  function One(free: bool): int {
    if free then 0 else 1
  }

  lemma FlipUsed(blocks: Heap, b: nat, free: bool)
    requires b in blocks
    ensures var r := blocks[b := blocks[b].(free := free)];
            forall a :: |Used(r, a)| == |Used(blocks, a)|
                                        + (if a == blocks[b].arena then One(free) - One(blocks[b].free) else 0)
  {
    var r := blocks[b := blocks[b].(free := free)];
    forall a ensures |Used(r, a)| == |Used(blocks, a)|
                                        + (if a == blocks[b].arena then One(free) - One(blocks[b].free) else 0)
    {
      if a != blocks[b].arena || free == blocks[b].free {
        assert Used(r, a) == Used(blocks, a);
      } else if free {
        assert Used(r, a) == Used(blocks, a) - {b};
      } else {
        assert Used(r, a) == Used(blocks, a) + {b};
      }
    }
  }

  /** Allocation keeps every invariant, whichever free block that fits it picks. */
  lemma TakeKeeps(blocks: Heap, arenas: map<nat, Arena>, b: nat, size: nat)
    requires Linked(blocks, arenas) && Aligned(blocks) && Coalesced(blocks) && Counted(blocks, arenas)
    requires b in blocks && blocks[b].free && ALIGN <= size <= blocks[b].size && size % 16 == 0
    ensures Neighbours2(blocks, b) && (Splits(blocks, b, size) ==> b + HEADER + size !in blocks)
    ensures b in Split(blocks, b, size) && blocks[b].arena in arenas
    ensures var r := Take(blocks, b, size);
            var a := blocks[b].arena;
            && Linked(r, arenas) && Aligned(r) && Coalesced(r) && OthersKept(blocks, r, b)
            && Counted(r, arenas[a := arenas[a].(active := arenas[a].active + 1)])
            && !r[b].free && size <= r[b].size < size + HEADER + ALIGN && r[b].arena == a
  {
    SplitLinked(blocks, arenas, b, size);
    SplitUsed(blocks, arenas, b, size);
    SplitCoalesced(blocks, arenas, b, size);
    SplitAligned(blocks, arenas, b, size);
    var s := Split(blocks, b, size);
    assert blocks[b].arena in arenas by { assert InPlace(blocks, arenas, b); }
    FlipLinked(s, arenas, b, false);
    FlipUsed(s, b, false);
    FlipCoalesced(s, b);
  }

  /** A used block closes its own border. */
  lemma FlipCoalesced(blocks: Heap, b: nat)
    requires b in blocks && CoalescedExcept(blocks, {b})
    ensures Coalesced(blocks[b := blocks[b].(free := false)])
  {
    var r := blocks[b := blocks[b].(free := false)];
    forall x | x in r ensures Bordered(r, x) {
      if x != b { assert Bordered(blocks, x); }
    }
  }

  // ----- Giving a block back

  function Give(blocks: Heap, b: nat): Heap
    requires b in blocks
  {
    blocks[b := blocks[b].(free := true)]
  }

  ghost predicate Released(blocks: Heap, after: Heap, arenas: map<nat, Arena>, b: nat) {
    && b in blocks && Linked(after, arenas) && Aligned(after) && Coalesced(after) && OthersKept(blocks, after, b)
    && (forall a :: |Used(after, a)| == |Used(blocks, a)| - (if a == blocks[b].arena then 1 else 0))
  }

  /** Half way: `b` is free and joined with its successor. */
  ghost predicate HalfReleased(blocks: Heap, m: Heap, arenas: map<nat, Arena>, b: nat) {
    && b in blocks && b in m && Linked(m, arenas) && Aligned(m) && OthersKept(blocks, m, b)
    && CoalescedExcept(m, if m[b].previous == 0 then {} else {m[b].previous})
    && (forall a :: |Used(m, a)| == |Used(blocks, a)| - (if a == blocks[b].arena then 1 else 0))
  }

  lemma GiveForward(blocks: Heap, arenas: map<nat, Arena>, b: nat)
    requires Linked(blocks, arenas) && Aligned(blocks) && Coalesced(blocks) && b in blocks && !blocks[b].free
    ensures Neighbours2(Give(blocks, b), b) && HalfReleased(blocks, Merge(Give(blocks, b), b), arenas, b)
  {
    var g := Give(blocks, b);
    FlipLinked(blocks, arenas, b, true);
    FlipUsed(blocks, b, true);
    MergeLinked(g, arenas, b);
    Neighbours(g, arenas, b);
    MergeUsed(g, b);
    GiveCoalesced(blocks, arenas, b);
    MergeAligned(g, b);
    var p := blocks[b].previous;
    MergeCoalesced(g, arenas, b, Open(b, p));
    assert Merge(g, b)[b].previous == p;
    assert Open(b, p) - {b} == if p == 0 then {} else {p};
  }

  lemma GiveBackward(blocks: Heap, m: Heap, arenas: map<nat, Arena>, b: nat)
    requires HalfReleased(blocks, m, arenas, b)
    ensures m[b].previous != 0 ==> Neighbours2(m, m[b].previous)
    ensures var p := m[b].previous;
            Released(blocks, if p != 0 && m[p].free then Merge(m, p) else m, arenas, b)
  {
    var p := m[b].previous;
    if p != 0 {
      Neighbours(m, arenas, b);
      MergeLinked(m, arenas, p);
      Neighbours(m, arenas, p);
      if m[p].free {
        MergeUsed(m, p);
        MergeAligned(m, p);
        MergeCoalesced(m, arenas, p, {p});
        ReleasedTwice(blocks, m, Merge(m, p), b, p);
      } else {
        assert Bordered(m, p);
      }
    }
  }

  /** Freeing merges on both sides, so no two free neighbours remain. */
  lemma GiveKeeps(blocks: Heap, arenas: map<nat, Arena>, b: nat)
    requires Linked(blocks, arenas) && Aligned(blocks) && Coalesced(blocks) && b in blocks && !blocks[b].free
    ensures Neighbours2(Give(blocks, b), b)
    ensures var m := Merge(Give(blocks, b), b);
            && b in m && (m[b].previous != 0 ==> Neighbours2(m, m[b].previous))
            && var p := m[b].previous;
               Released(blocks, if p != 0 && m[p].free then Merge(m, p) else m, arenas, b)
  {
    hide Linked, Aligned, Coalesced, Released;
    GiveForward(blocks, arenas, b);
    GiveBackward(blocks, Merge(Give(blocks, b), b), arenas, b);
  }

  /** The borders that freeing `b` may leave open: its own and its predecessor's. */
  ghost function Open(b: nat, previous: nat): set<nat> {
    if previous == 0 then {b} else {b, previous}
  }

  lemma GiveCoalesced(blocks: Heap, arenas: map<nat, Arena>, b: nat)
    requires Linked(blocks, arenas) && Coalesced(blocks) && b in blocks
    ensures CoalescedExcept(Give(blocks, b), Open(b, blocks[b].previous))
  {
    var g := Give(blocks, b);
    forall x | x in g && x !in Open(b, blocks[b].previous) ensures Bordered(g, x) {
      assert Bordered(blocks, x);
      assert InPlace(blocks, arenas, x);
    }
  }

  lemma ReleasedTwice(a: Heap, m: Heap, r: Heap, b: nat, p: nat)
    requires OthersKept(a, m, b) && OthersKept(m, r, p) && p in m && m[p].free
    ensures OthersKept(a, r, b)
  {
  }

  // ----- Stores

  /** Only bytes of headers in `hs` differ. */
  ghost predicate Touched(m: Memory, m': Memory, hs: set<nat>) {
    forall x: nat :: m'(x) != m(x) ==> exists h :: h in hs && h <= x < h + HEADER
  }

  lemma StoreTouches(m: Memory, m': Memory, hs: set<nat>, h: nat, k: Block)
    requires Touched(m, m', hs)
    ensures Touched(m, StoreHeader(m', h, k), hs + {h})
  {
    var m2 := StoreHeader(m', h, k);
    forall x: nat | m2(x) != m(x) ensures exists g :: g in hs + {h} && g <= x < g + HEADER {
      if h <= x < h + 36 {
        assert h in hs + {h};
      } else {
        var g :| g in hs && g <= x < g + HEADER;
        assert g in hs + {h};
      }
    }
  }

  lemma TouchedHeaders(m: Memory, m': Memory, hs: set<nat>, before: Heap, after: Heap)
    requires Touched(m, m', hs) && hs <= before.Keys + after.Keys
    ensures HeadersOnly(m, m', before, after)
  {
    forall x: nat | m'(x) != m(x) ensures InHeader(before, x) || InHeader(after, x) {
      var h :| h in hs && h <= x < h + HEADER;
    }
  }

  class Malloc {
    var blocks: Heap
    var arenas: map<nat, Arena>
    var list: seq<nat>  // arenas, most recently mapped first
    var bytes: Memory

    ghost predicate Valid()
      reads this
    {
      Stored(blocks, arenas, list, bytes)
    }

    constructor (memory: Memory)
      ensures Valid() && blocks == map[] && bytes == memory
    {
      blocks, arenas, list, bytes := map[], map[], [], memory;
    }

    method Store(b: nat, k: Block, ghost base: Memory, ghost hs: set<nat>, ghost keys: set<nat>)
      requires Touched(base, bytes, hs) && Imaged(blocks, bytes) && Within(blocks, keys) && b in keys
      modifies this`blocks, this`bytes
      ensures blocks == old(blocks)[b := k] && Touched(base, bytes, hs + {b}) && Imaged(blocks, bytes)
      ensures Within(blocks, keys)
    {
      hide Imaged, Spaced, StoreHeader, Touched;
      StoreTouches(base, bytes, hs, b, k);
      StoreImaged(blocks, bytes, keys, b, k);
      blocks := blocks[b := k];
      bytes := StoreHeader(bytes, b, k);
    }

    /** Writes the header of the `i`-th arena. */
    method StoreArena(i: nat, ghost todo: set<int>)
      requires Linked(blocks, arenas) && Listed(list, arenas) && i < |list|
      requires Imaged(blocks, bytes) && ArenasImaged(list, arenas, bytes, todo)
      modifies this`bytes
      ensures Imaged(blocks, bytes) && ArenasImaged(list, arenas, bytes, todo - {i})
      ensures PayloadsKept(blocks, old(bytes), blocks, bytes, 0)
    {
      hide Linked, Listed, Imaged, ArenasImaged, PayloadsKept, ArenaOnly;
      StoreArenaImaged(blocks, list, arenas, bytes, todo, i);
      var m := bytes;
      bytes := StoreArenaHeader(m, list, arenas, i);
      ArenaSpares(blocks, arenas, m, bytes, list[i]);
    }

    method SplitBlock(b: nat, size: nat)
      requires Linked(blocks, arenas) && Imaged(blocks, bytes) && b in blocks && ALIGN <= size <= blocks[b].size
      modifies this`blocks, this`bytes
      ensures Imaged(blocks, bytes)
      ensures Neighbours2(old(blocks), b) && (Splits(old(blocks), b, size) ==> b + HEADER + size !in old(blocks))
      ensures blocks == Split(old(blocks), b, size) && HeadersOnly(old(bytes), bytes, old(blocks), blocks)
    {
      hide Linked, HeadersOnly, Merge, Imaged, Cut, Touched;
      SplitLinked(blocks, arenas, b, size);
      Neighbours(blocks, arenas, b);
      ghost var m, before := bytes, blocks;
      var remaining := blocks[b].size - size;
      if remaining < HEADER + ALIGN {
        NothingTouched(m);
        TouchedHeaders(m, m, {}, blocks, blocks);
        return;
      }
      CutBlock(b, size);
      ghost var m1 := bytes;
      CutFacts(before, b, size);
      NoNull(before, arenas);
      MergeNext(b + HEADER + size);
      MergeKeeps(Cut(before, b, size), b + HEADER + size);
      HeadersTrans(m, m1, bytes, before, Cut(before, b, size), blocks);
    }

    /** The stores of a split before the merge of the tail. */
    method CutBlock(b: nat, size: nat)
      requires Linked(blocks, arenas) && Imaged(blocks, bytes) && Neighbours2(blocks, b)
      requires ALIGN <= size <= blocks[b].size && Splits(blocks, b, size) && b + HEADER + size !in blocks
      modifies this`blocks, this`bytes
      ensures Imaged(blocks, bytes) && blocks == Cut(old(blocks), b, size) && Linked(blocks, arenas)
      ensures HeadersOnly(old(bytes), bytes, old(blocks), blocks)
    {
      hide Linked, HeadersOnly, Touched, Imaged, Within, Cut;
      ghost var m, before := bytes, blocks;
      NothingTouched(m);
      Neighbours(before, arenas, b);
      NoNull(before, arenas);
      CutLinked(before, arenas, b, size);
      CutStores(before, b, size);
      CutFacts(before, b, size);
      var k := blocks[b];
      var s := b + HEADER + size;
      ghost var keys := Cut(before, b, size).Keys;
      LinkedSpaced(Cut(before, b, size), arenas);
      CutWithin(before, b, size);
      Store(s, Block(k.size - size - HEADER, b, k.next, k.arena, true), m, {}, keys);
      ghost var hs := {} + {s};
      if k.next != 0 {
        Store(k.next, blocks[k.next].(previous := s), m, hs, keys);
        hs := hs + {k.next};
      }
      Store(b, blocks[b].(next := s, size := size), m, hs, keys);
      assert blocks == Cut(before, b, size);
      TouchedHeaders(m, bytes, hs + {b}, before, blocks);
    }

    method MergeNext(b: nat)
      requires Linked(blocks, arenas) && Imaged(blocks, bytes) && b in blocks
      modifies this`blocks, this`bytes
      ensures Imaged(blocks, bytes)
      ensures Neighbours2(old(blocks), b) && blocks == Merge(old(blocks), b)
      ensures HeadersOnly(old(bytes), bytes, old(blocks), blocks)
    {
      hide Linked, HeadersOnly, Touched, Imaged, Within, Merge;
      MergeLinked(blocks, arenas, b);
      Neighbours(blocks, arenas, b);
      NoNull(blocks, arenas);
      MergeStores(blocks, b);
      ghost var m, keys, before := bytes, blocks.Keys, blocks;
      NothingTouched(m);
      var n := blocks[b].next;
      if n == 0 || !blocks[n].free {
        TouchedHeaders(m, m, {}, blocks, blocks);
        return;
      }
      LinkedSpaced(blocks, arenas);
      var next := blocks[n];
      Store(b, blocks[b].(size := blocks[b].size + HEADER + next.size, next := next.next), m, {}, keys);
      ghost var hs := {} + {b};
      if next.next != 0 {
        Store(next.next, blocks[next.next].(previous := b), m, hs, keys);
        hs := hs + {next.next};
      }
      ImagedPart(blocks, blocks - {n}, bytes);
      blocks := blocks - {n};
      MergeTouched(m, bytes, hs, before, b, blocks);
    }

    // ----- Searching

    /** First fit: arenas in list order, blocks in address order. */
    method FindBlock(size: nat) returns (b: nat)
      requires Linked(blocks, arenas) && Listed(list, arenas)
      ensures b != 0 ==> b in blocks && Fits(blocks, b, size)
      ensures b != 0 ==> forall x :: x in blocks && blocks[x].arena == blocks[b].arena && x < b ==>
                !Fits(blocks, x, size)
      ensures b == 0 ==> forall x :: x in blocks ==> !Fits(blocks, x, size)
      ensures b != 0 ==> exists i :: 0 <= i < |list| && list[i] == blocks[b].arena && NoneFits(blocks, list[..i], size)
      ensures b != 0 ==> FirstFit(blocks, list, b, size)
    {
      var i := 0;
      while i < |list|
        invariant 0 <= i <= |list|
        invariant forall x :: x in blocks && blocks[x].arena in list[..i] ==> !Fits(blocks, x, size)
      {
        b := FindInArena(list[i], size);
        if b != 0 {
          assert NoneFits(blocks, list[..i], size);
          return;
        }
        assert list[..i + 1] == list[..i] + [list[i]];
        i := i + 1;
      }
      assert list[..i] == list;
      forall x | x in blocks ensures !Fits(blocks, x, size) {
        assert InPlace(blocks, arenas, x);
      }
      b := 0;
    }

    method FindInArena(a: nat, size: nat) returns (b: nat)
      requires Linked(blocks, arenas) && a in arenas
      ensures b != 0 ==> b in blocks && blocks[b].arena == a && Fits(blocks, b, size)
      ensures forall x :: x in blocks && blocks[x].arena == a && (b == 0 || x < b) ==> !Fits(blocks, x, size)
    {
      b := First(a);
      forall x | x in blocks && blocks[x].arena == a ensures x >= b {
        assert InPlace(blocks, arenas, x);
      }
      while b != 0
        invariant b != 0 ==> b in blocks && blocks[b].arena == a
        invariant forall x :: x in blocks && blocks[x].arena == a && (b == 0 || x < b) ==> !Fits(blocks, x, size)
        decreases if b == 0 then 0 else 1, a + arenas[a].mapped - b
      {
        assert InPlace(blocks, arenas, b);
        if blocks[b].free && blocks[b].size >= size {
          return;
        }
        var next := blocks[b].next;
        forall x | x in blocks && blocks[x].arena == a && (next == 0 || x < next) ensures !Fits(blocks, x, size) {
          if x > b {
            BlocksOrdered(blocks, arenas, b, x);
            assert InPlace(blocks, arenas, x);
          }
        }
        b := next;
      }
    }

    // ----- Allocating

    /** Maps a new arena at `region`, the address mmap returned (0 when it failed). */
    method CreateArena(size: nat, region: nat) returns (arena: nat)
      requires Linked(blocks, arenas) && Aligned(blocks) && Coalesced(blocks) && Counted(blocks, arenas)
      requires Listed(list, arenas)
      requires Imaged(blocks, bytes) && ArenasImaged(list, arenas, bytes, {})
      requires size >= ALIGN && (region != 0 ==> Gap(arenas, region, MappedFor(size)))
      modifies this
      ensures Linked(blocks, arenas) && Aligned(blocks) && Coalesced(blocks) && Counted(blocks, arenas)
      ensures Listed(list, arenas)
      ensures Imaged(blocks, bytes) && ArenasImaged(list, arenas, bytes, {})
      ensures arena == 0 <==> region == 0 || size > SIZE_MAX - OVERHEAD - (PAGE_SIZE - 1)
      ensures arena == 0 ==> blocks == old(blocks) && arenas == old(arenas) && list == old(list) && bytes == old(bytes)
      ensures arena != 0 ==> blocks.Keys == old(blocks).Keys + {First(arena)}
      ensures arena != 0 ==> arena !in old(arenas) && First(arena) in blocks && Fits(blocks, First(arena), size)
      ensures arena != 0 ==>
                arena == region && blocks[First(arena)].arena == arena
                && arenas == old(arenas)[arena := Arena(MappedFor(size), 0)]
                && arenas.Keys == old(arenas).Keys + {region}
      ensures PayloadsKept(old(blocks), old(bytes), blocks, bytes, 0)
    {
      hide Linked, Coalesced, Counted, Aligned, Listed, HeadersOnly, Imaged, ArenasImaged, PayloadsKept, OthersKept,
           Gap;
      if size > SIZE_MAX - OVERHEAD - (PAGE_SIZE - 1) || region == 0 {
        SameHeapKept(blocks, bytes);
        return 0;
      }
      ghost var blocks0, m0, list0 := blocks, bytes, list;
      NewArena(size, region);
      ghost var m1 := bytes;
      NoNull(blocks, arenas);
      StoreArena(0, {0, 1});
      PayloadsTrans(blocks0, m0, blocks, m1, blocks, bytes, 0, 0);
      ghost var m2 := bytes;
      if |list| > 1 {
        StoreArena(1, {0, 1} - {0});
        PayloadsTrans(blocks0, m0, blocks, m2, blocks, bytes, 0, 0);
      }
      AllStored(list, arenas, bytes, {0, 1} - {0});
      return region;
    }

    /** The new arena with its one block, before the arena headers are written. */
    method NewArena(size: nat, region: nat)
      requires Linked(blocks, arenas) && Aligned(blocks) && Coalesced(blocks) && Counted(blocks, arenas)
      requires Listed(list, arenas)
      requires Imaged(blocks, bytes) && ArenasImaged(list, arenas, bytes, {})
      requires ALIGN <= size <= SIZE_MAX - OVERHEAD - (PAGE_SIZE - 1) && region != 0
      requires Gap(arenas, region, MappedFor(size))
      modifies this
      ensures Linked(blocks, arenas) && Aligned(blocks) && Coalesced(blocks) && Counted(blocks, arenas)
      ensures Listed(list, arenas)
      ensures Imaged(blocks, bytes) && ArenasImaged(list, arenas, bytes, {0, 1}) && list == [region] + old(list)
      ensures blocks.Keys == old(blocks).Keys + {First(region)}
      ensures region !in old(arenas) && First(region) in blocks && Fits(blocks, First(region), size)
      ensures arenas == old(arenas)[region := Arena(MappedFor(size), 0)] && blocks[First(region)].arena == region
      ensures PayloadsKept(old(blocks), old(bytes), blocks, bytes, 0)
    {
      hide Linked, Coalesced, Counted, HeadersOnly, Touched, Imaged, Within, ArenasImaged, PayloadsKept;
      ghost var m, blocks0, arenas0, list0 := bytes, blocks, arenas, list;
      NothingTouched(m);
      var required := PageUp(size + OVERHEAD);
      var mapped := if required > ARENA_SIZE then required else ARENA_SIZE;
      CreateKeeps(blocks, arenas, region, mapped);
      PrependImaged(list, arenas, m, region, Arena(mapped, 0));
      arenas := arenas[region := Arena(mapped, 0)];
      list := [region] + list;
      var first := Block(mapped - OVERHEAD, 0, 0, region, true);
      LinkedSpaced(blocks[First(region) := first], arenas);
      WithinMore(blocks, First(region), first);
      Store(First(region), first, m, {}, blocks[First(region) := first].Keys);
      TouchedHeaders(m, bytes, {} + {First(region)}, blocks0, blocks);
      NewSparesArenas(blocks0, arenas0, blocks, arenas, m, bytes, list0, region);
      HeadersSparePayloads(blocks0, m, arenas0, blocks, bytes, arenas, 0);
    }

    /** A payload of at least `size` bytes, or 0 only when no block fits and no arena can be had. */
    method Allocate(size: nat, region: nat) returns (p: nat)
      requires Valid() && size <= SIZE_MAX && (region != 0 ==> Gap(arenas, region, MappedFor(Rounded(size))))
      modifies this
      ensures Valid()
      ensures p == 0 ==> blocks == old(blocks) && arenas == old(arenas) && list == old(list) && bytes == old(bytes)
      ensures p == 0 ==>
                region == 0 || Rounded(size) > SIZE_MAX - OVERHEAD - (PAGE_SIZE - 1) || size > SIZE_MAX - (ALIGN - 1)
      ensures p == 0 && size <= SIZE_MAX - (ALIGN - 1) ==> forall x :: x in blocks ==> !Fits(blocks, x, Rounded(size))
      ensures p != 0 ==> p % 16 == 0 && p >= HEADER && p - HEADER in blocks && !blocks[p - HEADER].free
      ensures p != 0 ==> size <= SIZE_MAX - (ALIGN - 1)
      ensures p != 0 ==> Rounded(size) <= blocks[p - HEADER].size < Rounded(size) + HEADER + ALIGN
      ensures p != 0 ==>
                Chosen(old(blocks), old(list), p - HEADER, Rounded(size), region, old(arenas).Keys, arenas.Keys)
      ensures p != 0 ==> !(p - HEADER in old(blocks) && !old(blocks)[p - HEADER].free)
      ensures PayloadsKept(old(blocks), old(bytes), blocks, bytes, 0)
    {
      hide Linked, Coalesced, Counted, HeadersOnly, Touched, OthersKept, PayloadsKept, Aligned, Take, Split, Imaged,
           ArenasImaged, Chosen;
      ghost var blocks0, m0 := blocks, bytes;
      SameHeapKept(blocks, bytes);
      var n := if size == 0 then 1 else size;
      if n > SIZE_MAX - (ALIGN - 1) {
        return 0;
      }
      n := AlignUp(n);
      var b := FreeBlock(n, region);
      if b == 0 {
        return 0;
      }
      ghost var blocks1, m1 := blocks, bytes;
      NoNull(blocks, arenas);
      WasFree(blocks0, m0, blocks1, m1, b);
      p := TakeBlock(b, n);
      PayloadsTrans(blocks0, m0, blocks1, m1, blocks, bytes, 0, b);
    }

    /** A free block for a rounded request, out of a new arena if need be. */
    method FreeBlock(size: nat, region: nat) returns (b: nat)
      requires Valid() && ALIGN <= size <= SIZE_MAX && (region != 0 ==> Gap(arenas, region, MappedFor(size)))
      modifies this
      ensures Linked(blocks, arenas) && Aligned(blocks) && Coalesced(blocks) && Counted(blocks, arenas)
      ensures Listed(list, arenas)
      ensures Imaged(blocks, bytes) && ArenasImaged(list, arenas, bytes, {})
      ensures b == 0 ==> blocks == old(blocks) && arenas == old(arenas) && list == old(list) && bytes == old(bytes)
      ensures b == 0 ==> region == 0 || size > SIZE_MAX - OVERHEAD - (PAGE_SIZE - 1)
      ensures b == 0 ==> forall x :: x in blocks ==> !Fits(blocks, x, size)
      ensures b != 0 ==> b in blocks && Fits(blocks, b, size)
      ensures b != 0 ==> Chosen(old(blocks), old(list), b, size, region, old(arenas).Keys, arenas.Keys)
      ensures b != 0 ==> forall a, c ::
                a in arenas && c in arenas && arenas[a].active == 0 && arenas[c].active == 0 ==>
                  a == c || a == blocks[b].arena || c == blocks[b].arena
      ensures PayloadsKept(old(blocks), old(bytes), blocks, bytes, 0)
    {
      hide Linked, Coalesced, Counted, HeadersOnly, Touched, OthersKept, PayloadsKept, Aligned, Imaged, ArenasImaged,
           Chosen, FirstFit, Listed;
      SameHeapKept(blocks, bytes);
      b := FindBlock(size);
      FoundOrNew(blocks, list, b, size, region, arenas.Keys);
      if b == 0 {
        var arena := CreateArena(size, region);
        if arena == 0 {
          return 0;
        }
        b := First(arena);
      }
    }

    method TakeBlock(b: nat, size: nat) returns (p: nat)
      requires Linked(blocks, arenas) && Aligned(blocks) && Coalesced(blocks) && Counted(blocks, arenas)
      requires Listed(list, arenas)
      requires Imaged(blocks, bytes) && ArenasImaged(list, arenas, bytes, {})
      requires b in blocks && Fits(blocks, b, size) && size >= ALIGN && size % 16 == 0
      requires forall a, c :: a in arenas && c in arenas && arenas[a].active == 0 && arenas[c].active == 0 ==>
                 a == c || a == blocks[b].arena || c == blocks[b].arena
      modifies this`blocks, this`bytes, this`arenas
      ensures Valid() && p == b + HEADER && p % 16 == 0
      ensures b in blocks && !blocks[b].free && size <= blocks[b].size < size + HEADER + ALIGN
      ensures PayloadsKept(old(blocks), old(bytes), blocks, bytes, b) && arenas.Keys == old(arenas).Keys
    {
      hide Linked, Coalesced, HeadersOnly, OthersKept, Counted, Aligned, Take, Listed, Imaged, ArenasImaged,
           PayloadsKept, OneIdle;
      ghost var blocks0, m0, arenas0 := blocks, bytes, arenas;
      var a := blocks[b].arena;
      TakeKeeps(blocks, arenas, b, size);
      TakeIdle(arenas, list, a);
      AlignedAt(blocks, b);
      UseBlock(b, size);
      HeadersSparePayloads(blocks0, m0, arenas, blocks, bytes, arenas, b);
      ListedIn(list, arenas);
      HeadersSpareArenas(blocks0, arenas, blocks, arenas, m0, bytes, list, {});
      ghost var m1 := bytes;
      NoNull(blocks, arenas);
      Count(a, arenas[a].active + 1);
      PayloadsTrans(blocks0, m0, blocks, m1, blocks, bytes, b, 0);
      return b + HEADER;
    }

    /** Gives an arena a new count of live blocks. */
    method Count(a: nat, active: nat)
      requires Linked(blocks, arenas) && Listed(list, arenas) && a in arenas
      requires Imaged(blocks, bytes) && ArenasImaged(list, arenas, bytes, {})
      modifies this`arenas, this`bytes
      ensures arenas == old(arenas)[a := old(arenas)[a].(active := active)]
      ensures Linked(blocks, arenas) && Imaged(blocks, bytes) && ArenasImaged(list, arenas, bytes, {})
      ensures PayloadsKept(blocks, old(bytes), blocks, bytes, 0)
    {
      hide Linked, Imaged, ArenasImaged, PayloadsKept;
      ActiveLinked(blocks, arenas, a, active);
      var i := IndexOf(a);
      RecountImaged(list, arenas, bytes, i, active);
      arenas := arenas[a := arenas[a].(active := active)];
      StoreArena(i, {i as int});
      assert {i as int} - {i as int} == {};
    }

    /** Splits a free block and marks it used. */
    method UseBlock(b: nat, size: nat)
      requires Linked(blocks, arenas) && Imaged(blocks, bytes) && b in blocks && ALIGN <= size <= blocks[b].size
      modifies this`blocks, this`bytes
      ensures Neighbours2(old(blocks), b) && (Splits(old(blocks), b, size) ==> b + HEADER + size !in old(blocks))
      ensures b in Split(old(blocks), b, size) && blocks == Take(old(blocks), b, size) && b in blocks
      ensures Imaged(blocks, bytes) && HeadersOnly(old(bytes), bytes, old(blocks), blocks)
    {
      hide Linked, HeadersOnly, Touched, Split, Imaged, Within;
      SplitLinked(blocks, arenas, b, size);
      ghost var before := blocks;
      SplitBlock(b, size);
      SplitHas(before, arenas, b, size);
      ghost var m1, blocks1 := bytes, blocks;
      NothingTouched(m1);
      LinkedSpaced(blocks, arenas);
      Store(b, blocks[b].(free := false), m1, {}, blocks.Keys);
      TouchedHeaders(m1, bytes, {} + {b}, blocks1, blocks);
      HeadersTrans(old(bytes), m1, bytes, before, blocks1, blocks);
    }

    /** Where an arena is in the list. */
    method IndexOf(a: nat) returns (i: nat)
      requires Listed(list, arenas) && a in arenas
      ensures i < |list| && list[i] == a
    {
      i := 0;
      while list[i] != a
        invariant 0 <= i < |list| && a in list[i..]
        decreases |list| - i
      {
        i := i + 1;
      }
    }

    // ----- Releasing

    /** Frees a live payload.  An arena left without live blocks is unmapped unless it is the only one. */
    method Release(p: nat)
      requires Valid() && (p != 0 ==> Live(blocks, p))
      modifies this
      ensures Valid()
      ensures p == 0 ==> blocks == old(blocks) && arenas == old(arenas) && list == old(list) && bytes == old(bytes)
      ensures p != 0 ==> PayloadsKept(old(blocks), old(bytes), blocks, bytes, p - HEADER)
      ensures p != 0 ==> (p - HEADER in blocks ==> blocks[p - HEADER].free)
      ensures p != 0 ==>
                var a := old(blocks)[p - HEADER].arena;
                a in old(arenas) && arenas.Keys == LeftAfter(old(arenas), old(list), a)
    {
      if p == 0 {
        return;
      }
      hide *;
      var b := p - HEADER;
      var arena := blocks[b].arena;
      ghost var blocks0, m0 := blocks, bytes;
      ReleaseReady(blocks, arenas, list, p);
      FreeAndMerge(b);
      ReleaseCounts(blocks0, blocks, arenas, list, b);
      HeadersSparePayloads(blocks0, m0, arenas, blocks, bytes, arenas, b);
      ListedIn(list, arenas);
      HeadersSpareArenas(blocks0, arenas, blocks, arenas, m0, bytes, list, {});
      ghost var merged, m1 := blocks, bytes;
      NoNull(blocks, arenas);
      Uncount(arena);
      PayloadsTrans(blocks0, m0, merged, m1, merged, bytes, b, 0);
      if blocks != merged {
        DropPayloads(blocks0, m0, merged, bytes, b, arena);
      }
      ReleasedFree(merged, blocks, b, arena);
    }

    /** One live block fewer in `arena`; an arena with none is unmapped unless it is the only one. */
    method Uncount(arena: nat)
      requires Linked(blocks, arenas) && Aligned(blocks) && Coalesced(blocks) && arena in arenas
      requires Imaged(blocks, bytes)
      requires Settling(blocks, arenas, list, arena) && Listed(list, arenas) && ArenasImaged(list, arenas, bytes, {})
      modifies this`list, this`arenas, this`blocks, this`bytes
      ensures Valid()
      ensures blocks == old(blocks)
              || (Used(old(blocks), arena) == {} && blocks == Dropped(old(blocks), arena))
      ensures arenas.Keys == LeftAfter(old(arenas), old(list), arena)
      ensures PayloadsKept(old(blocks), old(bytes), old(blocks), bytes, 0)
    {
      hide Linked, Coalesced, Counted, Aligned, Listed, OneIdle, Imaged, ArenasImaged, PayloadsKept;
      ghost var m0 := bytes;
      Count(arena, arenas[arena].active - 1);
      if arenas[arena].active != 0 || list == [arena] {
        return;
      }
      ghost var m1, blocks1 := bytes, blocks;
      NoNull(blocks, arenas);
      NobodyLeft(blocks, arenas, arena);
      DropArena(arena);
      PayloadsTrans(blocks1, m0, blocks1, m1, blocks1, bytes, 0, 0);
    }

    /** Unlinks an arena and unmaps it. */
    method DropArena(arena: nat)
      requires Linked(blocks, arenas) && Aligned(blocks) && Coalesced(blocks) && Counted(blocks, arenas)
      requires Listed(list, arenas)
      requires arena in list && OneIdle(arenas - {arena}) && Imaged(blocks, bytes)
      requires ArenasImaged(list, arenas, bytes, {})
      requires Used(blocks, arena) == {}
      modifies this`list, this`arenas, this`blocks, this`bytes
      ensures Valid() && blocks == Dropped(old(blocks), arena) && arenas == old(arenas) - {arena}
      ensures PayloadsKept(old(blocks), old(bytes), old(blocks), bytes, 0)
    {
      hide Linked, Coalesced, Counted, Aligned, Listed, OneIdle, Sound, Imaged, ArenasImaged, PayloadsKept;
      ghost var blocks0, m0 := blocks, bytes;
      assert arena in arenas by { ListedIn(list, arenas); }
      var i := IndexOf(arena);
      DropKeeps(blocks, arenas, list, arena, i);
      RemoveImaged(list, arenas, bytes, i);
      ImagedPart(blocks, Dropped(blocks, arena), bytes);
      list := list[..i] + list[i + 1..];
      arenas := arenas - {arena};
      blocks := Dropped(blocks, arena);
      SoundParts(blocks, arenas, list);
      SameHeapKept(blocks, m0);
      ghost var todo := {i - 1, i as int};
      if i > 0 {
        StoreArena(i - 1, todo);
        todo := todo - {i - 1};
      }
      ghost var m1 := bytes;
      NoNull(blocks, arenas);
      if i < |list| {
        StoreArena(i, todo);
        PayloadsTrans(blocks, m0, blocks, m1, blocks, bytes, 0, 0);
        todo := todo - {i as int};
      }
      RestStored(list, arenas, bytes, todo);
      DroppedKept(blocks0, arena, m0, bytes);
    }

    method FreeAndMerge(b: nat)
      requires Linked(blocks, arenas) && Aligned(blocks) && Coalesced(blocks) && b in blocks && !blocks[b].free
      requires Imaged(blocks, bytes)
      modifies this`blocks, this`bytes
      ensures Imaged(blocks, bytes)
      ensures Released(old(blocks), blocks, arenas, b) && HeadersOnly(old(bytes), bytes, old(blocks), blocks)
      ensures b in blocks ==> blocks[b].free
    {
      hide Linked, Coalesced, HeadersOnly, Touched, OthersKept, Aligned, Merge, Released, Imaged, Spaced;
      LinkedSpaced(blocks, arenas);
      ghost var blocks0, m0 := blocks, bytes;
      GiveForward(blocks, arenas, b);
      GiveBackward(blocks, Merge(Give(blocks, b), b), arenas, b);
      FlipLinked(blocks, arenas, b, true);
      NothingTouched(m0);
      Store(b, blocks[b].(free := true), m0, {}, blocks.Keys);
      TouchedHeaders(m0, bytes, {} + {b}, blocks0, blocks);
      ghost var m1, blocks1 := bytes, blocks;
      MergeNext(b);
      MergeFacts(blocks1, arenas, b);
      HeadersTrans(m0, m1, bytes, blocks0, blocks1, blocks);
      var previous := blocks[b].previous;
      if previous != 0 && blocks[previous].free {
        ghost var m2, blocks2 := bytes, blocks;
        MergeNext(previous);
        MergeFacts(blocks2, arenas, previous);
        HeadersTrans(m0, m2, bytes, blocks0, blocks2, blocks);
      }
    }

    // ----- Resizing

    /** Shrinks or grows a live payload in place; fails only when the successor cannot supply the room. */
    method Resize(p: nat, size: nat) returns (ok: bool)
      requires Valid() && Live(blocks, p) && 0 < size <= SIZE_MAX
      modifies this`blocks, this`bytes
      ensures Valid() && Live(blocks, p)
      ensures !ok ==> blocks == old(blocks) && bytes == old(bytes)
      ensures ok <==> size <= SIZE_MAX - (ALIGN - 1) && CanHold(old(blocks), p - HEADER, AlignUp(size))
      ensures ok ==> size <= AlignUp(size) <= blocks[p - HEADER].size < AlignUp(size) + HEADER + ALIGN
      ensures PayloadsKept(old(blocks), old(bytes), blocks, bytes, p - HEADER)
      ensures SameBytes(old(bytes), bytes, p, Min(old(blocks)[p - HEADER].size, blocks[p - HEADER].size))
    {
      hide Linked, Coalesced, HeadersOnly, Touched, OthersKept, Counted, Aligned, Listed, OneIdle, PayloadsKept,
           Merge, Split, Imaged, ArenasImaged;
      var b := p - HEADER;
      ghost var blocks0, m0 := blocks, bytes;
      SameHeap(blocks, bytes);
      HeadersSparePayloads(blocks, m0, arenas, blocks, m0, arenas, b) by { SameHeapBut(blocks, b); }
      if size > SIZE_MAX - (ALIGN - 1) {
        return false;
      }
      var n := AlignUp(size);
      if blocks[b].size >= n {
        ShrinkKeeps(blocks, arenas, list, b, n);
        SplitBlock(b, n);
        HeadersSparePayloads(blocks0, m0, arenas, blocks, bytes, arenas, b);
        HeadersSparePrefix(blocks0, m0, arenas, blocks, bytes, arenas, b, blocks[b].size);
        ListedIn(list, arenas);
        HeadersSpareArenas(blocks0, arenas, blocks, arenas, m0, bytes, list, {});
        return true;
      }
      Neighbours(blocks, arenas, b);
      var next := blocks[b].next;
      if next == 0 || !blocks[next].free || blocks[b].size + HEADER + blocks[next].size < n {
        return false;
      }
      GrowKeeps(blocks, arenas, list, b, n);
      MergeNext(b);
      ghost var m1, blocks1 := bytes, blocks;
      MergeFacts(blocks0, arenas, b);
      ShrinkKeeps(blocks, arenas, list, b, n);
      SplitBlock(b, n);
      GrowTrans(blocks0, blocks1, blocks, m0, m1, bytes, b);
      HeadersSparePayloads(blocks0, m0, arenas, blocks, bytes, arenas, b);
      HeadersSparePrefix(blocks0, m0, arenas, blocks, bytes, arenas, b, blocks0[b].size);
      ListedIn(list, arenas);
      HeadersSpareArenas(blocks0, arenas, blocks, arenas, m0, bytes, list, {});
      return true;
    }

    /** memcpy between two payloads. */
    method CopyBytes(to: nat, from: nat, length: nat)
      requires Live(blocks, to) && length <= blocks[to - HEADER].size
      requires Live(blocks, from) && length <= blocks[from - HEADER].size && Linked(blocks, arenas)
      requires Imaged(blocks, bytes)
      requires Listed(list, arenas) && ArenasImaged(list, arenas, bytes, {})
      modifies this`bytes
      ensures Imaged(blocks, bytes) && ArenasImaged(list, arenas, bytes, {})
      ensures Slice(bytes, to, length) == Slice(old(bytes), from, length)
      ensures forall x: nat :: !(to <= x < to + length) ==> bytes(x) == old(bytes)(x)
    {
      hide Linked, Imaged, ArenasImaged, Listed;
      var m := bytes;
      bytes := (x: nat) => if to <= x < to + length then m(x - to + from) else m(x);
      PayloadImaged(blocks, arenas, m, bytes, to - HEADER);
      PayloadSparesArenas(blocks, arenas, m, bytes, to - HEADER, list);
    }

    /** Keeps the first min(old, new) bytes whichever way the block is resized or moved. */
    method Realloc(p: nat, size: nat, region: nat) returns (q: nat)
      requires Valid() && (p != 0 ==> Live(blocks, p)) && size <= SIZE_MAX
      requires region != 0 ==> Gap(arenas, region, MappedFor(Rounded(size)))
      modifies this
      ensures Valid()
      ensures p != 0 && size == 0 ==> q == 0
      ensures p != 0 && (size == 0 || (q != 0 && q != p)) ==> (p - HEADER in blocks ==> blocks[p - HEADER].free)
      ensures p != 0 && size != 0 ==>
                (q == p <==> size <= SIZE_MAX - (ALIGN - 1) && CanHold(old(blocks), p - HEADER, AlignUp(size)))
      ensures q == 0 && (p == 0 || size != 0) ==> region == 0 || size > SIZE_MAX - OVERHEAD - PAGE_SIZE - ALIGN
      ensures q != 0 ==> Live(blocks, q) && blocks[q - HEADER].size >= size
      ensures p != 0 && q != 0 ==>
                var n := Min(old(blocks)[p - HEADER].size, blocks[q - HEADER].size);
                Slice(bytes, q, n) == Slice(old(bytes), p, n)
      ensures p != 0 && q == 0 && size != 0 ==> blocks == old(blocks) && bytes == old(bytes)
      ensures PayloadsKept(old(blocks), old(bytes), blocks, bytes, if p == 0 then 0 else p - HEADER)
    {
      hide Linked, Coalesced, HeadersOnly, Touched, OthersKept, Counted, Aligned, Listed, OneIdle, PayloadsKept, Imaged,
           ArenasImaged;
      if p == 0 {
        q := Allocate(size, region);
        return;
      }
      if size == 0 {
        Release(p);
        return 0;
      }
      var oldSize := blocks[p - HEADER].size;
      var ok := Resize(p, size);
      if ok {
        SameSlice(old(bytes), bytes, p, Min(oldSize, blocks[p - HEADER].size));
        return p;
      }
      q := Move(p, size, region);
    }

    /** The moving path: a larger block, a copy of the whole old payload, and the old block freed. */
    method Move(p: nat, size: nat, region: nat) returns (q: nat)
      requires Valid() && Live(blocks, p) && 0 < size <= SIZE_MAX
      requires region != 0 ==> Gap(arenas, region, MappedFor(Rounded(size)))
      requires size > SIZE_MAX - (ALIGN - 1) || blocks[p - HEADER].size < AlignUp(size)
      modifies this
      ensures Valid()
      ensures q == 0 ==> blocks == old(blocks) && bytes == old(bytes)
      ensures q == 0 ==> region == 0 || size > SIZE_MAX - OVERHEAD - PAGE_SIZE - ALIGN
      ensures q != 0 ==> q != p && Live(blocks, q) && blocks[q - HEADER].size >= size
      ensures q != 0 ==> (p - HEADER in blocks ==> blocks[p - HEADER].free)
      ensures q != 0 ==> blocks[q - HEADER].size > old(blocks)[p - HEADER].size
      ensures q != 0 ==> var n := old(blocks)[p - HEADER].size;
                         Slice(bytes, q, n) == Slice(old(bytes), p, n)
      ensures PayloadsKept(old(blocks), old(bytes), blocks, bytes, p - HEADER)
    {
      hide Linked, Coalesced, HeadersOnly, OthersKept, Counted, Aligned, Listed, OneIdle, PayloadsKept, Slice, Imaged,
           ArenasImaged;
      NoNull(blocks, arenas);
      var oldSize := blocks[p - HEADER].size;
      ghost var blocks0, m0 := blocks, bytes;
      q := Allocate(size, region);
      WeakerKept(blocks0, m0, blocks, bytes, p - HEADER);
      if q == 0 {
        return;
      }
      ghost var blocks1, m1 := blocks, bytes;
      StillLive(blocks0, m0, blocks1, m1, p);
      CopyBytes(q, p, oldSize);
      ghost var m2 := bytes;
      CopyKept(blocks1, arenas, m1, m2, q, oldSize, p);
      Release(p);
      MoveDone(blocks0, m0, blocks1, m1, m2, blocks, bytes, p, q);
    }
  }

  lemma WeakerKept(before: Heap, m: Memory, after: Heap, m': Memory, b: nat)
    requires PayloadsKept(before, m, after, m', 0) && 0 !in before
    ensures PayloadsKept(before, m, after, m', b)
  {
  }

  lemma NoNull(blocks: Heap, arenas: map<nat, Arena>)
    requires Linked(blocks, arenas)
    ensures 0 !in blocks
  {
  }

  lemma StillLive(b0: Heap, m0: Memory, b1: Heap, m1: Memory, p: nat)
    requires PayloadsKept(b0, m0, b1, m1, 0) && Live(b0, p) && 0 !in b0
    ensures Live(b1, p) && b1[p - HEADER].size == b0[p - HEADER].size && SameBytes(m0, m1, p, b0[p - HEADER].size)
  {
  }

  /** Copying into one live payload changes no other. */
  lemma CopyKept(blocks: Heap, arenas: map<nat, Arena>, m: Memory, m': Memory, q: nat, length: nat, p: nat)
    requires Linked(blocks, arenas) && Live(blocks, q) && length <= blocks[q - HEADER].size
    requires forall x: nat :: !(q <= x < q + length) ==> m'(x) == m(x)
    ensures PayloadsKept(blocks, m, blocks, m', q - HEADER)
  {
    forall x | x in blocks && !blocks[x].free && x != q - HEADER ensures SameBytes(m, m', x + HEADER, blocks[x].size) {
      NoOverlap(blocks, arenas, x, q - HEADER);
    }
  }

  /** Allocate, copy, release: the moved payload arrives and every other one stays. */
  lemma MoveDone(b0: Heap, m0: Memory, b1: Heap, m1: Memory, m2: Memory, b2: Heap, m3: Memory, p: nat, q: nat)
    requires Live(b0, p) && Live(b1, q) && p != q && !(q - HEADER in b0 && !b0[q - HEADER].free) && 0 !in b0
    requires PayloadsKept(b0, m0, b1, m1, 0) && PayloadsKept(b1, m1, b1, m2, q - HEADER)
    requires PayloadsKept(b1, m2, b2, m3, p - HEADER)
    requires b0[p - HEADER].size <= b1[q - HEADER].size
    requires Slice(m2, q, b0[p - HEADER].size) == Slice(m1, p, b0[p - HEADER].size)
    ensures PayloadsKept(b0, m0, b2, m3, p - HEADER)
    ensures Live(b2, q) && b2[q - HEADER].size == b1[q - HEADER].size
    ensures Slice(m3, q, b0[p - HEADER].size) == Slice(m0, p, b0[p - HEADER].size)
  {
    var x := q - HEADER;
    assert x in b1 && !b1[x].free && x != p - HEADER;
    assert SameBytes(m2, m3, x + HEADER, b1[x].size);
    assert SameBytes(m0, m1, (p - HEADER) + HEADER, b0[p - HEADER].size);
    SameSlice(m2, m3, q, b0[p - HEADER].size);
    SameSlice(m0, m1, p, b0[p - HEADER].size);
    forall y | y in b0 && !b0[y].free && y != p - HEADER ensures SameBytes(m0, m3, y + HEADER, b0[y].size) {
      assert SameBytes(m0, m1, y + HEADER, b0[y].size) && SameBytes(m1, m2, y + HEADER, b1[y].size);
      assert SameBytes(m2, m3, y + HEADER, b1[y].size);
    }
  }

  function Min(a: nat, b: nat): nat {
    if a < b then a else b
  }

  /** The block, alone or with a free successor, has room. */
  predicate CanHold(blocks: Heap, b: nat, size: nat)
    requires b in blocks
  {
    blocks[b].size >= size ||
    (blocks[b].next in blocks && blocks[b].next != 0 && blocks[blocks[b].next].free &&
     blocks[b].size + HEADER + blocks[blocks[b].next].size >= size)
  }

  /** The arenas that are left when `a` has one live block fewer: it goes with its last one, unless it is the only
      arena. */
  ghost function LeftAfter(arenas: map<nat, Arena>, list: seq<nat>, a: nat): set<nat>
    requires a in arenas
  {
    if arenas[a].active == 1 && list != [a] then arenas.Keys - {a} else arenas.Keys
  }

  /** `p` is the payload of a block in use. */
  predicate Live(blocks: Heap, p: nat) {
    p >= HEADER && p - HEADER in blocks && !blocks[p - HEADER].free
  }

  lemma ArenaKnown(blocks: Heap, arenas: map<nat, Arena>, b: nat)
    requires Linked(blocks, arenas) && b in blocks
    ensures blocks[b].arena in arenas
  {
    assert InPlace(blocks, arenas, b);
  }

  lemma MergeFacts(blocks: Heap, arenas: map<nat, Arena>, b: nat)
    requires Linked(blocks, arenas) && b in blocks
    ensures Neighbours2(blocks, b) && Linked(Merge(blocks, b), arenas)
    ensures b in Merge(blocks, b) && Merge(blocks, b).Keys <= blocks.Keys && Merge(blocks, b)[b].free == blocks[b].free
    ensures forall x :: x in Merge(blocks, b) ==> Merge(blocks, b)[x].free == blocks[x].free
    ensures Merge(blocks, b)[b].previous == blocks[b].previous
  {
    MergeLinked(blocks, arenas, b);
    Neighbours(blocks, arenas, b);
  }

  /** The counters are right once one is taken off for `a`, whether or not `a` is then dropped. */
  ghost predicate Settling(blocks: Heap, arenas: map<nat, Arena>, list: seq<nat>, a: nat) {
    && a in arenas && arenas[a].active != 0
    && var arenas' := arenas[a := arenas[a].(active := arenas[a].active - 1)];
       && Counted(blocks, arenas') && Listed(list, arenas') && a in list
       && (arenas'[a].active != 0 || list == [a] ==> OneIdle(arenas'))
       && OneIdle(arenas' - {a})
  }

  lemma ReleaseReady(blocks: Heap, arenas: map<nat, Arena>, list: seq<nat>, p: nat)
    requires Sound(blocks, arenas, list) && Live(blocks, p)
    ensures p >= HEADER && p - HEADER in blocks && !blocks[p - HEADER].free && blocks[p - HEADER].arena in arenas
    ensures Linked(blocks, arenas) && Aligned(blocks) && Coalesced(blocks)
    ensures Counted(blocks, arenas) && OneIdle(arenas) && Listed(list, arenas)
  {
    ArenaKnown(blocks, arenas, p - HEADER);
  }

  lemma ReleasedFree(before: Heap, after: Heap, b: nat, a: nat)
    requires b in before ==> before[b].free
    requires after == before || after == Dropped(before, a)
    ensures b in after ==> after[b].free
  {
  }

  /** The counters after a release, whether or not the arena is then dropped. */
  lemma ReleaseCounts(blocks: Heap, after: Heap, arenas: map<nat, Arena>, list: seq<nat>, b: nat)
    requires Released(blocks, after, arenas, b) && blocks[b].arena in arenas && !blocks[b].free
    requires Counted(blocks, arenas) && OneIdle(arenas) && Listed(list, arenas)
    ensures Settling(after, arenas, list, blocks[b].arena)
    ensures Linked(after, arenas) && Aligned(after) && Coalesced(after) && OthersKept(blocks, after, b)
  {
    var a := blocks[b].arena;
    assert b in Used(blocks, a);
    if list == [a] {
      assert forall c :: c in arenas ==> c in list;
    }
  }

  /** The blocks outside arena `a`. */
  function Dropped(blocks: Heap, a: nat): Heap {
    map x | x in blocks && blocks[x].arena != a :: blocks[x]
  }

  lemma DropKeeps(blocks: Heap, arenas: map<nat, Arena>, list: seq<nat>, a: nat, i: nat)
    requires Linked(blocks, arenas) && Aligned(blocks) && Coalesced(blocks) && Counted(blocks, arenas)
    requires Listed(list, arenas)
    requires i < |list| && list[i] == a && OneIdle(arenas - {a})
    ensures Sound(Dropped(blocks, a), arenas - {a}, list[..i] + list[i + 1..])
  {
    hide Aligned, Counted, Listed, OneIdle, InPlace, Bordered;
    var r := Dropped(blocks, a);
    forall x | x in r ensures InPlace(r, arenas - {a}, x) && Bordered(r, x) {
      DropInPlace(blocks, arenas, a, x);
    }
    DropCounts(blocks, arenas, a);
    DropListed(list, arenas, a, i);
  }

  lemma DropCounts(blocks: Heap, arenas: map<nat, Arena>, a: nat)
    requires Counted(blocks, arenas) && Aligned(blocks)
    ensures var r := Dropped(blocks, a);
            Counted(r, arenas - {a}) && Aligned(r)
  {
    var r := Dropped(blocks, a);
    forall c | c in arenas - {a} ensures Used(r, c) == Used(blocks, c) {
    }
  }

  lemma DropInPlace(blocks: Heap, arenas: map<nat, Arena>, a: nat, x: nat)
    requires Linked(blocks, arenas) && Coalesced(blocks) && x in blocks && blocks[x].arena != a
    ensures var r := Dropped(blocks, a);
            InPlace(r, arenas - {a}, x) && Bordered(r, x)
  {
    assert InPlace(blocks, arenas, x) && Bordered(blocks, x);
  }

  lemma DropListed(list: seq<nat>, arenas: map<nat, Arena>, a: nat, i: nat)
    requires Listed(list, arenas) && i < |list| && list[i] == a
    ensures Listed(list[..i] + list[i + 1..], arenas - {a})
  {
    var r := list[..i] + list[i + 1..];
    forall c | c in list && c != a ensures c in r {
      var k :| 0 <= k < |list| && list[k] == c;
      assert r[if k < i then k else k - 1] == c;
    }
  }

  lemma NobodyLeft(blocks: Heap, arenas: map<nat, Arena>, a: nat)
    requires Counted(blocks, arenas) && a in arenas && arenas[a].active == 0
    ensures Used(blocks, a) == {}
  {
  }

  /** Dropping an arena with no live block loses no live payload. */
  lemma DropPayloads(before: Heap, m: Memory, after: Heap, m': Memory, b: nat, a: nat)
    requires PayloadsKept(before, m, after, m', b) && Used(after, a) == {}
    ensures PayloadsKept(before, m, Dropped(after, a), m', b)
  {
    var r := Dropped(after, a);
    forall x | x in before && !before[x].free && x != b ensures x in r && r[x] == after[x] {
      assert x !in Used(after, a);
    }
  }

  lemma SameHeapBut(blocks: Heap, b: nat)
    ensures OthersKept(blocks, blocks, b)
  {
  }

  /** Shrinking a used block keeps every invariant. */
  lemma ShrinkKeeps(blocks: Heap, arenas: map<nat, Arena>, list: seq<nat>, b: nat, size: nat)
    requires Sound(blocks, arenas, list) && b in blocks && !blocks[b].free && ALIGN <= size <= blocks[b].size
    requires size % 16 == 0
    ensures Neighbours2(blocks, b) && (Splits(blocks, b, size) ==> b + HEADER + size !in blocks)
    ensures var r := Split(blocks, b, size);
            Sound(r, arenas, list) && OthersKept(blocks, r, b) && b in r && !r[b].free
              && size <= r[b].size <= blocks[b].size && r[b].size < size + HEADER + ALIGN
  {
    SplitLinked(blocks, arenas, b, size);
    SplitUsed(blocks, arenas, b, size);
    SplitCoalesced(blocks, arenas, b, size);
    SplitAligned(blocks, arenas, b, size);
    var r := Split(blocks, b, size);
    forall x | x in r ensures Bordered(r, x) {
    }
  }

  /** Growing a used block into a free successor keeps every invariant. */
  lemma GrowKeeps(blocks: Heap, arenas: map<nat, Arena>, list: seq<nat>, b: nat, size: nat)
    requires Sound(blocks, arenas, list) && b in blocks && !blocks[b].free && Neighbours2(blocks, b)
    requires blocks[b].next != 0 && blocks[blocks[b].next].free
    ensures var r := Merge(blocks, b);
            && Sound(r, arenas, list) && OthersKept(blocks, r, b) && b in r && !r[b].free
            && r[b].size == blocks[b].size + HEADER + blocks[blocks[b].next].size
  {
    MergeLinked(blocks, arenas, b);
    Neighbours(blocks, arenas, b);
    MergeUsed(blocks, b);
    MergeAligned(blocks, b);
    MergeCoalesced(blocks, arenas, b, {});
    assert {} - {b} == {};
  }

  lemma GrowTrans(b0: Heap, b1: Heap, b2: Heap, m0: Memory, m1: Memory, m2: Memory, b: nat)
    requires OthersKept(b0, b1, b) && OthersKept(b1, b2, b) && HeadersOnly(m0, m1, b0, b1)
    requires HeadersOnly(m1, m2, b1, b2)
    requires b1.Keys <= b0.Keys
    ensures OthersKept(b0, b2, b) && HeadersOnly(m0, m2, b0, b2)
  {
    HeadersTrans(m0, m1, m2, b0, b1, b2);
  }

  lemma TakeIdle(arenas: map<nat, Arena>, list: seq<nat>, a: nat)
    requires a in arenas && Listed(list, arenas)
    requires forall x, y :: x in arenas && y in arenas && arenas[x].active == 0 && arenas[y].active == 0 ==>
               x == y || x == a || y == a
    ensures var arenas' := arenas[a := arenas[a].(active := arenas[a].active + 1)];
            OneIdle(arenas') && Listed(list, arenas')
  {
  }

  lemma AlignedAt(blocks: Heap, b: nat)
    requires Aligned(blocks) && b in blocks
    ensures (b + HEADER) % 16 == 0
  {
  }

  const OVERHEAD: nat := ARENA_HEADER + HEADER

  predicate Fits(blocks: Heap, b: nat, size: nat)
    requires b in blocks
  {
    blocks[b].free && blocks[b].size >= size
  }

  /** No block of these arenas is free and large enough. */
  ghost predicate NoneFits(blocks: Heap, arenas: seq<nat>, size: nat) {
    forall x :: x in blocks && blocks[x].arena in arenas ==> !Fits(blocks, x, size)
  }

  /** `b` is the first block that fits: in the first arena of the list that has one, at the lowest address. */
  ghost predicate FirstFit(blocks: Heap, list: seq<nat>, b: nat, size: nat) {
    && b in blocks && Fits(blocks, b, size)
    && (forall x :: x in blocks && blocks[x].arena == blocks[b].arena && x < b ==> !Fits(blocks, x, size))
    && exists i :: 0 <= i < |list| && list[i] == blocks[b].arena && NoneFits(blocks, list[..i], size)
  }

  /** The block for a request: the first one that fits, and only when none does the one of a new arena. */
  ghost predicate Chosen(blocks: Heap, list: seq<nat>, b: nat, size: nat, region: nat, before: set<nat>,
                         after: set<nat>) {
    if exists x :: x in blocks && Fits(blocks, x, size) then FirstFit(blocks, list, b, size) && after == before
    else b == First(region) && after == before + {region}
  }

  lemma FoundOrNew(blocks: Heap, list: seq<nat>, b: nat, size: nat, region: nat, keys: set<nat>)
    requires if b != 0 then FirstFit(blocks, list, b, size) else forall x :: x in blocks ==> !Fits(blocks, x, size)
    ensures if b != 0 then Chosen(blocks, list, b, size, region, keys, keys)
            else Chosen(blocks, list, First(region), size, region, keys, keys + {region})
  {
  }

  /** The size a request is rounded to. */
  function Rounded(size: nat): nat {
    AlignUp(if size == 0 then 1 else size)
  }

  function MappedFor(size: nat): (r: nat)
    ensures r >= size + OVERHEAD && r % 16 == 0
    ensures r >= ARENA_SIZE && (r == ARENA_SIZE || (r % 4096 == 0 && r < size + OVERHEAD + PAGE_SIZE))
  {
    if PageUp(size + OVERHEAD) > ARENA_SIZE then PageUp(size + OVERHEAD) else ARENA_SIZE
  }

  /** What mmap promises: an aligned region apart from every other. */
  ghost predicate Gap(arenas: map<nat, Arena>, region: nat, mapped: nat) {
    && region > 0 && region % 4096 == 0 && region + mapped <= ADDRESSES
    && (forall a :: a in arenas ==> a + arenas[a].mapped <= region || region + mapped <= a)
  }

  lemma CreateKeeps(blocks: Heap, arenas: map<nat, Arena>, region: nat, mapped: nat)
    requires Linked(blocks, arenas) && Aligned(blocks) && Coalesced(blocks) && Counted(blocks, arenas)
    requires Gap(arenas, region, mapped) && mapped >= OVERHEAD + ALIGN && mapped % 16 == 0
    ensures region !in arenas && First(region) !in blocks
    ensures var r := blocks[First(region) := Block(mapped - OVERHEAD, 0, 0, region, true)];
            var arenas' := arenas[region := Arena(mapped, 0)];
            && Linked(r, arenas') && Aligned(r) && Coalesced(r) && Counted(r, arenas') && OthersKept(blocks, r, 0)
  {
    hide Gap, Aligned, Counted, InPlace, Bordered;
    var f := First(region);
    var r := blocks[f := Block(mapped - OVERHEAD, 0, 0, region, true)];
    CreateFresh(blocks, arenas, region, mapped);
    forall x | x in blocks ensures x != f && blocks[x].arena != region
      && InPlace(r, arenas[region := Arena(mapped, 0)], x) && Bordered(r, x) {
      CreateElsewhere(blocks, arenas, region, mapped, x);
    }
    CreateCounts(blocks, arenas, r, f, mapped);
    CreateFirst(blocks, arenas, region, mapped);
  }

  lemma CreateFresh(blocks: Heap, arenas: map<nat, Arena>, region: nat, mapped: nat)
    requires Linked(blocks, arenas) && Gap(arenas, region, mapped) && mapped >= OVERHEAD + ALIGN
    ensures region !in arenas && ArenasApart(arenas[region := Arena(mapped, 0)])
  {
    forall a | a in arenas ensures a != region {
      assert First(a) in blocks && InPlace(blocks, arenas, First(a));
    }
  }

  lemma CreateFirst(blocks: Heap, arenas: map<nat, Arena>, region: nat, mapped: nat)
    requires Gap(arenas, region, mapped) && mapped >= OVERHEAD + ALIGN && mapped % 16 == 0 && Aligned(blocks)
    ensures var r := blocks[First(region) := Block(mapped - OVERHEAD, 0, 0, region, true)];
            Aligned(r) && InPlace(r, arenas[region := Arena(mapped, 0)], First(region))
            && (0 !in blocks ==> Bordered(r, First(region)))
  {
  }

  lemma CreateElsewhere(blocks: Heap, arenas: map<nat, Arena>, region: nat, mapped: nat, x: nat)
    requires Linked(blocks, arenas) && Coalesced(blocks) && x in blocks
    requires Gap(arenas, region, mapped) && mapped >= OVERHEAD + ALIGN && region !in arenas
    ensures x != First(region) && blocks[x].arena != region
    ensures var r := blocks[First(region) := Block(mapped - OVERHEAD, 0, 0, region, true)];
            InPlace(r, arenas[region := Arena(mapped, 0)], x) && Bordered(r, x)
  {
    assert InPlace(blocks, arenas, x) && Bordered(blocks, x);
    Neighbours(blocks, arenas, x);
    var n, p := blocks[x].next, blocks[x].previous;
    if n != 0 { assert InPlace(blocks, arenas, n); }
    if p != 0 { assert InPlace(blocks, arenas, p); }
  }

  lemma CreateCounts(blocks: Heap, arenas: map<nat, Arena>, r: Heap, f: nat, mapped: nat)
    requires Counted(blocks, arenas) && f !in blocks && f in r && r[f].free && r == blocks[f := r[f]]
    requires r[f].arena !in arenas && forall x :: x in blocks ==> blocks[x].arena != r[f].arena
    ensures Counted(r, arenas[r[f].arena := Arena(mapped, 0)]) && OthersKept(blocks, r, 0)
  {
    assert Used(r, r[f].arena) == {};
    forall a | a in arenas ensures Used(r, a) == Used(blocks, a) {
    }
  }

  /** Nothing in the tiling depends on the counters. */
  lemma ActiveLinked(blocks: Heap, arenas: map<nat, Arena>, a: nat, active: nat)
    requires Linked(blocks, arenas) && a in arenas
    ensures Linked(blocks, arenas[a := arenas[a].(active := active)])
  {
    hide InPlace, ArenasApart;
    ActiveApart(arenas, a, active);
    var arenas' := arenas[a := arenas[a].(active := active)];
    forall x | x in blocks ensures InPlace(blocks, arenas', x) {
      ActiveInPlace(blocks, arenas, a, active, x);
    }
  }

  lemma ActiveApart(arenas: map<nat, Arena>, a: nat, active: nat)
    requires ArenasApart(arenas) && a in arenas
    ensures ArenasApart(arenas[a := arenas[a].(active := active)])
  {
  }

  lemma ActiveInPlace(blocks: Heap, arenas: map<nat, Arena>, a: nat, active: nat, x: nat)
    requires Linked(blocks, arenas) && a in arenas && x in blocks
    ensures InPlace(blocks, arenas[a := arenas[a].(active := active)], x)
  {
    assert InPlace(blocks, arenas, x);
  }

  lemma SameHeap(blocks: Heap, m: Memory)
    ensures OthersKept(blocks, blocks, 0) && HeadersOnly(m, m, blocks, blocks)
  {
  }

  lemma SameHeapKept(blocks: Heap, m: Memory)
    ensures PayloadsKept(blocks, m, blocks, m, 0)
  {
  }

  lemma NothingTouched(m: Memory)
    ensures Touched(m, m, {})
  {
  }

  lemma MergeKeeps(blocks: Heap, b: nat)
    requires Neighbours2(blocks, b) && blocks[b].next != b
    ensures b in Merge(blocks, b)
  {
  }

  lemma HeadersTrans(m0: Memory, m1: Memory, m2: Memory, a: Heap, b: Heap, c: Heap)
    requires HeadersOnly(m0, m1, a, b) && HeadersOnly(m1, m2, b, c) && b.Keys <= a.Keys + c.Keys
    ensures HeadersOnly(m0, m2, a, c)
  {
    forall x: nat | m2(x) != m0(x) ensures InHeader(a, x) || InHeader(c, x) {
      assert InHeader(a, x) || InHeader(b, x) || InHeader(c, x);
      if InHeader(b, x) {
        var h :| h in b && h <= x < h + HEADER;
        assert h in a || h in c;
      }
    }
  }
}

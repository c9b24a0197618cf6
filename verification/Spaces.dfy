/**
 Cloning and destroying address spaces (kernel/mm/mm.c).  A clone is a copy over
 fresh frames, a destroy gives back every page exactly once, and a clone that runs
 out of memory half way gives back everything it took.
 */
module Spaces {
  import opened Ram
  import opened PageTree
  import opened PageTables

  // ----- Destroy

  /** Freeing what hangs below the first `i` slots of a table. */
  lemma FreeStep(mem: map<nat, Page>, mem': map<nat, Page>, n: Node, i: nat)
    requires n.Table? && i < |n.slots| && Apart(n) && Stored(mem, n)
    requires Untouched(mem, mem', UpTo(n.slots, i))
    ensures n.page !in UpTo(n.slots, i) && n.page in mem' && |mem'[n.page]| == |n.slots|
    ensures mem'[n.page][i] == SlotWord(n.slots[i])
    ensures UpTo(n.slots, i + 1) == UpTo(n.slots, i) + SlotPages(n.slots[i])
    ensures SlotPages(n.slots[i]) !! UpTo(n.slots, i)
    ensures n.slots[i].Entry? ==> Stored(mem', n.slots[i].node) && Apart(n.slots[i].node)
    ensures SlotPages(n.slots[i]) <= Pages(n) && n.page !in SlotPages(n.slots[i])
  {
    UpToMonotone(n.slots, i);
    if n.slots[i].Entry? {
      PagesStored(mem, n.slots[i].node);
      StoredFrame(mem, mem', n.slots[i].node);
    }
  }

  lemma UpToMonotone(slots: seq<Slot>, i: nat)
    requires i <= |slots|
    ensures UpTo(slots, i) <= UpTo(slots, |slots|)
  {
    forall p | p in UpTo(slots, i) ensures p in UpTo(slots, |slots|) {
      var j :| 0 <= j < i && p in SlotPages(slots[j]);
    }
  }

  /** `free_table`: every page of the tree goes back to the pool, each exactly once. */
  method FreeTable(ram: Ram, table: nat, level: nat, ghost n: Node)
    requires ram.Valid() && level > 0 && Shaped(n, level) && n.page == table
    requires Stored(ram.mem, n) && Apart(n) && Pages(n) !! ram.Pool() && 0 !in Pages(n)
    modifies ram
    ensures ram.Valid() && ram.Pool() == old(ram.Pool()) + Pages(n)
    ensures Untouched(old(ram.mem), ram.mem, Pages(n))
    decreases level
  {
    hide Ram.Valid, Ram.Pool, Stored, Shaped, Apart, Pages, SlotPages, SlotShaped, UpTo;
    ShapedTable(n, level);
    EmptyUpTo(n.slots);
    var i := 0;
    while i < 512
      invariant 0 <= i <= 512 && ram.Valid()
      invariant ram.Pool() == old(ram.Pool()) + UpTo(n.slots, i)
      invariant Untouched(old(ram.mem), ram.mem, UpTo(n.slots, i))
    {
      FreeStep(old(ram.mem), ram.mem, n, i);
      ShapedSlot(n, level, i);
      var entry := ram.mem[table][i];
      if entry.present {
        FreeEntry(ram, entry, level, n.slots[i]);
      }
      i := i + 1;
    }
    FreedApart(n, old(ram.mem), ram.mem);
    ram.FreePage(table);
  }

  lemma ShapedTable(n: Node, level: nat)
    requires Shaped(n, level) && level > 0
    ensures n.Table? && |n.slots| == PAGE_WORDS
  {
  }

  lemma ShapedSlot(n: Node, level: nat, i: nat)
    requires Shaped(n, level) && level > 0 && i < PAGE_WORDS
    ensures n.Table? && |n.slots| == PAGE_WORDS && SlotShaped(n.slots[i], level)
    ensures n.slots[i].Entry? <==> SlotWord(n.slots[i]).present
    ensures n.slots[i].Plain? ==> SlotPages(n.slots[i]) == {}
  {
    assert SlotShaped(n.slots[i], level);
  }

  lemma EmptyUpTo(slots: seq<Slot>)
    ensures UpTo(slots, 0) == {}
  {
  }

  lemma FreedApart(n: Node, mem: map<nat, Page>, mem': map<nat, Page>)
    requires n.Table? && Apart(n) && Stored(mem, n) && Untouched(mem, mem', UpTo(n.slots, |n.slots|))
    ensures n.page in mem' && n.page in Pages(n) && n.page !in UpTo(n.slots, |n.slots|)
    ensures Pages(n) == UpTo(n.slots, |n.slots|) + {n.page}
  {
  }

  method FreeEntry(ram: Ram, entry: Word, level: nat, ghost slot: Slot)
    requires ram.Valid() && level > 0 && slot.Entry? && SlotShaped(slot, level) && SlotWord(slot) == entry
    requires Stored(ram.mem, slot.node) && Apart(slot.node) && SlotPages(slot) !! ram.Pool() && 0 !in SlotPages(slot)
    modifies ram
    ensures ram.Valid() && ram.Pool() == old(ram.Pool()) + SlotPages(slot)
    ensures Untouched(old(ram.mem), ram.mem, SlotPages(slot))
    decreases level, 0
  {
    hide Ram.Valid, Ram.Pool;
    if level == 1 || entry.huge {
      assert SlotPages(slot) == {entry.page};
      ram.FreePage(entry.page);
    } else {
      FreeTable(ram, entry.page, level - 1, slot.node);
    }
  }

  /** `vmm_space_destroy`: the active space is left alone, any other gives back every page. */
  method SpaceDestroy(ram: Ram, active: nat, root: nat, ghost n: Node)
    requires Holds(ram, n) && n.page == root
    modifies ram
    ensures ram.Valid()
    ensures root == active ==> ram.mem == old(ram.mem) && ram.Pool() == old(ram.Pool())
    ensures root != active ==> ram.Pool() == old(ram.Pool()) + Pages(n)
    ensures Untouched(old(ram.mem), ram.mem, Pages(n))
  {
    hide Ram.Valid, Ram.Pool, Stored, Shaped, Apart, Pages, SlotPages, SlotShaped, UpTo;
    if root == active {
      return;
    }
    EmptyUpTo(n.slots);
    var i := 0;
    while i < 256
      invariant 0 <= i <= 256 && ram.Valid()
      invariant ram.Pool() == old(ram.Pool()) + UpTo(n.slots, i)
      invariant Untouched(old(ram.mem), ram.mem, UpTo(n.slots, i))
    {
      FreeStep(old(ram.mem), ram.mem, n, i);
      RootSlot(n, i);
      var entry := ram.mem[root][i];
      if entry.present {
        FreeTable(ram, entry.page, 3, n.slots[i].node);
      }
      i := i + 1;
    }
    UpperHalfEmpty(n);
    FreedApart(n, old(ram.mem), ram.mem);
    ram.FreePage(root);
  }

  lemma RootSlot(n: Node, i: nat)
    requires RootShaped(n) && i < 256
    ensures n.slots[i].Entry? <==> SlotWord(n.slots[i]).present
    ensures n.slots[i].Entry? ==> Shaped(n.slots[i].node, 3) && SlotPages(n.slots[i]) == Pages(n.slots[i].node)
    ensures n.slots[i].Entry? ==> n.slots[i].bits.present && !n.slots[i].bits.huge && n.slots[i].bits.page == 0
    ensures n.slots[i].Plain? ==> SlotPages(n.slots[i]) == {}
  {
    assert SlotShaped(n.slots[i], 4);
  }

  lemma UpperHalfEmpty(n: Node)
    requires RootShaped(n)
    ensures UpTo(n.slots, 256) == UpTo(n.slots, |n.slots|)
  {
    UpToMonotone(n.slots, 256);
    forall p | p in UpTo(n.slots, |n.slots|) ensures p in UpTo(n.slots, 256) {
      var j :| 0 <= j < |n.slots| && p in SlotPages(n.slots[j]);
      assert j < 256;
    }
  }

  // ----- Clone

  /** The same bytes and flags at the same places, over other pages. */
  ghost predicate Copy(a: Node, b: Node) {
    match a
    case Leaf(_, data) => b.Leaf? && b.data == data
    case Table(_, slots) => b.Table? && |b.slots| == |slots|
                            && (forall i :: 0 <= i < |slots| ==> SlotCopy(slots[i], b.slots[i]))
  }

  ghost predicate SlotCopy(s: Slot, t: Slot) {
    match s
    case Plain(_) => t.Plain?
    case Entry(bits, node) => t.Entry? && t.bits == bits && Copy(node, t.node)
  }

  /** Equal up to the page number. */
  ghost predicate AlikeMapping(a: Mapping, b: Mapping) {
    match a
    case Unmapped => b.Unmapped?
    case Mapped(_, write, user, data) => b.Mapped? && b.write == write && b.user == user && b.data == data
  }

  /** A copy maps the same virtual pages with the same permissions and the same bytes. */
  lemma {:induction false} CopyFinds(a: Node, b: Node, q: seq<nat>)
    requires Copy(a, b)
    ensures AlikeMapping(Find(a, q), Find(b, q))
    decreases |q|
  {
    if q != [] && a.Table? && q[0] < |a.slots| {
      assert SlotCopy(a.slots[q[0]], b.slots[q[0]]);
      if a.slots[q[0]].Entry? {
        assert Copy(a.slots[q[0]].node, b.slots[q[0]].node);
      }
      if |q| > 1 && a.slots[q[0]].Entry? {
        CopyFinds(a.slots[q[0]].node, b.slots[q[0]].node, q[1..]);
      }
    }
  }

  /** A copy is as open as what it copies. */
  lemma {:induction false} CopyOpen(a: Node, b: Node, user: bool)
    requires Copy(a, b) && Open(a, user)
    ensures Open(b, user)
    decreases a
  {
    if a.Table? {
      forall i | 0 <= i < |b.slots| ensures SlotOpen(b.slots[i], user) {
        assert SlotCopy(a.slots[i], b.slots[i]) && SlotOpen(a.slots[i], user);
        if a.slots[i].Entry? {
          CopyOpen(a.slots[i].node, b.slots[i].node, user);
        }
      }
    }
  }

  /** A tree in memory, apart from itself and from the pool. */
  ghost predicate Planted(n: Node, mem: map<nat, Page>, pool: set<nat>) {
    Stored(mem, n) && Apart(n) && Pages(n) !! pool && 0 !in Pages(n)
  }

  /** What building `n` out of the pool, starting from page `n.page`, has done to memory. */
  ghost predicate Grown(n: Node, mem: map<nat, Page>, mem': map<nat, Page>, pool: set<nat>, pool': set<nat>) {
    && Planted(n, mem', pool') && Pages(n) <= pool + {n.page} && pool' == pool - Pages(n)
    && Untouched(mem, mem', Pages(n))
  }

  /** Hanging a finished subtree into an empty slot. */
  lemma Attach(n: Node, mem: map<nat, Page>, mem': map<nat, Page>, pool: set<nat>, i: nat, slot: Slot)
    requires n.Table? && i < |n.slots| && n.slots[i].Plain? && Planted(n, mem, pool)
    requires slot.Entry? && Planted(slot.node, mem', pool) && Pages(slot.node) !! Pages(n)
    requires mem'.Keys == mem.Keys && i < |mem[n.page]|
    requires forall p :: p in mem && p !in Pages(slot.node) ==> mem'[p] == Poke(mem, n.page, i, SlotWord(slot))[p]
    ensures var r := n.(slots := n.slots[i := slot]);
            Planted(r, mem', pool) && Pages(r) == Pages(n) + Pages(slot.node)
  {
    ReplaceSlot(n, i, slot, {}, Pages(slot.node));
    AttachStored(n, mem, mem', i, slot);
  }

  lemma AttachStored(n: Node, mem: map<nat, Page>, mem': map<nat, Page>, i: nat, slot: Slot)
    requires n.Table? && i < |n.slots| && n.slots[i].Plain? && Stored(mem, n) && Apart(n)
    requires slot.Entry? && Stored(mem', slot.node) && Pages(slot.node) !! Pages(n)
    requires mem'.Keys == mem.Keys && i < |mem[n.page]|
    requires forall p :: p in mem && p !in Pages(slot.node) ==> mem'[p] == Poke(mem, n.page, i, SlotWord(slot))[p]
    ensures Stored(mem', n.(slots := n.slots[i := slot]))
  {
    assert n.page in Pages(n);
    assert mem'[n.page] == mem[n.page][i := SlotWord(slot)];
    forall j | 0 <= j < |n.slots| && j != i && n.slots[j].Entry? ensures Stored(mem', n.slots[j].node) {
      PagesStored(mem, n.slots[j].node);
      assert SlotPages(n.slots[j]) <= Pages(n);
      assert n.page !in SlotPages(n.slots[j]);
      forall p | p in Pages(n.slots[j].node) ensures p in mem && mem'[p] == mem[p] {
        assert p in SlotPages(n.slots[j]);
      }
      StoredFrame(mem, mem', n.slots[j].node);
    }
  }

  // ----- How many pages a clone takes

  /** The number of pages of a tree. */
  ghost function Weight(n: Node): (w: nat)
    ensures w > 0
    decreases n
  {
    match n
    case Leaf(_, _) => 1
    case Table(_, slots) => 1 + WeightTo(slots, |slots|)
  }

  ghost function WeightTo(slots: seq<Slot>, k: nat): nat
    requires k <= |slots|
    decreases slots, k
  {
    if k == 0 then 0 else WeightTo(slots, k - 1) + SlotWeight(slots[k - 1])
  }

  ghost function SlotWeight(s: Slot): nat
    decreases s
  {
    match s
    case Plain(_) => 0
    case Entry(_, node) => Weight(node)
  }

  /** The pool has lost exactly `k` pages. */
  ghost predicate Cost(before: set<nat>, after: set<nat>, k: int) {
    |before| == |after| + k
  }

  ghost predicate Short(pool: set<nat>, k: int) {
    |pool| < k
  }

  lemma CostNone(pool: set<nat>)
    ensures Cost(pool, pool, 0)
  {
  }

  lemma CostMore(a: set<nat>, b: set<nat>, c: set<nat>, j: int, k: int)
    requires Cost(a, b, j)
    ensures Cost(b, c, k) ==> Cost(a, c, j + k)
    ensures Short(b, k) ==> Short(a, j + k)
  {
  }

  lemma CostTake(a: set<nat>, b: set<nat>, c: set<nat>, page: nat, k: int)
    requires page in a && b == a - {page}
    ensures Cost(b, c, k - 1) ==> Cost(a, c, k)
    ensures Short(b, k - 1) ==> Short(a, k)
  {
  }

  lemma EmptyShort(pool: set<nat>, k: int)
    requires pool == {} && k > 0
    ensures Short(pool, k)
  {
  }

  /** The first `i` slots of `n` have been paid for, and `extra` pages besides. */
  ghost predicate Paid(before: set<nat>, after: set<nat>, n: Node, i: nat, extra: nat) {
    n.Table? && i <= |n.slots| && Cost(before, after, extra + WeightTo(n.slots, i))
  }

  lemma PaidNone(before: set<nat>, after: set<nat>, n: Node, extra: nat)
    requires n.Table? && Cost(before, after, extra)
    ensures Paid(before, after, n, 0, extra)
  {
  }

  lemma PaidSkip(before: set<nat>, after: set<nat>, n: Node, i: nat, extra: nat)
    requires Paid(before, after, n, i, extra) && i < |n.slots| && n.slots[i].Plain?
    ensures Paid(before, after, n, i + 1, extra)
  {
  }

  lemma PaidStep(before: set<nat>, middle: set<nat>, after: set<nat>, n: Node, i: nat, extra: nat, ok: bool)
    requires Paid(before, middle, n, i, extra) && i < |n.slots| && n.slots[i].Entry?
    requires if ok then Cost(middle, after, Weight(n.slots[i].node)) else Short(middle, Weight(n.slots[i].node))
    ensures if ok then Paid(before, after, n, i + 1, extra) else Short(before, extra + Weight(n) - 1)
  {
    WeightMonotone(n.slots, i + 1, |n.slots|);
    CostMore(before, middle, after, extra + WeightTo(n.slots, i), Weight(n.slots[i].node));
  }

  lemma PaidAll(before: set<nat>, after: set<nat>, n: Node, extra: nat)
    requires n.Table? && Paid(before, after, n, |n.slots|, extra)
    ensures Cost(before, after, extra + Weight(n) - 1)
  {
  }

  lemma PaidRoot(before: set<nat>, after: set<nat>, n: Node)
    requires RootShaped(n) && Paid(before, after, n, 256, 1)
    ensures Cost(before, after, Weight(n))
  {
    WeightRoot(n);
  }

  lemma {:induction false} WeightMonotone(slots: seq<Slot>, i: nat, k: nat)
    requires i <= k <= |slots|
    ensures WeightTo(slots, i) <= WeightTo(slots, k)
    decreases k
  {
    if i < k {
      WeightMonotone(slots, i, k - 1);
    }
  }

  lemma {:induction false} WeightPlain(n: Node, i: nat)
    requires n.Table? && i <= |n.slots| && forall j :: i <= j < |n.slots| ==> n.slots[j].Plain?
    ensures WeightTo(n.slots, i) == Weight(n) - 1
    decreases |n.slots| - i
  {
    if i < |n.slots| {
      WeightPlain(n, i + 1);
    }
  }

  lemma WeightRoot(n: Node)
    requires RootShaped(n)
    ensures n.Table? && |n.slots| == PAGE_WORDS && WeightTo(n.slots, 256) == Weight(n) - 1
  {
    WeightPlain(n, 256);
  }

  /** A tree that shares no page has as many pages as it weighs. */
  lemma {:induction false} WeightPages(n: Node)
    requires Apart(n)
    ensures |Pages(n)| == Weight(n)
    decreases n, 1, 0
  {
    if n.Table? {
      WeightUpTo(n, |n.slots|);
      assert Pages(n) == UpTo(n.slots, |n.slots|) + {n.page};
      assert n.page !in UpTo(n.slots, |n.slots|);
    } else {
      assert Pages(n) == {n.page};
    }
  }

  lemma {:induction false} WeightUpTo(n: Node, k: nat)
    requires n.Table? && Apart(n) && k <= |n.slots|
    ensures |UpTo(n.slots, k)| == WeightTo(n.slots, k)
    decreases n, 0, k
  {
    hide Apart, Pages, UpTo, Weight, WeightTo, SlotWeight, SlotPages;
    if k > 0 {
      WeightUpTo(n, k - 1);
      SlotDisjoint(n, k - 1);
      WeightSlot(n.slots[k - 1]);
      WeightNext(n.slots, k - 1);
    } else {
      WeightNone(n.slots);
    }
  }

  lemma WeightNone(slots: seq<Slot>)
    ensures |UpTo(slots, 0)| == 0 && WeightTo(slots, 0) == 0
  {
  }

  lemma {:induction false} WeightSlot(s: Slot)
    requires s.Entry? ==> Apart(s.node)
    ensures |SlotPages(s)| == SlotWeight(s)
    decreases s, 0, 0
  {
    if s.Entry? {
      WeightPages(s.node);
    }
  }

  lemma WeightNext(slots: seq<Slot>, k: nat)
    requires k < |slots| && UpTo(slots, k + 1) == UpTo(slots, k) + SlotPages(slots[k])
    requires SlotPages(slots[k]) !! UpTo(slots, k)
    requires |UpTo(slots, k)| == WeightTo(slots, k) && |SlotPages(slots[k])| == SlotWeight(slots[k])
    ensures |UpTo(slots, k + 1)| == WeightTo(slots, k + 1)
  {
    hide UpTo, SlotPages, SlotWeight;
    DisjointSize(UpTo(slots, k), SlotPages(slots[k]));
  }

  lemma DisjointSize(a: set<nat>, b: set<nat>)
    requires a !! b
    ensures |a + b| == |a| + |b|
  {
  }

  lemma SlotDisjoint(n: Node, i: nat)
    requires n.Table? && Apart(n) && i < |n.slots|
    ensures UpTo(n.slots, i + 1) == UpTo(n.slots, i) + SlotPages(n.slots[i])
    ensures SlotPages(n.slots[i]) !! UpTo(n.slots, i)
    ensures n.slots[i].Entry? ==> Apart(n.slots[i].node)
  {
  }

  /** Fills the fresh page behind a copied entry: a leaf is copied, a table cloned. */
  method CloneEntry(ram: Ram, page: nat, entry: Word, level: nat, ghost slot: Slot) returns (ok: bool, ghost copy: Node)
    requires ram.Valid() && level > 0 && slot.Entry? && SlotShaped(slot, level) && SlotWord(slot) == entry
    requires Stored(ram.mem, slot.node) && SlotPages(slot) !! ram.Pool()
    requires page != 0 && page in ram.mem && ram.mem[page] == ZeroPage() && page !in ram.Pool()
    requires page !in SlotPages(slot)
    modifies ram
    ensures ram.Valid() && Shaped(copy, level - 1) && copy.page == page
    ensures Grown(copy, old(ram.mem), ram.mem, old(ram.Pool()), ram.Pool())
    ensures ok ==> Copy(slot.node, copy)
    ensures !ok ==> ram.Pool() == {}
    ensures if ok then Cost(old(ram.Pool()), ram.Pool(), Weight(slot.node) - 1)
              else Short(old(ram.Pool()), Weight(slot.node) - 1)
    decreases level, 0
  {
    hide Ram.Valid, Ram.Pool, Cost, Short;
    CostNone(ram.Pool());
    if level == 1 || entry.huge {
      assert Pages(slot.node) == {entry.page};
      ram.CopyPage(page, entry.page);
      copy := Leaf(page, slot.node.data);
      assert Pages(copy) == {page};
      ok := true;
    } else {
      ok, copy := CloneTable(ram, page, entry.page, level - 1, slot.node);
    }
  }

  /** One round of the clone loops: entry `i` of the source into table `dst`. */
  method CloneSlot(ram: Ram, dst: nat, i: nat, entry: Word, level: nat, ghost slot: Slot, ghost t: Node)
    returns (ok: bool, ghost t': Node)
    requires ram.Valid() && level > 0 && slot.Entry? && SlotShaped(slot, level) && SlotWord(slot) == entry
    requires Stored(ram.mem, slot.node) && SlotPages(slot) !! ram.Pool() && SlotPages(slot) !! Pages(t)
    requires t.Table? && |t.slots| == PAGE_WORDS && t.page == dst && i < PAGE_WORDS && t.slots[i] == Plain(ZERO)
    requires Planted(t, ram.mem, ram.Pool())
    modifies ram
    ensures ram.Valid() && t'.Table? && t'.page == dst && Planted(t', ram.mem, ram.Pool())
    ensures Pages(t) <= Pages(t') <= Pages(t) + old(ram.Pool()) && ram.Pool() == old(ram.Pool()) - Pages(t')
    ensures Untouched(old(ram.mem), ram.mem, Pages(t'))
    ensures |t'.slots| == PAGE_WORDS && t'.slots == t.slots[i := t'.slots[i]] && SlotShaped(t'.slots[i], level)
    ensures ok ==> SlotCopy(slot, t'.slots[i])
    ensures !ok ==> ram.Pool() == {}
    ensures if ok then Cost(old(ram.Pool()), ram.Pool(), Weight(slot.node))
              else Short(old(ram.Pool()), Weight(slot.node))
    decreases level, 1
  {
    hide Cost, Short, Weight, WeightTo, SlotWeight, Ram.Valid, Ram.Pool, Stored, Shaped, Apart, Pages, Planted,
         Untouched, Copy, SlotCopy, SlotShaped;
    t' := t;
    ghost var mem, pool := ram.mem, ram.Pool();
    PlantedRoot(t, mem, pool);
    var page := ram.AllocPage();
    if page == 0 {
      assert t.slots == t.slots[i := t.slots[i]];
      EmptySlot(level);
      EmptyShort(pool, Weight(slot.node));
      return false, t;
    }
    ghost var pool1 := ram.Pool();
    Prepare(t, mem, pool, page, slot, i, entry.(page := page));
    ram.Write(dst, i, entry.(page := page));
    ghost var copy;
    ok, copy := CloneEntry(ram, page, entry, level, slot);
    t' := t.(slots := t.slots[i := Entry(slot.bits, copy)]);
    CopiedSlot(slot, copy, level);
    AttachGrown(t, mem, ram.mem, pool, ram.Pool(), page, i, slot.bits, copy);
    CostTake(pool, pool1, ram.Pool(), page, Weight(slot.node));
  }

  lemma EmptySlot(level: nat)
    requires level > 0
    ensures SlotShaped(Plain(ZERO), level)
  {
  }

  lemma CopiedSlot(slot: Slot, copy: Node, level: nat)
    requires level > 0 && slot.Entry? && SlotShaped(slot, level) && Shaped(copy, level - 1)
    ensures SlotShaped(Entry(slot.bits, copy), level)
    ensures Copy(slot.node, copy) ==> SlotCopy(slot, Entry(slot.bits, copy))
  {
  }

  lemma PlantedRoot(t: Node, mem: map<nat, Page>, pool: set<nat>)
    requires Planted(t, mem, pool)
    ensures t.page in mem && t.page in Pages(t) && t.page !in pool && Pages(t) !! pool && Untouched(mem, mem, Pages(t))
    ensures t.Table? ==> |mem[t.page]| == |t.slots|
  {
  }

  /** After taking page `page` and writing its entry: the source and the table are still there. */
  lemma Prepare(t: Node, mem: map<nat, Page>, pool: set<nat>, page: nat, slot: Slot, i: nat, w: Word)
    requires t.Table? && Planted(t, mem, pool) && page in pool && page in mem && i < |t.slots|
    requires slot.Entry? && Stored(mem, slot.node) && SlotPages(slot) !! pool && SlotPages(slot) !! Pages(t)
    ensures page !in Pages(t) && page !in SlotPages(slot) && t.page in mem && t.page != page && t.page !in pool
    ensures |mem[t.page]| == |t.slots|
    ensures Stored(Poke(mem[page := ZeroPage()], t.page, i, w), slot.node)
    ensures Planted(t, mem[page := ZeroPage()], pool - {page})
  {
    PagesStored(mem, slot.node);
    PagesStored(mem, t);
    assert t.page in Pages(t);
    StoredFrame(mem, Poke(mem[page := ZeroPage()], t.page, i, w), slot.node);
    StoredFrame(mem, mem[page := ZeroPage()], t);
  }

  lemma AttachGrown(t: Node, mem: map<nat, Page>, mem': map<nat, Page>, pool: set<nat>, pool': set<nat>,
                    page: nat, i: nat, bits: Word, copy: Node)
    requires t.Table? && i < |t.slots| && t.slots[i].Plain? && page in pool && page in mem && copy.page == page
    requires t.page in mem && |mem[t.page]| == |t.slots| && t.page != page && page !in Pages(t) && Pages(t) !! pool
    requires Planted(t, mem[page := ZeroPage()], pool - {page})
    requires Grown(copy, Poke(mem[page := ZeroPage()], t.page, i, bits.(page := page)), mem', pool - {page}, pool')
    ensures var t' := t.(slots := t.slots[i := Entry(bits, copy)]);
            && Planted(t', mem', pool') && pool' == pool - Pages(t')
            && Pages(t) <= Pages(t') <= Pages(t) + pool && Untouched(mem, mem', Pages(t'))
  {
    hide Stored, Apart, Pages;
    var mem1 := mem[page := ZeroPage()];
    PlantedRoot(t, mem1, pool - {page});
    PlantedRoot(copy, mem', pool');
    assert Planted(t, mem1, pool');
    Attach(t, mem1, mem', pool', i, Entry(bits, copy));
  }

  /** The clone of a table so far: rounds before `i` are done, later slots are still empty. */
  ghost predicate Partial(n: Node, t: Node, level: nat, i: nat) {
    && n.Table? && t.Table? && |t.slots| == PAGE_WORDS && |n.slots| == PAGE_WORDS && i <= PAGE_WORDS && level > 0
    && (forall j :: 0 <= j < i ==> SlotShaped(t.slots[j], level) && SlotCopy(n.slots[j], t.slots[j]))
    && (forall j :: i <= j < PAGE_WORDS ==> t.slots[j] == Plain(ZERO))
  }

  lemma PartialStep(n: Node, t: Node, t': Node, level: nat, i: nat)
    requires Partial(n, t, level, i) && i < PAGE_WORDS && t'.Table? && |t'.slots| == PAGE_WORDS
    requires t'.slots == t.slots[i := t'.slots[i]] && SlotShaped(t'.slots[i], level)
    ensures Shaped(t', level)
    ensures SlotCopy(n.slots[i], t'.slots[i]) ==> Partial(n, t', level, i + 1)
  {
    forall j | 0 <= j < PAGE_WORDS ensures SlotShaped(t'.slots[j], level) {
      assert j != i ==> t'.slots[j] == t.slots[j];
    }
  }

  /** One slot of the clone: the next round can start, or memory ran out and what there is still is a tree. */
  lemma CloneStep(n: Node, a: Node, t: Node, level: nat, i: nat, m0: map<nat, Page>, m1: map<nat, Page>,
                  m2: map<nat, Page>, p0: set<nat>, p1: set<nat>, p2: set<nat>, ok: bool)
    requires Partial(n, a, level, i) && i < PAGE_WORDS && n.slots[i].Entry? && t.Table? && t.page == a.page
    requires Grown(a, m0, m1, p0, p1) && Paid(p0, p1, n, i, 0) && Planted(t, m2, p2)
    requires Pages(a) <= Pages(t) <= Pages(a) + p1 && p2 == p1 - Pages(t) && Untouched(m1, m2, Pages(t))
    requires |t.slots| == PAGE_WORDS && t.slots == a.slots[i := t.slots[i]] && SlotShaped(t.slots[i], level)
    requires ok ==> SlotCopy(n.slots[i], t.slots[i])
    requires if ok then Cost(p1, p2, Weight(n.slots[i].node)) else Short(p1, Weight(n.slots[i].node))
    ensures Grown(t, m0, m2, p0, p2) && Shaped(t, level)
    ensures if ok then Partial(n, t, level, i + 1) && Paid(p0, p2, n, i + 1, 0) else Short(p0, Weight(n) - 1)
  {
    hide *;
    PartialAt(n, a, level, i);
    PartialStep(n, a, t, level, i);
    GrownTrans(a, t, m0, m1, m2, p0, p1, p2);
    PaidStep(p0, p1, p2, n, i, 0, ok);
  }

  lemma PartialAt(n: Node, t: Node, level: nat, i: nat)
    requires Partial(n, t, level, i) && i < PAGE_WORDS
    ensures t.Table? && |t.slots| == PAGE_WORDS && t.slots[i] == Plain(ZERO)
    ensures n.Table? && |n.slots| == PAGE_WORDS
  {
  }

  lemma PartialDone(n: Node, t: Node, level: nat)
    requires Partial(n, t, level, PAGE_WORDS)
    ensures Shaped(t, level) && Copy(n, t)
  {
  }

  /** `clone_table`: copies a table and everything below it into `dst` and fresh pages.
      When memory runs out the pages taken so far still form a tree that can be freed. */
  method CloneTable(ram: Ram, dst: nat, src: nat, level: nat, ghost n: Node) returns (ok: bool, ghost t: Node)
    requires ram.Valid() && level > 0 && Shaped(n, level) && n.page == src
    requires Stored(ram.mem, n) && Pages(n) !! ram.Pool()
    requires dst != 0 && dst in ram.mem && ram.mem[dst] == ZeroPage() && dst !in ram.Pool() && dst !in Pages(n)
    modifies ram
    ensures ram.Valid() && Shaped(t, level) && t.page == dst
    ensures Grown(t, old(ram.mem), ram.mem, old(ram.Pool()), ram.Pool())
    ensures ok ==> Copy(n, t)
    ensures !ok ==> ram.Pool() == {}
    ensures if ok then Cost(old(ram.Pool()), ram.Pool(), Weight(n) - 1) else Short(old(ram.Pool()), Weight(n) - 1)
    decreases level
  {
    hide Grown, Cost, Short, Paid, Weight, WeightTo, SlotWeight, Ram.Valid, Ram.Pool, Stored, Shaped, Apart, Pages,
         Planted, Untouched, Copy, SlotCopy, SlotShaped, SlotPages, Partial;
    t := EmptyTable(dst);
    CloneStart(n, ram.mem, ram.Pool(), dst, level);
    CostNone(ram.Pool());
    PaidNone(ram.Pool(), ram.Pool(), n, 0);
    var i := 0;
    while i < 512
      invariant 0 <= i <= 512 && ram.Valid() && t.page == dst && Partial(n, t, level, i)
      invariant Grown(t, old(ram.mem), ram.mem, old(ram.Pool()), ram.Pool())
      invariant Paid(old(ram.Pool()), ram.Pool(), n, i, 0)
    {
      SourceStays(n, t, old(ram.mem), ram.mem, old(ram.Pool()), ram.Pool(), level, i);
      PartialAt(n, t, level, i);
      var entry := ram.mem[src][i];
      ghost var before, mem, pool := t, ram.mem, ram.Pool();
      if !entry.present {
        SkipSlot(n, t, level, i);
        PaidSkip(old(ram.Pool()), ram.Pool(), n, i, 0);
      } else {
        ok, t := CloneSlot(ram, dst, i, entry, level, n.slots[i], t);
        CloneStep(n, before, t, level, i, old(ram.mem), mem, ram.mem, old(ram.Pool()), pool, ram.Pool(), ok);
        if !ok {
          return;
        }
      }
      i := i + 1;
    }
    PartialDone(n, t, level);
    PaidAll(old(ram.Pool()), ram.Pool(), n, 0);
    ok := true;
  }

  lemma CloneStart(n: Node, mem: map<nat, Page>, pool: set<nat>, dst: nat, level: nat)
    requires level > 0 && Shaped(n, level) && dst in mem && mem[dst] == ZeroPage() && dst !in pool && dst != 0
    ensures Partial(n, EmptyTable(dst), level, 0) && Grown(EmptyTable(dst), mem, mem, pool, pool)
  {
    EmptyTableFacts(mem, dst, level);
  }

  lemma GrownTrans(a: Node, b: Node, m0: map<nat, Page>, m1: map<nat, Page>, m2: map<nat, Page>,
                   p0: set<nat>, p1: set<nat>, p2: set<nat>)
    requires Grown(a, m0, m1, p0, p1) && a.page == b.page && Planted(b, m2, p2)
    requires Pages(a) <= Pages(b) <= Pages(a) + p1 && p2 == p1 - Pages(b) && Untouched(m1, m2, Pages(b))
    ensures Grown(b, m0, m2, p0, p2)
  {
  }

  lemma SkipSlot(n: Node, t: Node, level: nat, i: nat)
    requires Partial(n, t, level, i) && i < PAGE_WORDS && n.slots[i].Plain?
    ensures Partial(n, t, level, i + 1)
  {
  }

  /** Growing the clone out of the pool does not disturb the source. */
  lemma SourceStays(n: Node, t: Node, mem: map<nat, Page>, mem': map<nat, Page>, pool: set<nat>, pool': set<nat>,
                    level: nat, i: nat)
    requires level > 0 && Shaped(n, level) && Stored(mem, n) && Pages(n) !! pool && t.page !in Pages(n)
    requires Grown(t, mem, mem', pool, pool') && i < PAGE_WORDS
    ensures n.Table? && |n.slots| == PAGE_WORDS && n.page in mem' && |mem'[n.page]| == PAGE_WORDS
    ensures mem'[n.page][i] == SlotWord(n.slots[i]) && SlotShaped(n.slots[i], level)
    ensures n.slots[i].Entry? <==> SlotWord(n.slots[i]).present
    ensures n.slots[i].Entry? ==> Stored(mem', n.slots[i].node)
    ensures SlotPages(n.slots[i]) !! pool' && SlotPages(n.slots[i]) !! Pages(t)
    ensures Planted(t, mem', pool') && Pages(t) !! pool'
  {
    PagesStored(mem, n);
    StoredFrame(mem, mem', n);
    ShapedSlot(n, level, i);
    assert SlotPages(n.slots[i]) <= Pages(n);
  }

  // ----- Whole address spaces

  /** A root with an empty lower half and the given words in the upper half. */
  function FreshRoot(root: nat, words: Page): Node
    requires |words| == PAGE_WORDS
  {
    Table(root, seq(PAGE_WORDS, i requires 0 <= i < PAGE_WORDS => Plain(if i < 256 then ZERO else words[i])))
  }

  lemma FreshRootFacts(mem: map<nat, Page>, pool: set<nat>, root: nat, words: Page)
    requires |words| == PAGE_WORDS && root in mem && root != 0 && root !in pool && |mem[root]| == PAGE_WORDS
    requires forall i :: 0 <= i < PAGE_WORDS ==> mem[root][i] == if i < 256 then ZERO else words[i]
    ensures RootShaped(FreshRoot(root, words)) && Planted(FreshRoot(root, words), mem, pool)
    ensures Pages(FreshRoot(root, words)) == {root}
  {
    var t := FreshRoot(root, words);
    assert UpTo(t.slots, |t.slots|) == {};
  }

  lemma FreshOpen(root: nat, words: Page, user: bool)
    requires |words| == PAGE_WORDS
    ensures Open(FreshRoot(root, words), user)
  {
  }

  /** `vmm_space_create`: no user mappings, and the active space's kernel half. */
  method SpaceCreate(ram: Ram, active: nat) returns (root: nat)
    requires ram.Valid() && active in ram.mem && active !in ram.Pool()
    modifies ram
    ensures ram.Valid() && ram.mem.Keys == old(ram.mem).Keys && |old(ram.mem)[active]| == PAGE_WORDS
    ensures root == 0 ==> old(ram.Pool()) == {} && ram.Pool() == {} && ram.mem == old(ram.mem)
    ensures root != 0 ==>
              var t := FreshRoot(root, old(ram.mem)[active]);
              RootShaped(t) && Grown(t, old(ram.mem), ram.mem, old(ram.Pool()), ram.Pool()) && root in old(ram.Pool())
    ensures root != 0 ==>
              root in ram.mem && |ram.mem[root]| == PAGE_WORDS
              && (forall i :: 0 <= i < 256 ==> !ram.mem[root][i].present)
              && (forall i :: 256 <= i < PAGE_WORDS ==> ram.mem[root][i] == old(ram.mem)[active][i])
  {
    hide Ram.Valid, Ram.Pool;
    SizedPage(ram, active);
    root := ram.AllocPage();
    if root == 0 {
      return;
    }
    var i := 256;
    while i < 512
      invariant 256 <= i <= 512 && ram.Valid() && ram.Pool() == old(ram.Pool()) - {root}
      invariant Untouched(old(ram.mem), ram.mem, {root}) && |ram.mem[root]| == PAGE_WORDS
      invariant forall k :: 0 <= k < PAGE_WORDS ==>
                  ram.mem[root][k] == if 256 <= k < i then old(ram.mem)[active][k] else ZERO
    {
      ram.Write(root, i, ram.mem[active][i]);
      i := i + 1;
    }
    FreshRootFacts(ram.mem, ram.Pool(), root, old(ram.mem)[active]);
  }

  /** The clone of a root so far. */
  ghost predicate RootPartial(n: Node, t: Node, kernel: Page, i: nat) {
    && n.Table? && |n.slots| == PAGE_WORDS && |kernel| == PAGE_WORDS && i <= 256
    && RootShaped(t) && t.Table? && |t.slots| == PAGE_WORDS
    && (forall j :: 0 <= j < i ==> SlotCopy(n.slots[j], t.slots[j]))
    && (forall j :: i <= j < 256 ==> t.slots[j] == Plain(ZERO))
    && (forall j :: 256 <= j < PAGE_WORDS ==> t.slots[j] == Plain(kernel[j]))
  }

  /** The same user mappings over other pages, and the given kernel half. */
  ghost predicate RootCopy(n: Node, t: Node, kernel: Page) {
    RootPartial(n, t, kernel, 256)
  }

  lemma RootStep(n: Node, t: Node, t': Node, kernel: Page, i: nat)
    requires RootPartial(n, t, kernel, i) && i < 256 && t'.Table? && |t'.slots| == PAGE_WORDS
    requires t'.slots == t.slots[i := t'.slots[i]] && SlotShaped(t'.slots[i], 4)
    ensures RootShaped(t')
    ensures SlotCopy(n.slots[i], t'.slots[i]) ==> RootPartial(n, t', kernel, i + 1)
  {
    forall j | 0 <= j < PAGE_WORDS && j != i ensures t'.slots[j] == t.slots[j] {
    }
  }

  /** `vmm_space_clone`: a full copy over fresh pages, or nothing taken at all. */
  method SpaceClone(ram: Ram, active: nat, src: nat, ghost n: Node) returns (dst: nat, ghost t: Node)
    requires Holds(ram, n) && n.page == src && active in ram.mem && active !in ram.Pool()
    modifies ram
    ensures ram.Valid() && |old(ram.mem)[active]| == PAGE_WORDS
    ensures dst == 0 ==> ram.Pool() == old(ram.Pool()) && Untouched(old(ram.mem), ram.mem, old(ram.Pool()))
    ensures dst != 0 ==> Holds(ram, t) && t.page == dst && RootCopy(n, t, old(ram.mem)[active])
    ensures dst != 0 ==> Pages(t) <= old(ram.Pool()) && ram.Pool() == old(ram.Pool()) - Pages(t)
    ensures dst != 0 ==> Untouched(old(ram.mem), ram.mem, Pages(t))
    ensures Holds(ram, n)
    ensures dst != 0 <==> Enough(old(ram.Pool()), n)
    ensures dst != 0 ==> Opens(n, t, true)
  {
    hide Opens, Open, Enough, Cost, Short, Weight, WeightTo, SlotWeight, Ram.Valid, Ram.Pool, Stored, Shaped, Apart,
         Pages,
         Planted, Untouched, Copy, SlotCopy, SlotShaped, SlotPages,
         RootShaped;
    ghost var mem0, pool0 := ram.mem, ram.Pool();
    dst := SpaceCreate(ram, active);
    ghost var kernel := old(ram.mem)[active];
    t := FreshRoot(if dst == 0 then 1 else dst, kernel);
    if dst == 0 {
      SameUntouched(ram.mem, ram.Pool());
      EmptyShort(pool0, Weight(n));
      CloneShort(n, mem0, pool0);
      return;
    }
    CloneRootStart(n, mem0, pool0, t, dst, kernel);
    RootCost(t, mem0, ram.mem, pool0, ram.Pool(), kernel);
    PaidNone(pool0, ram.Pool(), n, 1);
    var i := 0;
    while i < 256
      invariant 0 <= i <= 256 && ram.Valid() && t.page == dst && RootPartial(n, t, kernel, i)
      invariant Grown(t, mem0, ram.mem, pool0, ram.Pool())
      invariant Paid(pool0, ram.Pool(), n, i, 1)
    {
      RootStays(n, t, mem0, ram.mem, pool0, ram.Pool(), i);
      var entry := ram.mem[src][i];
      ghost var before, mem, pool := t, ram.mem, ram.Pool();
      if !entry.present {
        RootSkip(n, t, kernel, i);
        PaidSkip(pool0, ram.Pool(), n, i, 1);
      } else {
        var ok;
        ok, t := CloneSlot(ram, dst, i, entry, 4, n.slots[i], t);
        RootStep(n, before, t, kernel, i);
        GrownTrans(before, t, mem0, mem, ram.mem, pool0, pool, ram.Pool());
        PaidStep(pool0, pool, ram.Pool(), n, i, 1, ok);
        if !ok {
          CloneShort(n, mem0, pool0);
          ghost var mem1, pool1 := ram.mem, ram.Pool();
          GrownSound(n, t, mem0, ram.mem, pool0, ram.Pool());
          SpaceDestroy(ram, active, dst, t);
          GrownUndone(n, t, mem0, mem1, ram.mem, pool0, pool1);
          dst := 0;
          return;
        }
      }
      i := i + 1;
    }
    GrownSound(n, t, mem0, ram.mem, pool0, ram.Pool());
    CloneEnough(n, mem0, pool0, ram.Pool());
    CloneOpens(n, t, kernel);
  }

  lemma CloneOpens(n: Node, t: Node, kernel: Page)
    requires RootCopy(n, t, kernel)
    ensures Opens(n, t, true)
  {
    forall user | Open(n, user) ensures Open(t, user) {
      forall i | 0 <= i < |t.slots| ensures SlotOpen(t.slots[i], user) {
        if i < 256 {
          assert SlotCopy(n.slots[i], t.slots[i]) && SlotOpen(n.slots[i], user);
          if n.slots[i].Entry? {
            CopyOpen(n.slots[i].node, t.slots[i].node, user);
          }
        }
      }
    }
  }

  /** The pool has a page for every page of the space. */
  ghost predicate Enough(pool: set<nat>, n: Node) {
    |pool| >= |Pages(n)|
  }

  lemma CloneShort(n: Node, mem: map<nat, Page>, pool: set<nat>)
    requires Sound(n, mem, pool) && Short(pool, Weight(n))
    ensures !Enough(pool, n)
  {
    WeightPages(n);
  }

  lemma CloneEnough(n: Node, mem: map<nat, Page>, pool: set<nat>, after: set<nat>)
    requires Sound(n, mem, pool) && Paid(pool, after, n, 256, 1)
    ensures Enough(pool, n)
  {
    PaidRoot(pool, after, n);
    WeightPages(n);
  }

  lemma RootCost(t: Node, mem: map<nat, Page>, mem': map<nat, Page>, pool: set<nat>, pool': set<nat>, kernel: Page)
    requires |kernel| == PAGE_WORDS && Grown(t, mem, mem', pool, pool') && t == FreshRoot(t.page, kernel)
    requires t.page in pool
    ensures Cost(pool, pool', 1)
  {
    assert UpTo(t.slots, |t.slots|) == {};
    assert Pages(t) == {t.page};
  }

  lemma SameUntouched(mem: map<nat, Page>, pages: set<nat>)
    ensures Untouched(mem, mem, pages)
  {
  }

  lemma CloneRootStart(n: Node, mem: map<nat, Page>, pool: set<nat>, t: Node, dst: nat, kernel: Page)
    requires Sound(n, mem, pool) && |kernel| == PAGE_WORDS && t == FreshRoot(dst, kernel) && RootShaped(t)
    ensures RootPartial(n, t, kernel, 0)
  {
  }

  lemma RootSkip(n: Node, t: Node, kernel: Page, i: nat)
    requires RootPartial(n, t, kernel, i) && i < 256 && n.slots[i].Plain?
    ensures RootPartial(n, t, kernel, i + 1)
  {
  }

  lemma RootStays(n: Node, t: Node, mem: map<nat, Page>, mem': map<nat, Page>, pool: set<nat>, pool': set<nat>, i: nat)
    requires Sound(n, mem, pool) && Grown(t, mem, mem', pool, pool') && t.page in pool && i < 256
    ensures n.Table? && |n.slots| == PAGE_WORDS && n.page in mem' && |mem'[n.page]| == PAGE_WORDS
    ensures mem'[n.page][i] == SlotWord(n.slots[i]) && SlotShaped(n.slots[i], 4)
    ensures n.slots[i].Entry? <==> SlotWord(n.slots[i]).present
    ensures n.slots[i].Entry? ==> Stored(mem', n.slots[i].node)
    ensures SlotPages(n.slots[i]) !! pool' && SlotPages(n.slots[i]) !! Pages(t)
    ensures Planted(t, mem', pool') && Pages(t) !! pool'
  {
    PagesStored(mem, n);
    StoredFrame(mem, mem', n);
    RootSlot(n, i);
    assert SlotPages(n.slots[i]) <= Pages(n);
  }

  lemma GrownSound(n: Node, t: Node, mem: map<nat, Page>, mem': map<nat, Page>, pool: set<nat>, pool': set<nat>)
    requires Sound(n, mem, pool) && Grown(t, mem, mem', pool, pool') && RootShaped(t) && t.page in pool
    ensures Sound(t, mem', pool') && Sound(n, mem', pool') && Pages(t) <= pool && pool' + Pages(t) == pool
    ensures Untouched(mem, mem', Pages(t))
  {
    PagesStored(mem, n);
    StoredFrame(mem, mem', n);
  }

  /** Freeing everything that was grown restores the pool and leaves the rest of memory alone. */
  lemma GrownUndone(n: Node, t: Node, m0: map<nat, Page>, m1: map<nat, Page>, m2: map<nat, Page>, p0: set<nat>,
                    p1: set<nat>)
    requires Sound(n, m0, p0) && Grown(t, m0, m1, p0, p1) && t.page in p0 && Untouched(m1, m2, Pages(t))
    ensures p1 + Pages(t) == p0 && Untouched(m0, m2, p0) && Sound(n, m2, p0)
  {
    PagesStored(m0, n);
    StoredFrame(m0, m2, n);
  }

  /** A cloned space maps exactly the same user pages with the same permissions and bytes. */
  lemma CloneSameMap(n: Node, t: Node, kernel: Page, v: nat)
    requires RootCopy(n, t, kernel) && v < USER_PAGES
    ensures AlikeMapping(Find(n, Path(v)), Find(t, Path(v)))
  {
    var q := Path(v);
    assert SlotCopy(n.slots[q[0]], t.slots[q[0]]);
    if n.slots[q[0]].Entry? {
      CopyFinds(n.slots[q[0]].node, t.slots[q[0]].node, q[1..]);
    }
  }
}

/**
 The x86_64 half of kernel/mm/mm.c: walking, mapping, unmapping and protecting in
 raw memory, each proved to be one edit of the map the tables stand for.  The ghost
 parameters `n` are the tree that memory holds; they take no part in the computation.
 */
module PageTables {
  import opened Ram
  import opened PageTree

  // ----- Address spaces

  /** A root table: the lower half is user space, the upper half is the kernel's and not followed. */
  ghost predicate RootShaped(n: Node) {
    && n.Table? && |n.slots| == PAGE_WORDS
    && (forall i :: 0 <= i < 256 ==> SlotShaped(n.slots[i], 4))
    && (forall i :: 256 <= i < PAGE_WORDS ==> n.slots[i].Plain?)
  }

  /** The tree is in memory, shares no page with itself, and none with the allocator. */
  ghost predicate Sound(n: Node, mem: map<nat, Page>, pool: set<nat>) {
    RootShaped(n) && Stored(mem, n) && Apart(n) && Pages(n) !! pool && 0 !in Pages(n)
  }

  ghost predicate Holds(ram: Ram, n: Node)
    reads ram
  {
    ram.Valid() && Sound(n, ram.mem, ram.Pool())
  }

  ghost predicate UserPath(path: seq<nat>) {
    PathOk(path) && |path| <= 4 && (path != [] ==> path[0] < 256)
  }

  lemma RootAt(n: Node, path: seq<nat>)
    requires RootShaped(n) && UserPath(path) && Reaches(n, path) && path != []
    ensures Shaped(At(n, path), 4 - |path|)
  {
    assert SlotShaped(n.slots[path[0]], 4);
    AtShaped(n.slots[path[0]].node, 3, path[1..]);
  }

  lemma RootUpdate(n: Node, path: seq<nat>, idx: nat, slot: Slot)
    requires RootShaped(n) && UserPath(path + [idx]) && Reaches(n, path)
    requires At(n, path).Table? && idx < |At(n, path).slots| && SlotShaped(slot, 4 - |path|)
    ensures RootShaped(Update(n, path, idx, slot)) && Update(n, path, idx, slot).page == n.page
  {
    if path != [] {
      assert (path + [idx])[0] == path[0];
      assert SlotShaped(n.slots[path[0]], 4);
      UpdateShaped(n.slots[path[0]].node, 3, path[1..], idx, slot);
    } else {
      assert (path + [idx])[0] == idx;
    }
  }

  /** Everything an update of one word does to a sound tree. */
  lemma UpdateSound(n: Node, mem: map<nat, Page>, pool: set<nat>, path: seq<nat>, idx: nat, slot: Slot)
    requires Sound(n, mem, pool) && UserPath(path + [idx]) && Reaches(n, path)
    requires At(n, path).Table? && idx < |At(n, path).slots| && SlotShaped(slot, 4 - |path|)
    requires slot.Entry? ==> Apart(slot.node) && Stored(mem, slot.node)
    requires slot.Entry? ==> At(n, path).page !in Pages(slot.node)
    requires SlotPages(slot) !! (Pages(n) - SlotPages(At(n, path).slots[idx]))
    requires SlotPages(slot) !! pool && 0 !in SlotPages(slot)
    ensures At(n, path).page in mem && idx < |mem[At(n, path).page]|
    ensures var n' := Update(n, path, idx, slot);
            Sound(n', Poke(mem, At(n, path).page, idx, SlotWord(slot)), pool)
            && n'.page == n.page
            && Pages(n') == Pages(n) - SlotPages(At(n, path).slots[idx]) + SlotPages(slot)
  {
    var page := At(n, path).page;
    AtStored(mem, n, path);
    RootUpdate(n, path, idx, slot);
    UpdatePages(n, path, idx, slot);
    if slot.Entry? {
      PagesStored(mem, slot.node);
      StoredFrame(mem, Poke(mem, page, idx, SlotWord(slot)), slot.node);
    }
    UpdateStored(mem, n, path, idx, slot);
  }

  /** The word a table holds is the word of its slot. */
  lemma ReadSlot(n: Node, mem: map<nat, Page>, pool: set<nat>, path: seq<nat>, idx: nat)
    requires Sound(n, mem, pool) && UserPath(path + [idx]) && Reaches(n, path) && |path| < 4 && idx < PAGE_WORDS
    ensures At(n, path).Table? && |At(n, path).slots| == PAGE_WORDS
    ensures At(n, path).page in mem && |mem[At(n, path).page]| == PAGE_WORDS
    ensures mem[At(n, path).page][idx] == SlotWord(At(n, path).slots[idx])
    ensures SlotShaped(At(n, path).slots[idx], 4 - |path|)
    ensures Reaches(n, path + [idx]) <==> At(n, path).slots[idx].Entry?
    ensures Reaches(n, path + [idx]) ==> At(n, path + [idx]) == At(n, path).slots[idx].node
  {
    AtStored(mem, n, path);
    if path != [] {
      assert (path + [idx])[..|path|] == path;
      assert forall i :: 0 <= i < |path| ==> path[i] == (path + [idx])[i];
      RootAt(n, path);
    } else {
      assert (path + [idx])[0] == idx;
    }
    assert (path + [idx])[|path|] == idx;
    ReachesSnoc(n, path, idx);
  }

  lemma {:induction false} ReachesSnoc(n: Node, path: seq<nat>, idx: nat)
    requires Reaches(n, path)
    ensures Reaches(n, path + [idx]) <==>
              At(n, path).Table? && idx < |At(n, path).slots| && At(n, path).slots[idx].Entry?
    ensures Reaches(n, path + [idx]) ==> At(n, path + [idx]) == At(n, path).slots[idx].node
    decreases |path|
  {
    if path == [] {
      assert [] + [idx] == [idx] && [idx][1..] == [];
    } else {
      assert (path + [idx])[0] == path[0] && (path + [idx])[1..] == path[1..] + [idx];
      ReachesSnoc(n.slots[path[0]].node, path[1..], idx);
    }
  }

  lemma {:induction false} UpdateReaches(n: Node, path: seq<nat>, idx: nat, slot: Slot)
    requires Reaches(n, path) && At(n, path).Table? && idx < |At(n, path).slots| && slot.Entry?
    ensures var n' := Update(n, path, idx, slot);
            Reaches(n', path + [idx]) && At(n', path + [idx]) == slot.node
    decreases |path|
  {
    if path == [] {
      assert [] + [idx] == [idx] && [idx][1..] == [];
    } else {
      assert (path + [idx])[0] == path[0] && (path + [idx])[1..] == path[1..] + [idx];
      UpdateReaches(n.slots[path[0]].node, path[1..], idx, slot);
    }
  }

  /** A fresh zeroed page is a table with nothing in it. */
  function EmptyTable(page: nat): Node {
    Table(page, seq(PAGE_WORDS, _ => Plain(ZERO)))
  }

  lemma EmptyTableFacts(mem: map<nat, Page>, page: nat, level: nat)
    requires page in mem && mem[page] == ZeroPage() && level > 0
    ensures Stored(mem, EmptyTable(page)) && Apart(EmptyTable(page)) && Shaped(EmptyTable(page), level)
    ensures Pages(EmptyTable(page)) == {page}
    ensures forall q :: Find(EmptyTable(page), q) == Unmapped
  {
    var t := EmptyTable(page);
    assert UpTo(t.slots, |t.slots|) == {};
  }

  /** Two trees that map every virtual page alike. */
  ghost predicate SameMap(a: Node, b: Node) {
    forall q :: |q| == 4 ==> Find(a, q) == Find(b, q)
  }

  lemma SameMapUpdate(n: Node, path: seq<nat>, idx: nat, slot: Slot)
    requires Reaches(n, path) && |path| < 3 && At(n, path).Table? && idx < |At(n, path).slots|
    requires forall rest :: rest != [] ==> FindIn(slot, rest) == FindIn(At(n, path).slots[idx], rest)
    ensures SameMap(n, Update(n, path, idx, slot))
  {
    forall q | |q| == 4 ensures Find(n, q) == Find(Update(n, path, idx, slot), q) {
      UpdateFind(n, path, idx, slot, q);
      assert q[|path| + 1..] != [];
    }
  }

  // ----- Walking

  /** Memory outside the tree is as it was. */
  ghost predicate Untouched(before: map<nat, Page>, after: map<nat, Page>, pages: set<nat>) {
    before.Keys == after.Keys && forall p :: p in before && p !in pages ==> after[p] == before[p]
  }

  /** The effect of making room on the way to a page: nothing is mapped or unmapped, the only
      new pages come from the pool, and no page is lost. */
  ghost predicate Roomier(n: Node, n': Node, mem: map<nat, Page>, mem': map<nat, Page>, pool: set<nat>,
                          pool': set<nat>) {
    && n'.page == n.page && SameMap(n, n')
    && Pages(n) <= Pages(n') <= Pages(n) + pool && pool' == pool - Pages(n')
    && Untouched(mem, mem', Pages(n'))
  }

  lemma RoomierRefl(n: Node, mem: map<nat, Page>, pool: set<nat>)
    requires Pages(n) !! pool
    ensures Roomier(n, n, mem, mem, pool, pool)
  {
  }

  lemma RoomierTrans(a: Node, b: Node, c: Node, ma: map<nat, Page>, mb: map<nat, Page>, mc: map<nat, Page>,
                     pa: set<nat>, pb: set<nat>, pc: set<nat>)
    requires Roomier(a, b, ma, mb, pa, pb) && Roomier(b, c, mb, mc, pb, pc)
    ensures Roomier(a, c, ma, mc, pa, pc)
  {
    forall q | |q| == 4 ensures Find(a, q) == Find(c, q) {
      assert Find(a, q) == Find(b, q);
    }
  }

  /** At most `k` pages have left the pool. */
  ghost predicate Spent(before: set<nat>, after: set<nat>, k: nat) {
    |before| <= |after| + k
  }

  ghost predicate Few(pool: set<nat>, k: nat) {
    |pool| <= k
  }

  lemma SpentNone(pool: set<nat>)
    ensures Spent(pool, pool, 0)
  {
  }

  lemma SpentOne(pool: set<nat>, page: nat)
    ensures Spent(pool, pool - {page}, 1)
  {
    if page !in pool {
      assert pool - {page} == pool;
    }
  }

  lemma SpentMore(a: set<nat>, b: set<nat>, c: set<nat>, j: nat, k: nat, n: nat)
    requires Spent(a, b, j) && Spent(b, c, k) && j + k <= n
    ensures Spent(a, c, n)
  {
  }

  /** The table behind entry `index` of `table`, created on demand; 0 when there is none. */
  method NextTable(ram: Ram, table: nat, index: nat, create: bool, user: bool, ghost n: Node, ghost path: seq<nat>)
    returns (next: nat, ghost n': Node)
    requires Holds(ram, n) && |path| < 3 && UserPath(path + [index]) && index < PAGE_WORDS
    requires Reaches(n, path) && At(n, path).page == table
    modifies ram
    ensures Holds(ram, n') && Roomier(n, n', old(ram.mem), ram.mem, old(ram.Pool()), ram.Pool())
    ensures next != 0 ==> Reaches(n', path + [index]) && At(n', path + [index]).page == next
    ensures next == 0 ==> n' == n && (create ==> ram.Pool() == {})
    ensures !create ==> n' == n && ram.mem == old(ram.mem) && ram.Pool() == old(ram.Pool())
    ensures !create ==> (next == 0 <==> !Reaches(n, path + [index]))
    ensures Spent(old(ram.Pool()), ram.Pool(), if next == 0 then 0 else 1)
    ensures Opens(n, n', create ==> user)
  {
    hide Spent, Stored, Apart, Ram.Valid, Ram.Pool, RootShaped, SameMap, Pages, Opens;
    OpensRefl(n, create ==> user);
    ReadSlot(n, ram.mem, ram.Pool(), path, index);
    AtInside(n, path);
    var entry := ram.mem[table][index];
    n' := n;
    RoomierRefl(n, ram.mem, ram.Pool());
    SpentNone(ram.Pool());
    if !entry.present {
      if !create {
        return 0, n;
      }
      var page := ram.AllocPage();
      if page == 0 {
        return 0, n;
      }
      AllocKeeps(n, old(ram.mem), old(ram.Pool()), page);
      SpentOne(old(ram.Pool()), page);
      assert Sound(n, ram.mem, ram.Pool());
      var bits := ZERO.(present := true, write := true, user := user);
      ghost var slot := Entry(bits, EmptyTable(page));
      EmptyTableFacts(ram.mem, page, 3 - |path|);
      AddTable(n, ram.mem, ram.Pool(), path, index, page, bits);
      NewOpens(n, path, index, page, bits);
      n' := Update(n, path, index, slot);
      ram.Write(table, index, bits.(page := page));
      return page, n';
    }
    next := entry.page;
    SpentMore(ram.Pool(), ram.Pool(), ram.Pool(), 0, 0, 1);
    if entry.huge {
      assert false;  // no user table has large pages
      return;
    }
    AtInside(n, path + [index]);
    if user && create {
      SetUser(n, ram.mem, ram.Pool(), path, index);
      UserOpens(n, path, index);
      ghost var slot := At(n, path).slots[index];
      n' := Update(n, path, index, slot.(bits := slot.bits.(user := true)));
      ram.Write(table, index, entry.(user := true));
    }
  }

  lemma EmptyOpen(page: nat)
    ensures Open(EmptyTable(page), true) && Open(EmptyTable(page), false)
  {
  }

  /** A new table may be written through, and reached by the user if its entry says so. */
  lemma NewOpens(n: Node, path: seq<nat>, idx: nat, page: nat, bits: Word)
    requires Reaches(n, path) && At(n, path).Table? && idx < |At(n, path).slots| && bits.write && bits.rest == 0
    ensures Opens(n, Update(n, path, idx, Entry(bits, EmptyTable(page))), bits.user)
  {
    EmptyOpen(page);
    UpdateOpens(n, path, idx, Entry(bits, EmptyTable(page)), bits.user);
  }

  lemma UserOpens(n: Node, path: seq<nat>, idx: nat)
    requires Reaches(n, path) && At(n, path).Table? && idx < |At(n, path).slots| && At(n, path).slots[idx].Entry?
    ensures var slot := At(n, path).slots[idx];
            Opens(n, Update(n, path, idx, slot.(bits := slot.bits.(user := true))), true)
  {
    var slot := At(n, path).slots[idx];
    UpdateOpens(n, path, idx, slot.(bits := slot.bits.(user := true)), true);
  }

  /** A frame mapped with no other flags. */
  lemma LeafOpens(n: Node, path: seq<nat>, idx: nat, slot: Slot)
    requires Reaches(n, path) && At(n, path).Table? && idx < |At(n, path).slots|
    requires slot.Plain? || (slot.node.Leaf? && (slot.bits.rest == 0
               || (At(n, path).slots[idx].Entry? && slot.bits.rest == At(n, path).slots[idx].bits.rest)))
    ensures Opens(n, Update(n, path, idx, slot), true)
  {
    UpdateOpens(n, path, idx, slot, true);
  }

  lemma AllocKeeps(n: Node, mem: map<nat, Page>, pool: set<nat>, page: nat)
    requires Sound(n, mem, pool) && page in pool
    ensures Sound(n, mem[page := ZeroPage()], pool - {page}) && page !in Pages(n)
  {
    PagesStored(mem, n);
    StoredFrame(mem, mem[page := ZeroPage()], n);
  }

  lemma AddTable(n: Node, mem: map<nat, Page>, pool: set<nat>, path: seq<nat>, idx: nat, page: nat, bits: Word)
    requires Sound(n, mem, pool) && |path| < 3 && UserPath(path + [idx]) && idx < PAGE_WORDS && Reaches(n, path)
    requires At(n, path).Table? && idx < |At(n, path).slots| && At(n, path).slots[idx].Plain?
    requires page in mem && mem[page] == ZeroPage() && page !in Pages(n) && page !in pool && page != 0
    requires bits.present && !bits.huge && bits.page == 0
    ensures At(n, path).page in mem && idx < |mem[At(n, path).page]|
    ensures var n' := Update(n, path, idx, Entry(bits, EmptyTable(page)));
            && Sound(n', Poke(mem, At(n, path).page, idx, bits.(page := page)), pool)
            && n'.page == n.page && SameMap(n, n') && Pages(n') == Pages(n) + {page}
            && Reaches(n', path + [idx]) && At(n', path + [idx]).page == page
  {
    var slot := Entry(bits, EmptyTable(page));
    EmptyTableFacts(mem, page, 3 - |path|);
    AtInside(n, path);
    UpdateSound(n, mem, pool, path, idx, slot);
    UpdateReaches(n, path, idx, slot);
    SameMapUpdate(n, path, idx, slot);
  }

  lemma SetUser(n: Node, mem: map<nat, Page>, pool: set<nat>, path: seq<nat>, idx: nat)
    requires Sound(n, mem, pool) && |path| < 3 && UserPath(path + [idx]) && idx < PAGE_WORDS && Reaches(n, path)
    requires At(n, path).Table? && idx < |At(n, path).slots| && At(n, path).slots[idx].Entry?
    ensures At(n, path).page in mem && idx < |mem[At(n, path).page]|
    ensures var slot := At(n, path).slots[idx];
            var n' := Update(n, path, idx, slot.(bits := slot.bits.(user := true)));
            && Sound(n', Poke(mem, At(n, path).page, idx, SlotWord(slot).(user := true)), pool)
            && n'.page == n.page && SameMap(n, n') && Pages(n') == Pages(n)
            && Reaches(n', path + [idx]) && At(n', path + [idx]) == slot.node
  {
    var old' := At(n, path).slots[idx];
    var slot := old'.(bits := old'.bits.(user := true));
    ReadSlot(n, mem, pool, path, idx);
    AtStored(mem, n, path);
    SlotApart(n, path, idx);
    UpdateSound(n, mem, pool, path, idx, slot);
    UpdateReaches(n, path, idx, slot);
    SameMapUpdate(n, path, idx, slot);
  }

  /** What hangs below a slot of a sound tree is itself apart, and apart from its table. */
  lemma {:induction false} SlotApart(n: Node, path: seq<nat>, idx: nat)
    requires Apart(n) && Reaches(n, path) && At(n, path).Table? && idx < |At(n, path).slots|
    ensures At(n, path).page !in SlotPages(At(n, path).slots[idx])
    ensures SlotPages(At(n, path).slots[idx]) <= Pages(n)
    ensures At(n, path).slots[idx].Entry? ==> Apart(At(n, path).slots[idx].node)
    decreases |path|
  {
    if path != [] {
      SlotApart(n.slots[path[0]].node, path[1..], idx);
      assert SlotPages(n.slots[path[0]]) <= Pages(n);
    }
  }

  /** The last-level table on the way to virtual page `v`, or 0. */
  method GetPte(ram: Ram, root: nat, v: nat, create: bool, user: bool, ghost n: Node)
    returns (table: nat, ghost n': Node)
    requires Holds(ram, n) && n.page == root && v < USER_PAGES
    modifies ram
    ensures Holds(ram, n') && Roomier(n, n', old(ram.mem), ram.mem, old(ram.Pool()), ram.Pool())
    ensures table != 0 ==> Reaches(n', Path(v)[..3]) && At(n', Path(v)[..3]).page == table
    ensures table == 0 ==> (create ==> ram.Pool() == {})
    ensures !create ==> n' == n && ram.mem == old(ram.mem) && ram.Pool() == old(ram.Pool())
    ensures !create ==> (table == 0 <==> !Reaches(n, Path(v)[..3]))
    ensures Spent(old(ram.Pool()), ram.Pool(), if table == 0 then 2 else 3)
    ensures Opens(n, n', create ==> user)
  {
    hide Spent, Sound, Ram.Valid, Ram.Pool, Roomier, Path, Opens;
    var i4, i3, i2 := v / 0x800_0000 % 512, v / 0x4_0000 % 512, v / 512 % 512;
    ghost var path := Path(v);
    PathSplit(v);
    ghost var mem, pool := ram.mem, ram.Pool();
    var pdpt, n1 := NextTable(ram, root, i4, create, user, n, []);
    if Reaches(n, path[..3]) {
      ReachesPrefix(n, path[..3]);
    }
    if pdpt == 0 {
      SpentMore(pool, ram.Pool(), ram.Pool(), 0, 0, 2) by { SpentNone(ram.Pool()); }
      return 0, n1;
    }
    ghost var mem1, pool1 := ram.mem, ram.Pool();
    var pd, n2 := NextTable(ram, pdpt, i3, create, user, n1, path[..1]);
    RoomierTrans(n, n1, n2, mem, mem1, ram.mem, pool, pool1, ram.Pool());
    OpensTrans(n, n1, n2, create ==> user);
    if pd == 0 {
      SpentMore(pool, pool1, ram.Pool(), 1, 0, 2);
      return 0, n2;
    }
    SpentMore(pool, pool1, ram.Pool(), 1, 1, 2);
    ghost var mem2, pool2 := ram.mem, ram.Pool();
    var pt, n3 := NextTable(ram, pd, i2, create, user, n2, path[..2]);
    RoomierTrans(n, n2, n3, mem, mem2, ram.mem, pool, pool2, ram.Pool());
    OpensTrans(n, n2, n3, create ==> user);
    SpentMore(pool, pool2, ram.Pool(), 2, if pt == 0 then 0 else 1, if pt == 0 then 2 else 3);
    return pt, n3;
  }

  lemma PathSplit(v: nat)
    requires v < USER_PAGES
    ensures |Path(v)| == 4
    ensures [] + [v / 0x800_0000 % 512] == Path(v)[..1] && UserPath(Path(v)[..1])
    ensures Path(v)[..1] + [v / 0x4_0000 % 512] == Path(v)[..2] && UserPath(Path(v)[..2])
    ensures Path(v)[..2] + [v / 512 % 512] == Path(v)[..3] && UserPath(Path(v)[..3])
    ensures Path(v)[..3] + [v % 512] == Path(v) && UserPath(Path(v))
  {
  }

  lemma ReachesPrefix(n: Node, path: seq<nat>)
    requires |path| == 3 && Reaches(n, path)
    ensures Reaches(n, path[..1]) && Reaches(n, path[..2]) && path[..3] == path
  {
    assert path[..1][1..] == [] && path[..2][1..] == path[1..][..1];
    assert path[1..][..1][1..] == [];
  }

  // ----- Editing one page of the map

  /** `n'` maps `v` to `m` and every other user page as `n` does. */
  ghost predicate OnlyAt(n: Node, n': Node, v: nat, m: Mapping) {
    forall w: nat :: w < USER_PAGES ==> Find(n', Path(w)) == if w == v then m else Find(n, Path(w))
  }

  /** The page a mapping refers to. */
  ghost function Frame(m: Mapping): set<nat> {
    if m.Mapped? then {m.page} else {}
  }

  lemma LeafSlot(n: Node, mem: map<nat, Page>, pool: set<nat>, v: nat)
    requires Sound(n, mem, pool) && v < USER_PAGES && Reaches(n, Path(v)[..3])
    ensures var t := At(n, Path(v)[..3]);
            && t.Table? && |t.slots| == PAGE_WORDS && t.page in Pages(n)
            && t.page in mem && |mem[t.page]| == PAGE_WORDS
            && mem[t.page][v % 512] == SlotWord(t.slots[v % 512])
            && SlotShaped(t.slots[v % 512], 1)
            && SlotPages(t.slots[v % 512]) == Frame(Find(n, Path(v)))
            && Find(n, Path(v)) == FindIn(t.slots[v % 512], [])
  {
    PathSplit(v);
    ReadSlot(n, mem, pool, Path(v)[..3], v % 512);
    AtInside(n, Path(v)[..3]);
    UpdateFind(n, Path(v)[..3], v % 512, At(n, Path(v)[..3]).slots[v % 512], Path(v));
    assert Path(v)[4..] == [];
  }

  lemma {:induction false} NotReached(n: Node, path: seq<nat>, idx: nat)
    requires !Reaches(n, path)
    ensures Find(n, path + [idx]) == Unmapped
    decreases |path|
  {
    var q := path + [idx];
    assert q[0] == path[0] && q[1..] == path[1..] + [idx];
    if n.Table? && path[0] < |n.slots| && n.slots[path[0]].Entry? {
      NotReached(n.slots[path[0]].node, path[1..], idx);
    }
  }

  lemma NoTable(n: Node, v: nat)
    requires v < USER_PAGES && !Reaches(n, Path(v)[..3])
    ensures Find(n, Path(v)) == Unmapped
  {
    PathSplit(v);
    NotReached(n, Path(v)[..3], v % 512);
  }

  /** Overwriting one last-level word edits exactly one virtual page. */
  lemma EditLeaf(n: Node, mem: map<nat, Page>, pool: set<nat>, v: nat, slot: Slot)
    requires Sound(n, mem, pool) && v < USER_PAGES && Reaches(n, Path(v)[..3])
    requires At(n, Path(v)[..3]).Table? && |At(n, Path(v)[..3]).slots| == PAGE_WORDS
    requires SlotShaped(slot, 1) && (slot.Entry? ==> Stored(mem, slot.node))
    requires SlotPages(slot) !! (Pages(n) - Frame(Find(n, Path(v)))) && SlotPages(slot) !! pool && 0 !in SlotPages(slot)
    ensures var t := At(n, Path(v)[..3]);
            var n' := Update(n, Path(v)[..3], v % 512, slot);
            && t.page in mem && v % 512 < |mem[t.page]|
            && Sound(n', Poke(mem, t.page, v % 512, SlotWord(slot)), pool) && n'.page == n.page
            && Pages(n') == Pages(n) - Frame(Find(n, Path(v))) + SlotPages(slot)
            && OnlyAt(n, n', v, FindIn(slot, []))
  {
    var path := Path(v)[..3];
    LeafSlot(n, mem, pool, v);
    PathSplit(v);
    SlotApart(n, path, v % 512);
    UpdateSound(n, mem, pool, path, v % 512, slot);
    hide *;
    forall w: nat | w < USER_PAGES
      ensures Find(Update(n, path, v % 512, slot), Path(w)) == if w == v then FindIn(slot, []) else Find(n, Path(w))
    {
      LeafFinds(n, v, slot, w);
    }
    OnlyAtAll(n, Update(n, path, v % 512, slot), v, FindIn(slot, []));
  }

  lemma OnlyAtAll(n: Node, n': Node, v: nat, m: Mapping)
    requires forall w: nat :: w < USER_PAGES ==> Find(n', Path(w)) == if w == v then m else Find(n, Path(w))
    ensures OnlyAt(n, n', v, m)
  {
  }

  lemma LeafFinds(n: Node, v: nat, slot: Slot, w: nat)
    requires v < USER_PAGES && w < USER_PAGES && Reaches(n, Path(v)[..3])
    requires At(n, Path(v)[..3]).Table? && |At(n, Path(v)[..3]).slots| == PAGE_WORDS
    ensures Find(Update(n, Path(v)[..3], v % 512, slot), Path(w)) ==
            if w == v then FindIn(slot, []) else Find(n, Path(w))
  {
    var path := Path(v)[..3];
    UpdateFind(n, path, v % 512, slot, Path(w));
    assert Path(w)[4..] == [];
    if path < Path(w) && Path(w)[3] == v % 512 {
      assert Path(w) == Path(w)[..3] + [Path(w)[3]];
      PathInjective(v, w);
    }
  }

  /** `vmm_map` for a user page.  `frame` must be in use and in nobody's tree. */
  method MapUser(ram: Ram, root: nat, v: nat, frame: nat, write: bool, ghost n: Node)
    returns (ok: bool, ghost n': Node)
    requires Holds(ram, n) && n.page == root && v < USER_PAGES
    requires frame != 0 && frame in ram.mem && frame !in Pages(n) && frame !in ram.Pool()
    modifies ram
    ensures Holds(ram, n') && n'.page == root && ram.Pool() == old(ram.Pool()) - Pages(n')
    ensures ok ==> OnlyAt(n, n', v, Mapped(frame, write, true, old(ram.mem[frame])))
    ensures !ok ==> SameMap(n, n') && ram.Pool() == {}
    ensures Spent(old(ram.Pool()), ram.Pool(), if ok then 3 else 2)
    ensures Pages(n') == Pages(n) + (old(ram.Pool()) - ram.Pool())
                         - (if ok then Frame(Find(n, Path(v))) else {}) + (if ok then {frame} else {})
    ensures Untouched(old(ram.mem), ram.mem, Pages(n) + Pages(n') - {frame}) && ram.mem[frame] == old(ram.mem[frame])
    ensures Opens(n, n', true)
  {
    hide Spent, Sound, Ram.Valid, Ram.Pool, Path, Roomier, OnlyAt, SameMap, Untouched, Frame, Opens;
    FrameInTree(n, ram.mem, ram.Pool(), v);
    SizedPage(ram, frame);
    var table, n1 := GetPte(ram, root, v, true, true, n);
    MapMissed(n, n1, old(ram.mem), ram.mem, old(ram.Pool()), ram.Pool(), frame);
    n' := n1;
    ok := table != 0;
    if ok {
      var word := ZERO.(page := frame, present := true, user := true, write := write);
      MapEffect(n, n1, old(ram.mem), ram.mem, old(ram.Pool()), ram.Pool(), v, frame, write);
      n' := Update(n1, Path(v)[..3], v % 512, Entry(word.(page := 0), Leaf(frame, ram.mem[frame])));
      LeafOpens(n1, Path(v)[..3], v % 512, Entry(word.(page := 0), Leaf(frame, ram.mem[frame])));
      OpensTrans(n, n1, n', true);
      ram.Write(table, v % 512, word);
    }
  }

  /** A failed map has at most made room. */
  lemma MapMissed(n: Node, n1: Node, mem: map<nat, Page>, mem1: map<nat, Page>, pool: set<nat>, pool1: set<nat>,
                  frame: nat)
    requires Pages(n) !! pool && Roomier(n, n1, mem, mem1, pool, pool1)
    requires frame in mem && frame !in Pages(n) && frame !in pool
    ensures n1.page == n.page && SameMap(n, n1) && Pages(n1) == Pages(n) + (pool - pool1) && pool1 == pool - Pages(n1)
    ensures frame !in Pages(n1) && frame !in pool1 && frame in mem1 && mem1[frame] == mem[frame]
    ensures Untouched(mem, mem1, Pages(n) + Pages(n1) - {frame})
  {
  }

  /** Making room and then writing the last-level word. */
  lemma MapEffect(n: Node, n1: Node, mem: map<nat, Page>, mem1: map<nat, Page>, pool: set<nat>, pool1: set<nat>,
                  v: nat, frame: nat, write: bool)
    requires Sound(n, mem, pool) && Sound(n1, mem1, pool1) && Roomier(n, n1, mem, mem1, pool, pool1)
    requires v < USER_PAGES && Reaches(n1, Path(v)[..3])
    requires frame != 0 && frame in mem && |mem[frame]| == PAGE_WORDS && frame !in Pages(n) && frame !in pool
    ensures frame in mem1 && mem1[frame] == mem[frame]
    ensures var t := At(n1, Path(v)[..3]);
            var word := ZERO.(page := frame, present := true, user := true, write := write);
            var slot := Entry(word.(page := 0), Leaf(frame, mem1[frame]));
            && t.page in mem1 && |mem1[t.page]| == PAGE_WORDS && t.page !in pool1 && t.page != frame
            && t.Table? && |t.slots| == PAGE_WORDS
            && var n' := Update(n1, Path(v)[..3], v % 512, slot);
               var mem' := Poke(mem1, t.page, v % 512, word);
               && Sound(n', mem', pool1) && n'.page == n.page
                    && OnlyAt(n, n', v, Mapped(frame, write, true, mem[frame]))
               && pool1 == pool - Pages(n')
               && Pages(n') == Pages(n) + (pool - pool1) - Frame(Find(n, Path(v))) + {frame}
               && Untouched(mem, mem', Pages(n) + Pages(n') - {frame})
  {
    hide Sound, Stored, Pages, SlotPages, SlotShaped, Shaped, Update, At, Find, Reaches, Path, OnlyAt, FindIn;
    var word := ZERO.(page := frame, present := true, user := true, write := write);
    LeafEntry(mem1, frame, word);
    var slot := Entry(word.(page := 0), Leaf(frame, mem1[frame]));
    FrameInTree(n, mem, pool, v);
    LeafSlot(n1, mem1, pool1, v);
    var n' := Update(n1, Path(v)[..3], v % 512, slot);
    FrameInPages(n1, mem1, pool1, v);
    PathSplit(v);
    assert Find(n, Path(v)) == Find(n1, Path(v));
    EditLeaf(n1, mem1, pool1, v, slot);
    OnlyAtSame(n, n1, n', v, Mapped(frame, write, true, mem[frame]));
    assert Pages(n1) == Pages(n) + (pool - pool1);
  }

  lemma LeafEntry(mem: map<nat, Page>, frame: nat, word: Word)
    requires frame in mem && |mem[frame]| == PAGE_WORDS && word.present && !word.huge && word.page == frame
    ensures var slot := Entry(word.(page := 0), Leaf(frame, mem[frame]));
            && SlotShaped(slot, 1) && Stored(mem, slot.node) && SlotPages(slot) == {frame}
            && FindIn(slot, []) == Mapped(frame, word.write, word.user, mem[frame]) && SlotWord(slot) == word
  {
  }

  lemma SizedPage(ram: Ram, p: nat)
    requires ram.Valid() && p in ram.mem
    ensures |ram.mem[p]| == PAGE_WORDS
  {
  }

  lemma FrameInPages(n: Node, mem: map<nat, Page>, pool: set<nat>, v: nat)
    requires Sound(n, mem, pool) && v < USER_PAGES && Reaches(n, Path(v)[..3])
    ensures Frame(Find(n, Path(v))) <= Pages(n)
    ensures At(n, Path(v)[..3]).page !in Frame(Find(n, Path(v)))
    ensures At(n, Path(v)[..3]).page in Pages(n) && At(n, Path(v)[..3]).page !in pool
  {
    LeafSlot(n, mem, pool, v);
    SlotApart(n, Path(v)[..3], v % 512);
  }

  lemma FrameInTree(n: Node, mem: map<nat, Page>, pool: set<nat>, v: nat)
    requires Sound(n, mem, pool) && v < USER_PAGES
    ensures Frame(Find(n, Path(v))) <= Pages(n) && Pages(n) !! pool
  {
    if Reaches(n, Path(v)[..3]) { FrameInPages(n, mem, pool, v); } else { NoTable(n, v); }
  }

  lemma OnlyAtSame(a: Node, b: Node, c: Node, v: nat, m: Mapping)
    requires SameMap(a, b) && OnlyAt(b, c, v, m)
    ensures OnlyAt(a, c, v, m)
  {
  }

  /** The page that user page `v` is mapped to, or 0. */
  method UserPhys(ram: Ram, root: nat, v: nat, ghost n: Node) returns (frame: nat)
    requires Holds(ram, n) && n.page == root && v < USER_PAGES
    modifies ram
    ensures Holds(ram, n) && ram.mem == old(ram.mem) && ram.Pool() == old(ram.Pool())
    ensures var m := Find(n, Path(v));
            frame == if m.Mapped? && m.user then m.page else 0
    ensures frame != 0 <==> Find(n, Path(v)).Mapped? && Find(n, Path(v)).user
  {
    hide Sound, Ram.Valid, Ram.Pool, Path;
    PathSplit(v);
    var table, n1 := GetPte(ram, root, v, false, false, n);
    if table == 0 {
      NoTable(n, v);
      return 0;
    }
    LeafSlot(n, ram.mem, ram.Pool(), v);
    FrameInPages(n, ram.mem, ram.Pool(), v);
    ZeroOutside(n, ram.mem, ram.Pool());
    var pte := ram.mem[table][v % 512];
    return if pte.present && pte.user then pte.page else 0;
  }

  lemma ZeroOutside(n: Node, mem: map<nat, Page>, pool: set<nat>)
    requires Sound(n, mem, pool)
    ensures 0 !in Pages(n)
  {
  }

  /** Sets or clears the write permission of one mapped user page. */
  method ProtectUser(ram: Ram, root: nat, v: nat, write: bool, ghost n: Node) returns (ok: bool, ghost n': Node)
    requires Holds(ram, n) && n.page == root && v < USER_PAGES
    modifies ram
    ensures Holds(ram, n') && n'.page == root && Pages(n') == Pages(n) && ram.Pool() == old(ram.Pool())
    ensures ok <==> Find(n, Path(v)).Mapped? && Find(n, Path(v)).user
    ensures ok ==> OnlyAt(n, n', v, Find(n, Path(v)).(write := write))
    ensures !ok ==> n' == n && ram.mem == old(ram.mem)
    ensures Untouched(old(ram.mem), ram.mem, Pages(n))
    ensures Opens(n, n', true)
  {
    hide Spent, Sound, Ram.Valid, Ram.Pool, Path, Opens;
    PathSplit(v);
    OpensRefl(n, true);
    var table, n1 := GetPte(ram, root, v, false, false, n);
    if table == 0 {
      NoTable(n, v);
      return false, n;
    }
    LeafSlot(n, ram.mem, ram.Pool(), v);
    FrameInPages(n, ram.mem, ram.Pool(), v);
    var pte := ram.mem[table][v % 512];
    if !pte.present || !pte.user {
      return false, n;
    }
    ghost var was := At(n, Path(v)[..3]).slots[v % 512];
    ghost var slot := was.(bits := was.bits.(write := write));
    LeafStored(n, ram.mem, ram.Pool(), v);
    ZeroOutside(n, ram.mem, ram.Pool());
    EditLeaf(n, ram.mem, ram.Pool(), v, slot);
    n' := Update(n, Path(v)[..3], v % 512, slot);
    LeafOpens(n, Path(v)[..3], v % 512, slot);
    ram.Write(table, v % 512, pte.(write := write));
    ok := true;
  }

  lemma LeafStored(n: Node, mem: map<nat, Page>, pool: set<nat>, v: nat)
    requires Sound(n, mem, pool) && v < USER_PAGES && Reaches(n, Path(v)[..3])
    requires Find(n, Path(v)).Mapped?
    ensures var t := At(n, Path(v)[..3]);
            && t.Table? && |t.slots| == PAGE_WORDS && t.slots[v % 512].Entry?
            && Stored(mem, t.slots[v % 512].node)
            && Find(n, Path(v)).page in mem && Find(n, Path(v)).page !in pool
  {
    LeafSlot(n, mem, pool, v);
    AtStored(mem, n, Path(v)[..3]);
    FrameInPages(n, mem, pool, v);
    assert Find(n, Path(v)).page in Frame(Find(n, Path(v)));
  }

  /** Removes one user page from the map and gives its frame back. */
  method UnmapUser(ram: Ram, root: nat, v: nat, ghost n: Node) returns (ok: bool, ghost n': Node)
    requires Holds(ram, n) && n.page == root && v < USER_PAGES
    modifies ram
    ensures Holds(ram, n') && n'.page == root
    ensures ok <==> Find(n, Path(v)).Mapped? && Find(n, Path(v)).user
    ensures !ok ==> n' == n && ram.mem == old(ram.mem) && ram.Pool() == old(ram.Pool())
    ensures ok ==> OnlyAt(n, n', v, Unmapped)
    ensures ok ==> Pages(n') == Pages(n) - {Find(n, Path(v)).page}
    ensures ok ==> Find(n, Path(v)).page in Pages(n) && ram.Pool() == old(ram.Pool()) + {Find(n, Path(v)).page}
    ensures Untouched(old(ram.mem), ram.mem, Pages(n))
    ensures Opens(n, n', true)
  {
    hide Spent, Sound, Ram.Valid, Ram.Pool, Path, Roomier, OnlyAt, Opens;
    PathSplit(v);
    OpensRefl(n, true);
    var table, n1 := GetPte(ram, root, v, false, false, n);
    if table == 0 {
      NoTable(n, v);
      return false, n;
    }
    LeafSlot(n, ram.mem, ram.Pool(), v);
    FrameInPages(n, ram.mem, ram.Pool(), v);
    var pte := ram.mem[table][v % 512];
    if !pte.present || !pte.user {
      return false, n;
    }
    var phys := pte.page;
    LeafStored(n, ram.mem, ram.Pool(), v);
    ZeroOutside(n, ram.mem, ram.Pool());
    EditLeaf(n, ram.mem, ram.Pool(), v, Plain(ZERO));
    n' := Update(n, Path(v)[..3], v % 512, Plain(ZERO));
    LeafOpens(n, Path(v)[..3], v % 512, Plain(ZERO));
    ram.Write(table, v % 512, ZERO);
    ghost var mem, pool := ram.mem, ram.Pool();
    ram.FreePage(phys);
    FreeOutside(n', mem, ram.mem, pool, phys);
    ok := true;
  }

  /** Freeing a page outside the tree leaves the tree sound. */
  lemma FreeOutside(n: Node, mem: map<nat, Page>, mem': map<nat, Page>, pool: set<nat>, page: nat)
    requires Sound(n, mem, pool) && page !in Pages(n)
    requires mem.Keys == mem'.Keys && forall p :: p in mem && p != page ==> mem'[p] == mem[p]
    ensures Sound(n, mem', pool + {page})
  {
    PagesStored(mem, n);
    StoredFrame(mem, mem', n);
  }
}

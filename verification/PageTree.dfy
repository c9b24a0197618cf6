/**
 Page tables of kernel/mm/mm.c as trees.  A tree says what a table in raw memory
 means: `Stored` ties the two, `Pages` is the set of pages it occupies, and `Find`
 is the map from virtual pages to frames that it stands for.
 */
module PageTree {
  import opened Ram

  /** A leaf is a frame of user memory; a table has one slot per word. */
  datatype Node = Leaf(page: nat, data: Page) | Table(page: nat, slots: seq<Slot>)

  /** A word that is not followed, or an entry: its flag bits (page field 0) and what it points to. */
  datatype Slot = Plain(word: Word) | Entry(bits: Word, node: Node)

  function SlotWord(s: Slot): Word {
    match s
    case Plain(w) => w
    case Entry(bits, node) => bits.(page := node.page)
  }

  /** Memory holds the tree. */
  ghost predicate Stored(mem: map<nat, Page>, n: Node) {
    && n.page in mem
    && match n
       case Leaf(page, data) => mem[page] == data
       case Table(page, slots) =>
         && |mem[page]| == |slots|
         && (forall i :: 0 <= i < |slots| ==> mem[page][i] == SlotWord(slots[i]))
         && (forall i :: 0 <= i < |slots| && slots[i].Entry? ==> Stored(mem, slots[i].node))
  }

  /** A table of the given level (1 is the last one) without large pages. */
  ghost predicate Shaped(n: Node, level: nat) {
    if level == 0 then n.Leaf? && |n.data| == PAGE_WORDS
    else n.Table? && |n.slots| == PAGE_WORDS
         && (forall i :: 0 <= i < |n.slots| ==> SlotShaped(n.slots[i], level))
  }

  ghost predicate SlotShaped(s: Slot, level: nat)
    requires level > 0
  {
    match s
    case Plain(w) => !w.present
    case Entry(bits, node) => bits.present && !bits.huge && bits.page == 0 && Shaped(node, level - 1)
  }

  ghost function Pages(n: Node): set<nat> {
    match n
    case Leaf(page, _) => {page}
    case Table(page, slots) => {page} + UpTo(slots, |slots|)
  }

  ghost function SlotPages(s: Slot): set<nat> {
    if s.Entry? then Pages(s.node) else {}
  }

  /** Pages reached through the first `k` slots. */
  ghost function UpTo(slots: seq<Slot>, k: nat): (r: set<nat>)
    requires k <= |slots|
    ensures forall p, i :: 0 <= i < k && p in SlotPages(slots[i]) ==> p in r
    ensures forall p :: p in r ==> exists i :: 0 <= i < k && p in SlotPages(slots[i])
    decreases slots, k
  {
    if k == 0 then {} else UpTo(slots, k - 1) + SlotPages(slots[k - 1])
  }

  /** No page is reached twice. */
  ghost predicate Apart(n: Node) {
    match n
    case Leaf(_, _) => true
    case Table(page, slots) =>
      && page !in UpTo(slots, |slots|)
      && (forall i :: 0 <= i < |slots| && slots[i].Entry? ==> Apart(slots[i].node))
      && (forall i, j :: 0 <= i < j < |slots| ==> SlotPages(slots[i]) !! SlotPages(slots[j]))
  }

  /** A tree only depends on its own pages. */
  lemma {:induction false} StoredFrame(mem: map<nat, Page>, mem': map<nat, Page>, n: Node)
    requires Stored(mem, n) && forall p :: p in Pages(n) ==> p in mem' && p in mem && mem'[p] == mem[p]
    ensures Stored(mem', n)
  {
    match n
    case Leaf(page, data) =>
      assert page in Pages(n);
    case Table(page, slots) =>
      assert page in Pages(n);
      forall i | 0 <= i < |slots| && slots[i].Entry? ensures Stored(mem', slots[i].node) {
        assert SlotPages(slots[i]) <= Pages(n);
        StoredFrame(mem, mem', slots[i].node);
      }
  }

  lemma {:induction false} PagesStored(mem: map<nat, Page>, n: Node)
    requires Stored(mem, n)
    ensures Pages(n) <= mem.Keys
  {
    match n
    case Leaf(page, data) =>
    case Table(page, slots) =>
      forall p | p in Pages(n) ensures p in mem {
        if p != page {
          var i :| 0 <= i < |slots| && p in SlotPages(slots[i]);
          PagesStored(mem, slots[i].node);
        }
      }
  }

  // ----- Paths

  ghost predicate PathOk(path: seq<nat>) {
    forall i :: 0 <= i < |path| ==> path[i] < PAGE_WORDS
  }

  /** The node that the walk along `path` ends at, if every entry on the way is there. */
  function At(n: Node, path: seq<nat>): (r: Node)
    requires Reaches(n, path)
    decreases |path|
  {
    if path == [] then n else At(n.slots[path[0]].node, path[1..])
  }

  predicate Reaches(n: Node, path: seq<nat>)
    decreases |path|
  {
    path == [] || (n.Table? && path[0] < |n.slots| && n.slots[path[0]].Entry?
                   && Reaches(n.slots[path[0]].node, path[1..]))
  }

  /** The tree with slot `idx` of the table at `path` replaced. */
  function Update(n: Node, path: seq<nat>, idx: nat, slot: Slot): Node
    requires Reaches(n, path) && At(n, path).Table? && idx < |At(n, path).slots|
    decreases |path|
  {
    if path == [] then n.(slots := n.slots[idx := slot])
    else n.(slots := n.slots[path[0] := Entry(n.slots[path[0]].bits,
                                              Update(n.slots[path[0]].node, path[1..], idx, slot))])
  }

  /** What a virtual page is mapped to: a frame, its permissions, and the bytes in it. */
  datatype Mapping = Unmapped | Mapped(page: nat, write: bool, user: bool, data: Page)

  function Meaning(s: Slot): Mapping {
    if s.Entry? then Mapped(s.node.page, s.bits.write, s.bits.user, if s.node.Leaf? then s.node.data else [])
    else Unmapped
  }

  /** What the tree maps the end of the path to. */
  function Find(n: Node, path: seq<nat>): (r: Mapping)
    decreases |path|
  {
    if path == [] || !n.Table? || path[0] >= |n.slots| || !n.slots[path[0]].Entry? then Unmapped
    else if |path| == 1 then Meaning(n.slots[path[0]])
    else Find(n.slots[path[0]].node, path[1..])
  }

  // ----- Virtual pages

  const USER_PAGES: nat := 0x8_0000_0000  // 2^47 bytes

  function Path(v: nat): (p: seq<nat>)
    ensures |p| == 4 && PathOk(p)
    ensures v < USER_PAGES ==> p[0] < 256
  {
    [v / 0x800_0000 % 512, v / 0x4_0000 % 512, v / 512 % 512, v % 512]
  }

  /** Distinct user pages take distinct paths. */
  lemma PathInjective(v: nat, w: nat)
    requires v < USER_PAGES && w < USER_PAGES && Path(v) == Path(w)
    ensures v == w
  {
    PathValue(v);
    PathValue(w);
  }

  lemma PathValue(v: nat)
    requires v < USER_PAGES
    ensures v == Path(v)[0] * 0x800_0000 + Path(v)[1] * 0x4_0000 + Path(v)[2] * 512 + Path(v)[3]
  {
    var a, b, c := v / 512, v / 0x4_0000, v / 0x800_0000;
    assert v == a * 512 + v % 512;
    assert b == a / 512 && a == b * 512 + a % 512;
    assert c == b / 512 && b == c * 512 + b % 512;
    assert c < 512;
  }

  // ----- Updates

  lemma {:induction false} AtInside(n: Node, path: seq<nat>)
    requires Reaches(n, path)
    ensures Pages(At(n, path)) <= Pages(n) && At(n, path).page in Pages(n)
    decreases |path|
  {
    if path != [] {
      AtInside(n.slots[path[0]].node, path[1..]);
      assert SlotPages(n.slots[path[0]]) <= Pages(n);
    }
  }

  lemma {:induction false} AtStored(mem: map<nat, Page>, n: Node, path: seq<nat>)
    requires Stored(mem, n) && Reaches(n, path)
    ensures Stored(mem, At(n, path))
    decreases |path|
  {
    if path != [] {
      AtStored(mem, n.slots[path[0]].node, path[1..]);
    }
  }

  lemma {:induction false} AtShaped(n: Node, level: nat, path: seq<nat>)
    requires Shaped(n, level) && Reaches(n, path)
    ensures |path| <= level && Shaped(At(n, path), level - |path|)
    decreases |path|
  {
    if path != [] {
      assert SlotShaped(n.slots[path[0]], level);
      AtShaped(n.slots[path[0]].node, level - 1, path[1..]);
    }
  }

  /** Memory with one word of a table overwritten. */
  function Poke(mem: map<nat, Page>, page: nat, idx: nat, w: Word): map<nat, Page>
    requires page in mem && idx < |mem[page]|
  {
    mem[page := mem[page][idx := w]]
  }

  /** Overwriting one word of one table is an update of the tree, and of nothing else. */
  lemma {:induction false} UpdateStored(mem: map<nat, Page>, n: Node, path: seq<nat>, idx: nat, slot: Slot)
    requires Stored(mem, n) && Apart(n) && Reaches(n, path)
    requires At(n, path).Table? && idx < |At(n, path).slots| && Stored(mem, At(n, path))
    requires slot.Entry? ==> Stored(Poke(mem, At(n, path).page, idx, SlotWord(slot)), slot.node)
    ensures Stored(Poke(mem, At(n, path).page, idx, SlotWord(slot)), Update(n, path, idx, slot))
    decreases |path|
  {
    var page := At(n, path).page;
    var mem' := Poke(mem, page, idx, SlotWord(slot));
    if path == [] {
      forall i | 0 <= i < |n.slots| && i != idx && n.slots[i].Entry? ensures Stored(mem', n.slots[i].node) {
        assert page !in SlotPages(n.slots[i]);
        PagesStored(mem, n.slots[i].node);
        StoredFrame(mem, mem', n.slots[i].node);
      }
    } else {
      var k := path[0];
      var child := n.slots[k].node;
      AtInside(child, path[1..]);
      assert page in SlotPages(n.slots[k]);
      UpdateStored(mem, child, path[1..], idx, slot);
      forall i | 0 <= i < |n.slots| && i != k && n.slots[i].Entry? ensures Stored(mem', n.slots[i].node) {
        assert SlotPages(n.slots[i]) !! SlotPages(n.slots[k]);
        PagesStored(mem, n.slots[i].node);
        StoredFrame(mem, mem', n.slots[i].node);
      }
    }
  }

  lemma {:induction false} UpdateShaped(n: Node, level: nat, path: seq<nat>, idx: nat, slot: Slot)
    requires Shaped(n, level) && Reaches(n, path) && |path| < level
    requires At(n, path).Table? && idx < |At(n, path).slots| && SlotShaped(slot, level - |path|)
    ensures Shaped(Update(n, path, idx, slot), level) && Update(n, path, idx, slot).page == n.page
    decreases |path|
  {
    if path != [] {
      assert SlotShaped(n.slots[path[0]], level);
      UpdateShaped(n.slots[path[0]].node, level - 1, path[1..], idx, slot);
    }
  }

  /** Replacing one slot of a table replaces its pages. */
  lemma UpToReplace(slots: seq<Slot>, k: nat, slot: Slot)
    requires k < |slots|
    requires forall i, j :: 0 <= i < j < |slots| ==> SlotPages(slots[i]) !! SlotPages(slots[j])
    ensures UpTo(slots[k := slot], |slots|) == UpTo(slots, |slots|) - SlotPages(slots[k]) + SlotPages(slot)
  {
    var r := slots[k := slot];
    forall p | p in UpTo(r, |r|) ensures p in UpTo(slots, |slots|) - SlotPages(slots[k]) + SlotPages(slot) {
      var i :| 0 <= i < |r| && p in SlotPages(r[i]);
      if i != k {
        assert p in SlotPages(slots[i]);
      }
    }
    forall p | p in UpTo(slots, |slots|) - SlotPages(slots[k]) + SlotPages(slot) ensures p in UpTo(r, |r|) {
      if p in SlotPages(slot) {
        assert r[k] == slot;
      } else {
        var i :| 0 <= i < |slots| && p in SlotPages(slots[i]);
        assert r[i] == slots[i];
      }
    }
  }

  lemma {:induction false} UpdatePages(n: Node, path: seq<nat>, idx: nat, slot: Slot)
    requires Apart(n) && Reaches(n, path) && At(n, path).Table? && idx < |At(n, path).slots|
    requires slot.Entry? ==> Apart(slot.node)
    requires SlotPages(slot) !! (Pages(n) - SlotPages(At(n, path).slots[idx]))
    ensures Apart(Update(n, path, idx, slot))
    ensures Pages(Update(n, path, idx, slot)) == Pages(n) - SlotPages(At(n, path).slots[idx]) + SlotPages(slot)
    decreases |path|
  {
    var k := if path == [] then idx else path[0];
    var gone := SlotPages(At(n, path).slots[idx]);
    var old' := n.slots[k];
    var new': Slot;
    if path == [] {
      new' := slot;
    } else {
      AtInside(old'.node, path[1..]);
      assert gone <= Pages(At(n, path));
      assert SlotPages(old') <= Pages(n);
      UpdatePages(old'.node, path[1..], idx, slot);
      new' := Entry(old'.bits, Update(old'.node, path[1..], idx, slot));
    }
    assert SlotPages(new') == SlotPages(old') - gone + SlotPages(slot);
    ReplaceSlot(n, k, new', gone, SlotPages(slot));
  }

  lemma ReplaceSlot(n: Node, k: nat, slot: Slot, gone: set<nat>, come: set<nat>)
    requires Apart(n) && n.Table? && k < |n.slots| && (slot.Entry? ==> Apart(slot.node))
    requires gone <= SlotPages(n.slots[k]) && SlotPages(slot) == SlotPages(n.slots[k]) - gone + come
    requires come !! (Pages(n) - gone)
    ensures var r := n.(slots := n.slots[k := slot]);
            Apart(r) && Pages(r) == Pages(n) - gone + come
  {
    var slots := n.slots;
    var r := slots[k := slot];
    UpToReplace(slots, k, slot);
    assert SlotPages(slots[k]) <= Pages(n);
    forall i | 0 <= i < |r| && i != k ensures SlotPages(r[i]) !! SlotPages(slot) {
      assert SlotPages(slots[i]) <= Pages(n);
      assert SlotPages(slots[i]) !! SlotPages(slots[k]);
    }
    assert forall i, j :: 0 <= i < j < |r| ==> SlotPages(r[i]) !! SlotPages(r[j]);
  }

  /** What the rest of a path finds behind a slot. */
  function FindIn(slot: Slot, rest: seq<nat>): Mapping {
    if !slot.Entry? then Unmapped
    else if rest == [] then Meaning(slot)
    else Find(slot.node, rest)
  }

  /** An update changes what is found behind the replaced slot, and nothing else. */
  lemma {:induction false} UpdateFind(n: Node, path: seq<nat>, idx: nat, slot: Slot, q: seq<nat>)
    requires Reaches(n, path) && At(n, path).Table? && idx < |At(n, path).slots| && |q| > |path|
    ensures Find(Update(n, path, idx, slot), q) ==
            if path < q && q[|path|] == idx then FindIn(slot, q[|path| + 1..]) else Find(n, q)
    ensures path < q && q[|path|] == idx ==> Find(n, q) == FindIn(At(n, path).slots[idx], q[|path| + 1..])
    decreases |path|
  {
    if path == [] {
      assert q[1..] == q[|path| + 1..];
    } else if q[0] == path[0] {
      UpdateFind(n.slots[path[0]].node, path[1..], idx, slot, q[1..]);
      assert q[1..][|path|..] == q[|path| + 1..];
      assert path == [path[0]] + path[1..] && q == [q[0]] + q[1..];
      assert path < q <==> path[1..] < q[1..];
    }
  }

  // ----- Flags on the way to a page

  /** Every entry that leads to a table can be written through, and by the user if `user`; no entry has other flags. */
  ghost predicate Open(n: Node, user: bool) {
    match n
    case Leaf(_, _) => true
    case Table(_, slots) => forall i :: 0 <= i < |slots| ==> SlotOpen(slots[i], user)
  }

  ghost predicate SlotOpen(s: Slot, user: bool) {
    match s
    case Plain(_) => true
    case Entry(bits, node) =>
      bits.rest == 0 && (node.Table? ==> bits.write && (user ==> bits.user)) && Open(node, user)
  }

  /** From `n` to `t` tables stay open, to the user too if `user`. */
  ghost predicate Opens(n: Node, t: Node, user: bool) {
    (Open(n, false) ==> Open(t, false)) && (user ==> Open(n, true) ==> Open(t, true))
  }

  lemma OpensRefl(n: Node, user: bool)
    ensures Opens(n, n, user)
  {
  }

  lemma OpensTrans(a: Node, b: Node, c: Node, user: bool)
    requires Opens(a, b, user) && Opens(b, c, user)
    ensures Opens(a, c, user)
  {
  }

  lemma {:induction false} AtOpen(n: Node, path: seq<nat>, user: bool)
    requires Open(n, user) && Reaches(n, path)
    ensures Open(At(n, path), user)
    decreases |path|
  {
    if path != [] {
      assert SlotOpen(n.slots[path[0]], user);
      AtOpen(n.slots[path[0]].node, path[1..], user);
    }
  }

  lemma {:induction false} UpdateOpen(n: Node, path: seq<nat>, idx: nat, slot: Slot, user: bool)
    requires Open(n, user) && Reaches(n, path) && At(n, path).Table? && idx < |At(n, path).slots|
    requires SlotOpen(slot, user)
    ensures Open(Update(n, path, idx, slot), user)
    decreases |path|
  {
    if path != [] {
      assert SlotOpen(n.slots[path[0]], user);
      UpdateOpen(n.slots[path[0]].node, path[1..], idx, slot, user);
    }
  }

  /** Replacing a slot keeps tables open if the new slot is as open as the old one. */
  lemma UpdateOpens(n: Node, path: seq<nat>, idx: nat, slot: Slot, user: bool)
    requires Reaches(n, path) && At(n, path).Table? && idx < |At(n, path).slots|
    requires SlotOpen(At(n, path).slots[idx], false) ==> SlotOpen(slot, false)
    requires user && SlotOpen(At(n, path).slots[idx], true) ==> SlotOpen(slot, true)
    ensures Opens(n, Update(n, path, idx, slot), user)
  {
    hide Open, SlotOpen;
    if Open(n, false) {
      SlotAtOpen(n, path, idx, false);
      UpdateOpen(n, path, idx, slot, false);
    }
    if user && Open(n, true) {
      SlotAtOpen(n, path, idx, true);
      UpdateOpen(n, path, idx, slot, true);
    }
  }

  lemma SlotAtOpen(n: Node, path: seq<nat>, idx: nat, user: bool)
    requires Open(n, user) && Reaches(n, path) && At(n, path).Table? && idx < |At(n, path).slots|
    ensures SlotOpen(At(n, path).slots[idx], user)
  {
    AtOpen(n, path, user);
  }
}

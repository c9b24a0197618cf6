/**
 From page tables to the map that user-memory copying works on: the tables of a sound
 address space never map two virtual pages to one frame, and never map frame 0.
 */
module Frames {
  import opened Ram
  import opened PageTree
  import opened PageTables
  import UserMemory

  lemma {:induction false} FoundInside(n: Node, path: seq<nat>)
    requires Find(n, path).Mapped?
    ensures Find(n, path).page in Pages(n)
    decreases |path|
  {
    var slot := n.slots[path[0]];
    assert SlotPages(slot) <= Pages(n);
    if |path| > 1 {
      FoundInside(slot.node, path[1..]);
    } else {
      assert slot.node.page in Pages(slot.node);
    }
  }

  /** Different paths of one length end at different frames. */
  lemma {:induction false} PathsApart(n: Node, p: seq<nat>, q: seq<nat>)
    requires Apart(n) && |p| == |q| && p != q && Find(n, p).Mapped? && Find(n, q).Mapped?
    ensures Find(n, p).page != Find(n, q).page
    decreases |p|
  {
    if p[0] == q[0] {
      assert p == [p[0]] + p[1..] && q == [q[0]] + q[1..];
      PathsApart(n.slots[p[0]].node, p[1..], q[1..]);
    } else {
      FoundUnder(n, p);
      FoundUnder(n, q);
      assert SlotPages(n.slots[p[0]]) !! SlotPages(n.slots[q[0]]);
    }
  }

  lemma FoundUnder(n: Node, path: seq<nat>)
    requires Find(n, path).Mapped?
    ensures n.Table? && path[0] < |n.slots| && Find(n, path).page in SlotPages(n.slots[path[0]])
  {
    if |path| > 1 {
      FoundInside(n.slots[path[0]].node, path[1..]);
    } else {
      var node := n.slots[path[0]].node;
      assert node.page in Pages(node);
    }
  }

  lemma FramesDistinct(n: Node, mem: map<nat, Page>, pool: set<nat>, v: nat, w: nat)
    requires Sound(n, mem, pool) && v < USER_PAGES && w < USER_PAGES && v != w
    requires Find(n, Path(v)).Mapped? && Find(n, Path(w)).Mapped?
    ensures Find(n, Path(v)).page != Find(n, Path(w)).page
    ensures Find(n, Path(v)).page != 0 && Find(n, Path(v)).page !in pool
  {
    if Path(v) == Path(w) {
      PathInjective(v, w);
    }
    hide Path, Find, Apart, Pages;
    PathsApart(n, Path(v), Path(w));
    FoundInside(n, Path(v));
  }

  /** `table` lists exactly the user pages of the tree, with their frames and write bits. */
  ghost predicate Lists(table: UserMemory.Table, n: Node) {
    && (forall v: nat :: v in table <==> v < USER_PAGES && UserPage(n, v))
    && (forall v: nat :: v in table ==> table[v] == UserMemory.Entry(Find(n, Path(v)).page, Find(n, Path(v)).write))
  }

  ghost predicate UserPage(n: Node, v: nat) {
    Find(n, Path(v)).Mapped? && Find(n, Path(v)).user
  }

  /** Such a table, with whole-page frames, is what the copy loops need. */
  lemma ListedOk(table: UserMemory.Table, n: Node, mem: map<nat, Page>, pool: set<nat>, bytes: UserMemory.Memory)
    requires Sound(n, mem, pool) && Lists(table, n)
    requires forall p :: p in mem ==> p in bytes && |bytes[p]| == 4096
    ensures UserMemory.Ok(table, bytes)
  {
    hide Sound, Find, Path;
    forall p | p in table ensures table[p].frame > 0 && table[p].frame in bytes && |bytes[table[p].frame]| == 4096 {
      FrameKnown(n, mem, pool, p);
    }
    forall p, q | p in table && q in table && p != q ensures table[p].frame != table[q].frame {
      FramesDistinct(n, mem, pool, p, q);
    }
  }

  lemma FrameKnown(n: Node, mem: map<nat, Page>, pool: set<nat>, v: nat)
    requires Sound(n, mem, pool) && Find(n, Path(v)).Mapped?
    ensures Find(n, Path(v)).page in mem && Find(n, Path(v)).page != 0
  {
    hide Path, Find;
    FoundInside(n, Path(v));
    PagesStored(mem, n);
  }
}

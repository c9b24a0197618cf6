/**
 The page walk of an x86_64 processor (section 4.5 of the Intel SDM, volume 3A) over raw memory, and
 the theorem that what it allows is exactly what the tables of a user space are said to map: an access
 needs the right bit in all four entries, and the upper ones always have it.
 */
module Mmu {
  import opened Ram
  import opened PageTree
  import opened PageTables

  /** What a walk ends with: a fault, or a frame that may be written, and reached by the user, or not. */
  datatype Access = Fault | Hit(frame: nat, write: bool, user: bool)

  /** Virtual pages that one entry of a table of that level stands for. */
  function Reach(level: nat): (r: nat)
    requires 1 <= level <= 4
    ensures r > 0
  {
    match level
    case 1 => 1
    case 2 => 0x200
    case 3 => 0x4_0000
    case 4 => 0x800_0000
  }

  /** The walk from the table in page `table` on; large pages do not occur in user space. */
  function Walk(mem: map<nat, Page>, table: nat, v: nat, level: nat): Access
    requires 1 <= level <= 4
    decreases level
  {
    if table !in mem || |mem[table]| != PAGE_WORDS then Fault
    else
      var entry := mem[table][v / Reach(level) % 512];
      if !entry.present || entry.huge then Fault
      else if level == 1 then Hit(entry.page, entry.write, entry.user)
      else
        match Walk(mem, entry.page, v, level - 1)
        case Fault => Fault
        case Hit(frame, write, user) => Hit(frame, write && entry.write, user && entry.user)
  }

  function Allowed(m: Mapping): Access {
    match m
    case Unmapped => Fault
    case Mapped(frame, write, user, _) => Hit(frame, write, user)
  }

  lemma PathFields(v: nat)
    ensures forall level :: 1 <= level <= 4 ==> Path(v)[4 - level] == v / Reach(level) % 512
  {
  }

  /** Below an open table, walking memory finds what the tree says. */
  lemma {:induction false} WalkFinds(n: Node, mem: map<nat, Page>, v: nat, level: nat)
    requires 1 <= level <= 4 && Shaped(n, level) && Stored(mem, n) && Open(n, true)
    ensures Walk(mem, n.page, v, level) == Allowed(Find(n, Path(v)[4 - level..]))
    decreases level
  {
    PathFields(v);
    var path := Path(v)[4 - level..];
    var slot := n.slots[path[0]];
    assert path[0] == v / Reach(level) % 512;
    assert SlotShaped(slot, level) && SlotOpen(slot, true) && mem[n.page][path[0]] == SlotWord(slot);
    if slot.Entry? {
      assert Shaped(slot.node, level - 1) && Stored(mem, slot.node);
      if level > 1 {
        WalkFinds(slot.node, mem, v, level - 1);
        assert path[1..] == Path(v)[4 - (level - 1)..];
      }
    }
  }

  /** A user space lets the processor do exactly what its map says. */
  lemma WalkIsFind(n: Node, mem: map<nat, Page>, pool: set<nat>, v: nat)
    requires Sound(n, mem, pool) && Open(n, true) && v < USER_PAGES
    ensures Walk(mem, n.page, v, 4) == Allowed(Find(n, Path(v)))
  {
    PathFields(v);
    var path := Path(v);
    var slot := n.slots[path[0]];
    assert path[0] < 256 && SlotShaped(slot, 4) && SlotOpen(slot, true) && mem[n.page][path[0]] == SlotWord(slot);
    if slot.Entry? {
      WalkFinds(slot.node, mem, v, 3);
      assert path[1..] == Path(v)[4 - 3..];
    }
  }
}

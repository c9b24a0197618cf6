/**
 Pages as bytes.  The page tables speak of words and the copy loops of bytes; a page of words
 is 4096 little-endian bytes, and copying into user pages is a change of frame contents that
 leaves the tables of the address space alone.
 */
module ByteView {
  import opened Ram
  import opened PageTree
  import opened PageTables
  import Frames
  import Bytes
  import UserMemory
  import UserImage

  // ----- Words as numbers

  /** The page number has 40 bits and the unnamed bits are 20. */
  predicate WordOk(w: Word) {
    w.page < 0x100_0000_0000 && w.rest < 0x10_0000
  }

  function Bit(b: bool): nat {
    if b then 1 else 0
  }

  /** Bits 0, 1, 2 and 7 are named fields; 3 to 6 and 8 to 11 belong to the rest. */
  function Low(w: Word): (r: nat)
    ensures r < 4096
  {
    Bit(w.present) + 2 * Bit(w.write) + 4 * Bit(w.user) + 8 * (w.rest % 16) + 128 * Bit(w.huge)
    + 256 * (w.rest / 16 % 16)
  }

  /** Bits 12 to 51 are the page number, and 52 to 63 the rest of the rest. */
  function Number(w: Word): Bytes.Word
    requires WordOk(w)
  {
    Bounded(Low(w), w.page, w.rest / 256);
    Low(w) + 4096 * w.page + 0x10_0000_0000_0000 * (w.rest / 256)
  }

  lemma Bounded(low: nat, page: nat, high: nat)
    requires low < 4096 && page < 0x100_0000_0000 && high < 4096
    ensures low + 4096 * page + 0x10_0000_0000_0000 * high < 0x1_0000_0000_0000_0000
  {
  }

  /** The fields of a word can be read off its number. */
  function Fields(x: nat): Word {
    Word(x / 4096 % 0x100_0000_0000, x % 2 == 1, x / 2 % 2 == 1, x / 4 % 2 == 1, x / 128 % 2 == 1,
         x / 8 % 16 + 16 * (x / 256 % 16) + 256 * (x / 0x10_0000_0000_0000))
  }

  lemma NumberFields(w: Word)
    requires WordOk(w)
    ensures Fields(Number(w)) == w
  {
    var low, high := Low(w), w.rest / 256;
    var q := w.page + 0x100_0000_0000 * high;
    var x := Number(w);
    assert x == low + 4096 * q;
    hide Low, Number, Fields;
    LowFields(w);
    HighFields(low, w.page, high);
    RestParts(w.rest);
    FieldsSplit(low, q);
  }

  /** Where the processor looks for each field: bits 0, 1, 2 and 7, and bits 12 to 51. */
  lemma FlagBits(w: Word)
    requires WordOk(w)
    ensures var x := Number(w);
            && (x % 2 == 1 <==> w.present) && (x / 2 % 2 == 1 <==> w.write) && (x / 4 % 2 == 1 <==> w.user)
            && (x / 128 % 2 == 1 <==> w.huge) && x / 4096 % 0x100_0000_0000 == w.page
  {
    hide Number, Low;
    NumberFields(w);
  }

  lemma FieldsSplit(low: nat, q: nat)
    ensures var x := low + 4096 * q;
            Fields(x) == Word(x / 4096 % 0x100_0000_0000, low % 2 == 1, low / 2 % 2 == 1, low / 4 % 2 == 1,
                              low / 128 % 2 == 1,
                              low / 8 % 16 + 16 * (low / 256 % 16) + 256 * (x / 0x10_0000_0000_0000))
  {
    LowBit(low, q);
    LowBit2(low, q);
    LowBit4(low, q);
    LowBit8(low, q);
    LowBit128(low, q);
    LowBit256(low, q);
  }

  lemma RestParts(rest: nat)
    ensures rest == rest % 16 + 16 * (rest / 16 % 16) + 256 * (rest / 256)
  {
    assert rest == 16 * (rest / 16) + rest % 16;
    assert rest / 16 == 16 * (rest / 256) + rest / 16 % 16;
  }

  lemma HighFields(low: nat, page: nat, high: nat)
    requires low < 4096 && page < 0x100_0000_0000
    ensures var x := low + 4096 * (page + 0x100_0000_0000 * high);
            x / 4096 % 0x100_0000_0000 == page && x / 0x10_0000_0000_0000 == high
  {
    var x := low + 4096 * (page + 0x100_0000_0000 * high);
    assert x / 4096 == page + 0x100_0000_0000 * high;
    assert low + 4096 * page < 0x10_0000_0000_0000;
  }

  // Division by the powers of two that the fields start at.

  lemma Div2(x: nat, k: nat, r: nat)
    requires x == 2 * k + r && r < 2
    ensures x / 2 == k && x % 2 == r
  {
  }

  lemma Div4(x: nat, k: nat, r: nat)
    requires x == 4 * k + r && r < 4
    ensures x / 4 == k && x % 4 == r
  {
  }

  lemma Div8(x: nat, k: nat, r: nat)
    requires x == 8 * k + r && r < 8
    ensures x / 8 == k && x % 8 == r
  {
  }

  lemma Div16(x: nat, k: nat, r: nat)
    requires x == 16 * k + r && r < 16
    ensures x / 16 == k && x % 16 == r
  {
  }

  lemma Div128(x: nat, k: nat, r: nat)
    requires x == 128 * k + r && r < 128
    ensures x / 128 == k && x % 128 == r
  {
  }

  lemma Div256(x: nat, k: nat, r: nat)
    requires x == 256 * k + r && r < 256
    ensures x / 256 == k && x % 256 == r
  {
  }

  // The twelve low bits of a number do not depend on the others.

  lemma LowBit(low: nat, q: nat)
    ensures (low + 4096 * q) % 2 == low % 2
  {
    Div2(low + 4096 * q, low / 2 + 2048 * q, low % 2);
  }

  lemma LowBit2(low: nat, q: nat)
    ensures (low + 4096 * q) / 2 % 2 == low / 2 % 2
  {
    var k := low / 2;
    Div2(low + 4096 * q, k + 2048 * q, low % 2);
    Div2(k + 2048 * q, k / 2 + 1024 * q, k % 2);
  }

  lemma LowBit4(low: nat, q: nat)
    ensures (low + 4096 * q) / 4 % 2 == low / 4 % 2
  {
    var k := low / 4;
    Div4(low + 4096 * q, k + 1024 * q, low % 4);
    Div2(k + 1024 * q, k / 2 + 512 * q, k % 2);
  }

  lemma LowBit8(low: nat, q: nat)
    ensures (low + 4096 * q) / 8 % 16 == low / 8 % 16
  {
    var k := low / 8;
    Div8(low + 4096 * q, k + 512 * q, low % 8);
    Div16(k + 512 * q, k / 16 + 32 * q, k % 16);
  }

  lemma LowBit128(low: nat, q: nat)
    ensures (low + 4096 * q) / 128 % 2 == low / 128 % 2
  {
    var k := low / 128;
    Div128(low + 4096 * q, k + 32 * q, low % 128);
    Div2(k + 32 * q, k / 2 + 16 * q, k % 2);
  }

  lemma LowBit256(low: nat, q: nat)
    ensures (low + 4096 * q) / 256 % 16 == low / 256 % 16
  {
    var k := low / 256;
    Div256(low + 4096 * q, k + 16 * q, low % 256);
    Div16(k + 16 * q, k / 16 + 1 * q, k % 16);
  }

  lemma LowFields(w: Word)
    ensures var low := Low(w);
            && low % 2 == Bit(w.present) && low / 2 % 2 == Bit(w.write) && low / 4 % 2 == Bit(w.user)
            && low / 128 % 2 == Bit(w.huge) && low / 8 % 16 == w.rest % 16 && low / 256 % 16 == w.rest / 16 % 16
  {
    SixFields(Bit(w.present), Bit(w.write), Bit(w.user), w.rest % 16, Bit(w.huge), w.rest / 16 % 16);
  }

  lemma SixFields(p: nat, w: nat, u: nat, a: nat, h: nat, b: nat)
    requires p < 2 && w < 2 && u < 2 && a < 16 && h < 2 && b < 16
    ensures var low := p + 2 * w + 4 * u + 8 * a + 128 * h + 256 * b;
            && low % 2 == p && low / 2 % 2 == w && low / 4 % 2 == u
            && low / 128 % 2 == h && low / 8 % 16 == a && low / 256 % 16 == b
  {
    var low := p + 2 * w + 4 * u + 8 * a + 128 * h + 256 * b;
    Div2(low, w + 2 * u + 4 * a + 64 * h + 128 * b, p);
    Div2(low / 2, u + 2 * a + 32 * h + 64 * b, w);
    Div4(low, u + 2 * a + 32 * h + 64 * b, p + 2 * w);
    Div2(low / 4, a + 16 * h + 32 * b, u);
    Div8(low, a + 16 * h + 32 * b, p + 2 * w + 4 * u);
    Div16(low / 8, h + 2 * b, a);
    Div128(low, h + 2 * b, p + 2 * w + 4 * u + 8 * a);
    Div2(low / 128, b, h);
    Div256(low, b, p + 2 * w + 4 * u + 8 * a + 128 * h);
    Div16(low / 256, 0, b);
  }

  /** The fields of a number with the given twelve low bits, 40 middle bits and 12 high bits. */
  lemma FieldsOf(low: nat, page: nat, high: nat)
    requires low < 4096 && page < 0x100_0000_0000
    ensures Fields(low + 4096 * (page + 0x100_0000_0000 * high)) ==
            Word(page, low % 2 == 1, low / 2 % 2 == 1, low / 4 % 2 == 1, low / 128 % 2 == 1,
                 low / 8 % 16 + 16 * (low / 256 % 16) + 256 * high)
  {
    hide Fields;
    HighFields(low, page, high);
    FieldsSplit(low, page + 0x100_0000_0000 * high);
  }

  lemma NumberOf(low: nat, page: nat, high: nat)
    requires low < 4096 && page < 0x100_0000_0000 && high < 4096
    ensures var x := low + 4096 * (page + 0x100_0000_0000 * high);
            WordOk(Fields(x)) && Number(Fields(x)) == x
  {
    hide Fields, Low;
    var a, b := low / 8 % 16, low / 256 % 16;
    FieldsOf(low, page, high);
    RestFields(a, b, high);
    LowOf(low, page, a + 16 * b + 256 * high);
  }

  /** Every 64-bit number is the number of the fields read off it. */
  lemma FieldsNumber(x: Bytes.Word)
    ensures WordOk(Fields(x)) && Number(Fields(x)) == x
  {
    hide Fields, Number, WordOk;
    var low, q := x % 4096, x / 4096;
    var page, high := q % 0x100_0000_0000, q / 0x100_0000_0000;
    assert x == low + 4096 * q && q == page + 0x100_0000_0000 * high;
    NumberOf(low, page, high);
  }

  lemma LowOf(low: nat, page: nat, rest: nat)
    requires low < 4096 && rest % 16 == low / 8 % 16 && rest / 16 % 16 == low / 256 % 16
    ensures Low(Word(page, low % 2 == 1, low / 2 % 2 == 1, low / 4 % 2 == 1, low / 128 % 2 == 1, rest)) == low
  {
    LowParts(low);
    OneBit(low);
    OneBit(low / 2);
    OneBit(low / 4);
    OneBit(low / 128);
  }

  lemma OneBit(x: nat)
    ensures Bit(x % 2 == 1) == x % 2
  {
  }

  lemma RestFields(a: nat, b: nat, high: nat)
    requires a < 16 && b < 16
    ensures var r := a + 16 * b + 256 * high; r % 16 == a && r / 16 % 16 == b && r / 256 == high
  {
    var r := a + 16 * b + 256 * high;
    Div16(r, b + 16 * high, a);
    Div16(r / 16, high, b);
    Div256(r, high, a + 16 * b);
  }

  lemma LowParts(low: nat)
    requires low < 4096
    ensures low == low % 2 + 2 * (low / 2 % 2) + 4 * (low / 4 % 2) + 8 * (low / 8 % 16) + 128 * (low / 128 % 2)
                   + 256 * (low / 256 % 16)
  {
    Quotients(low);
    var h, f, e, s, t := low / 2, low / 4, low / 8, low / 128, low / 256;
    assert low == 2 * h + low % 2;
    assert h == 2 * f + h % 2;
    assert f == 2 * e + f % 2;
    assert e == 16 * s + e % 16;
    assert s == 2 * t + s % 2;
    assert t < 16;
  }

  lemma Quotients(x: nat)
    ensures x / 2 / 2 == x / 4 && x / 4 / 2 == x / 8 && x / 8 / 16 == x / 128 && x / 128 / 2 == x / 256
  {
    Div4(x, x / 2 / 2, 2 * (x / 2 % 2) + x % 2);
    Div8(x, x / 4 / 2, 4 * (x / 4 % 2) + x % 4);
    Div128(x, x / 8 / 16, 8 * (x / 8 % 16) + x % 8);
    Div256(x, x / 128 / 2, 128 * (x / 128 % 2) + x % 128);
  }

  // ----- Pages as bytes

  ghost predicate PageOk(p: Page) {
    |p| == PAGE_WORDS && forall i :: 0 <= i < |p| ==> WordOk(p[i])
  }

  ghost function Numbers(p: Page): (r: seq<Bytes.Word>)
    requires PageOk(p)
    ensures |r| == PAGE_WORDS
  {
    seq(PAGE_WORDS, i requires 0 <= i < PAGE_WORDS => Number(p[i]))
  }

  ghost function PageView(p: Page): (r: seq<Bytes.Byte>)
    requires PageOk(p)
    ensures |r| == 4096
  {
    Bytes.Concat(Numbers(p))
  }

  /** Different pages look different. */
  lemma ViewInjective(p: Page, q: Page)
    requires PageOk(p) && PageOk(q) && PageView(p) == PageView(q)
    ensures p == q
  {
    hide Number;
    forall i | 0 <= i < PAGE_WORDS ensures p[i] == q[i] {
      var a, b := Numbers(p)[i], Numbers(q)[i];
      Bytes.ConcatAt(Numbers(p), i);
      Bytes.ConcatAt(Numbers(q), i);
      Bytes.WordRoundTrip(a);
      Bytes.WordRoundTrip(b);
      NumberFields(p[i]);
      NumberFields(q[i]);
    }
  }

  /** The words that look like these bytes. */
  ghost function PageOf(s: seq<Bytes.Byte>): (p: Page)
    requires |s| == 4096
    ensures |p| == PAGE_WORDS
  {
    seq(PAGE_WORDS, i requires 0 <= i < PAGE_WORDS => Fields(Bytes.Value(s[8 * i..8 * i + 8])))
  }

  lemma PageOfAt(s: seq<Bytes.Byte>, i: nat)
    requires |s| == 4096 && i < PAGE_WORDS
    ensures WordOk(PageOf(s)[i]) && Bytes.Le(Number(PageOf(s)[i]), 8) == s[8 * i..8 * i + 8]
  {
    hide Fields, Number, WordOk, Bytes.Le, Bytes.Value;
    Bytes.WordOfBytes(s[8 * i..8 * i + 8]);
    FieldsNumber(Bytes.Value(s[8 * i..8 * i + 8]));
  }

  lemma PageOfOk(s: seq<Bytes.Byte>)
    requires |s| == 4096
    ensures PageOk(PageOf(s))
  {
    hide PageOf, WordOk, Number;
    forall i | 0 <= i < PAGE_WORDS ensures WordOk(PageOf(s)[i]) {
      PageOfAt(s, i);
    }
  }

  lemma ViewAt(p: Page, k: nat)
    requires PageOk(p) && k < 4096
    ensures PageView(p)[k] == Bytes.Le(Number(p[k / 8]), 8)[k % 8]
  {
    hide Bytes.Concat, Bytes.Le, Number;
    var i := k / 8;
    Bytes.ConcatAt(Numbers(p), i);
    assert PageView(p)[k] == PageView(p)[8 * i..8 * i + 8][k - 8 * i];
  }

  /** Every 4096 bytes are the view of a page, by ViewInjective the only one. */
  lemma PageOfView(s: seq<Bytes.Byte>)
    requires |s| == 4096
    ensures PageOk(PageOf(s)) && PageView(PageOf(s)) == s
  {
    hide PageOf, PageOk, PageView, Number, Bytes.Le;
    PageOfOk(s);
    forall k | 0 <= k < 4096 ensures PageView(PageOf(s))[k] == s[k] {
      ViewAt(PageOf(s), k);
      PageOfAt(s, k / 8);
      assert s[k] == s[8 * (k / 8)..8 * (k / 8) + 8][k % 8];
    }
  }

  /** `bytes` is what the words of `mem` look like to a program. */
  ghost predicate Viewed(mem: map<nat, Page>, bytes: UserMemory.Memory) {
    forall p :: p in mem ==> p in bytes && PageOk(mem[p]) && bytes[p] == PageView(mem[p])
  }

  lemma ViewedOk(table: UserMemory.Table, n: Node, mem: map<nat, Page>, pool: set<nat>, bytes: UserMemory.Memory)
    requires Sound(n, mem, pool) && Frames.Lists(table, n) && Viewed(mem, bytes)
    ensures UserMemory.Ok(table, bytes)
  {
    hide Sound, Frames.Lists, PageView;
    Frames.ListedOk(table, n, mem, pool, bytes);
  }

  // ----- Reading through the tables

  /** The data of a mapped frame is what memory holds there. */
  lemma {:induction false} FoundData(n: Node, mem: map<nat, Page>, path: seq<nat>)
    requires Shaped(n, |path|) && Stored(mem, n) && Find(n, path).Mapped?
    ensures Find(n, path).page in mem && mem[Find(n, path).page] == Find(n, path).data
    decreases |path|
  {
    var slot := n.slots[path[0]];
    assert SlotShaped(slot, |path|) && Stored(mem, slot.node);
    if |path| > 1 {
      FoundData(slot.node, mem, path[1..]);
    } else {
      assert Shaped(slot.node, 0);
    }
  }

  lemma FrameData(n: Node, mem: map<nat, Page>, pool: set<nat>, v: nat)
    requires Sound(n, mem, pool) && v < USER_PAGES && Find(n, Path(v)).Mapped?
    ensures Find(n, Path(v)).page in mem && mem[Find(n, Path(v)).page] == Find(n, Path(v)).data
  {
    var path := Path(v);
    var slot := n.slots[path[0]];
    assert path[0] < 256 && SlotShaped(slot, 4) && Stored(mem, slot.node);
    FoundData(slot.node, mem, path[1..]);
  }

  /** Reading user memory gives the bytes of the frames that the tables map. */
  lemma ReadsTables(table: UserMemory.Table, n: Node, mem: map<nat, Page>, pool: set<nat>, bytes: UserMemory.Memory,
                    src: nat, out: seq<Bytes.Byte>, v: nat)
    requires Sound(n, mem, pool) && Frames.Lists(table, n) && Viewed(mem, bytes)
    requires UserMemory.Translated(table, bytes, src, out) && src <= v < src + |out|
    ensures var m := Find(n, Path(v / 4096));
            m.Mapped? && m.user && PageOk(m.data) && out[v - src] == PageView(m.data)[v % 4096]
  {
    hide Sound, Find, Path, PageView, PageOk;
    assert UserMemory.Readable(table, bytes, v);
    assert Frames.UserPage(n, v / 4096);
    FrameData(n, mem, pool, v / 4096);
  }

  // ----- Writing through the tables

  /** The tree with the frames' contents taken from `mem`. */
  function Refill(n: Node, mem: map<nat, Page>): Node {
    match n
    case Leaf(page, data) => Leaf(page, if page in mem then mem[page] else data)
    case Table(page, slots) => Table(page, RefillSlots(slots, mem))
  }

  function RefillSlots(slots: seq<Slot>, mem: map<nat, Page>): (r: seq<Slot>)
    ensures |r| == |slots| && forall i :: 0 <= i < |slots| ==> r[i] == RefillSlot(slots[i], mem)
  {
    if slots == [] then [] else [RefillSlot(slots[0], mem)] + RefillSlots(slots[1..], mem)
  }

  function RefillSlot(s: Slot, mem: map<nat, Page>): Slot {
    match s
    case Plain(_) => s
    case Entry(bits, node) => Entry(bits, Refill(node, mem))
  }

  /** The pages that hold tables. */
  ghost predicate IsTable(n: Node, p: nat) {
    n.Table? && (p == n.page || exists i :: 0 <= i < |n.slots| && n.slots[i].Entry? && IsTable(n.slots[i].node, p))
  }

  lemma {:induction false} RefillPages(n: Node, mem: map<nat, Page>)
    ensures Pages(Refill(n, mem)) == Pages(n) && Refill(n, mem).page == n.page
  {
    if n.Table? {
      var r := Refill(n, mem);
      forall i | 0 <= i < |n.slots| ensures SlotPages(r.slots[i]) == SlotPages(n.slots[i]) {
        if n.slots[i].Entry? {
          RefillPages(n.slots[i].node, mem);
        }
      }
      SameUpTo(r.slots, n.slots);
    }
  }

  lemma SameUpTo(a: seq<Slot>, b: seq<Slot>)
    requires |a| == |b| && forall i :: 0 <= i < |a| ==> SlotPages(a[i]) == SlotPages(b[i])
    ensures UpTo(a, |a|) == UpTo(b, |b|)
  {
    hide SlotPages;
    forall p ensures p in UpTo(a, |a|) <==> p in UpTo(b, |b|) {
    }
  }

  lemma {:induction false} RefillApart(n: Node, mem: map<nat, Page>)
    requires Apart(n)
    ensures Apart(Refill(n, mem))
  {
    if n.Table? {
      var r := Refill(n, mem);
      forall i | 0 <= i < |n.slots| ensures SlotPages(r.slots[i]) == SlotPages(n.slots[i]) {
        if n.slots[i].Entry? {
          RefillPages(n.slots[i].node, mem);
        }
      }
      SameUpTo(r.slots, n.slots);
      forall i | 0 <= i < |n.slots| && r.slots[i].Entry? ensures Apart(r.slots[i].node) {
        RefillApart(n.slots[i].node, mem);
      }
    }
  }

  /** New contents change no flag. */
  lemma {:induction false} RefillOpen(n: Node, mem: map<nat, Page>, user: bool)
    requires Open(n, user)
    ensures Open(Refill(n, mem), user)
  {
    if n.Table? {
      var r := Refill(n, mem);
      forall i | 0 <= i < |r.slots| ensures SlotOpen(r.slots[i], user) {
        assert SlotOpen(n.slots[i], user);
        if n.slots[i].Entry? {
          RefillOpen(n.slots[i].node, mem, user);
        }
      }
    }
  }

  lemma RefillOpens(n: Node, mem: map<nat, Page>)
    ensures Opens(n, Refill(n, mem), true)
  {
    if Open(n, false) { RefillOpen(n, mem, false); }
    if Open(n, true) { RefillOpen(n, mem, true); }
  }

  lemma {:induction false} RefillShaped(n: Node, mem: map<nat, Page>, level: nat)
    requires Shaped(n, level) && forall p :: p in mem ==> |mem[p]| == PAGE_WORDS
    ensures Shaped(Refill(n, mem), level)
    decreases level
  {
    if level > 0 {
      var r := Refill(n, mem);
      forall i | 0 <= i < |r.slots| ensures SlotShaped(r.slots[i], level) {
        assert SlotShaped(n.slots[i], level);
        if n.slots[i].Entry? {
          RefillShaped(n.slots[i].node, mem, level - 1);
        }
      }
    }
  }

  lemma {:induction false} RefillStored(n: Node, mem: map<nat, Page>, mem': map<nat, Page>)
    requires Stored(mem, n) && forall p :: p in mem ==> p in mem'
    requires forall p :: IsTable(n, p) && p in mem ==> mem'[p] == mem[p]
    ensures Stored(mem', Refill(n, mem'))
  {
    if n.Table? {
      var r := Refill(n, mem');
      assert IsTable(n, n.page);
      forall i | 0 <= i < |n.slots| ensures SlotWord(r.slots[i]) == SlotWord(n.slots[i]) {
        if n.slots[i].Entry? {
          RefillPages(n.slots[i].node, mem');
        }
      }
      forall i | 0 <= i < |n.slots| && n.slots[i].Entry? ensures Stored(mem', r.slots[i].node) {
        assert forall p :: IsTable(n.slots[i].node, p) ==> IsTable(n, p);
        RefillStored(n.slots[i].node, mem, mem');
      }
    }
  }

  /** What the refilled tree maps: the same frames and permissions, with the new contents. */
  lemma {:induction false} RefillFinds(n: Node, mem: map<nat, Page>, path: seq<nat>)
    requires Shaped(n, |path|)
    ensures Find(n, path).Unmapped? ==> Find(Refill(n, mem), path).Unmapped?
    ensures var m := Find(n, path);
            m.Mapped? && m.page in mem ==> Find(Refill(n, mem), path) == m.(data := mem[m.page])
    decreases |path|
  {
    if path != [] && path[0] < |n.slots| && n.slots[path[0]].Entry? {
      assert SlotShaped(n.slots[path[0]], |path|);
      RefillPages(n.slots[path[0]].node, mem);
      if |path| > 1 {
        RefillFinds(n.slots[path[0]].node, mem, path[1..]);
      } else {
        assert Shaped(n.slots[path[0]].node, 0);
      }
    }
  }

  /** A mapped frame is never a table. */
  lemma {:induction false} FrameNotTable(n: Node, path: seq<nat>)
    requires Apart(n) && Shaped(n, |path|) && Find(n, path).Mapped?
    ensures !IsTable(n, Find(n, path).page)
    decreases |path|
  {
    var i, f := path[0], Find(n, path).page;
    assert SlotShaped(n.slots[i], |path|);
    Frames.FoundUnder(n, path);
    if |path| > 1 {
      FrameNotTable(n.slots[i].node, path[1..]);
    } else {
      assert Shaped(n.slots[i].node, 0);
    }
    NoTableUnder(n, i, f);
  }

  lemma NoTableUnder(n: Node, i: nat, f: nat)
    requires Apart(n) && n.Table? && i < |n.slots| && n.slots[i].Entry? && f in SlotPages(n.slots[i])
    requires !IsTable(n.slots[i].node, f)
    ensures !IsTable(n, f)
  {
    assert f in UpTo(n.slots, |n.slots|);
    forall j | 0 <= j < |n.slots| && n.slots[j].Entry? ensures !IsTable(n.slots[j].node, f) {
      if j != i && IsTable(n.slots[j].node, f) {
        TableInside(n.slots[j].node, f);
      }
    }
  }

  lemma {:induction false} TableInside(n: Node, p: nat)
    requires IsTable(n, p)
    ensures p in Pages(n)
  {
    if p != n.page {
      var i :| 0 <= i < |n.slots| && n.slots[i].Entry? && IsTable(n.slots[i].node, p);
      TableInside(n.slots[i].node, p);
      assert SlotPages(n.slots[i]) <= Pages(n);
    }
  }

  // ----- The same from the root

  lemma UserFrameNotTable(n: Node, mem: map<nat, Page>, pool: set<nat>, v: nat)
    requires Sound(n, mem, pool) && v < USER_PAGES && Find(n, Path(v)).Mapped?
    ensures !IsTable(n, Find(n, Path(v)).page)
  {
    var path := Path(v);
    assert path[0] < 256 && SlotShaped(n.slots[path[0]], 4);
    Frames.FoundUnder(n, path);
    FrameNotTable(n.slots[path[0]].node, path[1..]);
    NoTableUnder(n, path[0], Find(n, path).page);
  }

  lemma RefillRoot(n: Node, mem: map<nat, Page>)
    requires RootShaped(n) && forall p :: p in mem ==> |mem[p]| == PAGE_WORDS
    ensures RootShaped(Refill(n, mem))
  {
    var r := Refill(n, mem);
    forall i | 0 <= i < 256 ensures SlotShaped(r.slots[i], 4) {
      assert SlotShaped(n.slots[i], 4);
      if n.slots[i].Entry? {
        RefillShaped(n.slots[i].node, mem, 3);
      }
    }
  }

  lemma RefillUser(n: Node, mem: map<nat, Page>, pool: set<nat>, mem': map<nat, Page>, v: nat)
    requires Sound(n, mem, pool) && v < USER_PAGES && forall p :: p in mem ==> p in mem'
    ensures Find(n, Path(v)).Unmapped? ==> Find(Refill(n, mem'), Path(v)).Unmapped?
    ensures var m := Find(n, Path(v));
            m.Mapped? ==> m.page in mem' && Find(Refill(n, mem'), Path(v)) == m.(data := mem'[m.page])
  {
    var path := Path(v);
    var slot := n.slots[path[0]];
    assert path[0] < 256 && SlotShaped(slot, 4);
    if Find(n, path).Mapped? {
      FrameData(n, mem, pool, v);
    }
    if slot.Entry? {
      RefillFinds(slot.node, mem', path[1..]);
    }
  }

  /** A table page keeps its words when user memory is written. */
  lemma TableKept(table: UserMemory.Table, n: Node, mem: map<nat, Page>, mem': map<nat, Page>, pool: set<nat>,
                  bytes: UserMemory.Memory, bytes': UserMemory.Memory, dst: nat, data: seq<Bytes.Byte>, p: nat)
    requires Sound(n, mem, pool) && Frames.Lists(table, n) && Viewed(mem, bytes) && Viewed(mem', bytes')
    requires UserMemory.Written(table, bytes, bytes', dst, data) && IsTable(n, p) && p in mem && p in mem'
    ensures mem'[p] == mem[p]
  {
    hide Sound, Find, Path, PageView, PageOk, IsTable;
    if UserMemory.Touched(table, dst, |data|, p) {
      var q :| dst / 4096 <= q <= (dst + |data| - 1) / 4096 && q in table && table[q].frame == p;
      assert Frames.UserPage(n, q);
      UserFrameNotTable(n, mem, pool, q);
    }
    assert UserMemory.FramesKept(table, bytes, bytes', dst, |data|);
    assert p in bytes && bytes[p] == bytes'[p];
    ViewInjective(mem[p], mem'[p]);
  }

  ghost predicate WholePages(pages: set<nat>, bytes: UserMemory.Memory) {
    forall p :: p in pages ==> p in bytes && |bytes[p]| == 4096
  }

  /** The words of these pages. */
  ghost function WordsOf(pages: set<nat>, bytes: UserMemory.Memory): (mem: map<nat, Page>)
    requires WholePages(pages, bytes)
    ensures mem.Keys == pages
  {
    map p | p in pages :: PageOf(bytes[p])
  }

  lemma WordsViewed(pages: set<nat>, bytes: UserMemory.Memory)
    requires WholePages(pages, bytes)
    ensures Viewed(WordsOf(pages, bytes), bytes)
  {
    hide PageOf, PageOk, PageView;
    forall p | p in pages ensures PageOk(PageOf(bytes[p])) && PageView(PageOf(bytes[p])) == bytes[p] {
      PageOfView(bytes[p]);
    }
  }

  /** A write to user memory leaves whole pages. */
  lemma WrittenWhole(table: UserMemory.Table, mem: map<nat, Page>, bytes: UserMemory.Memory, bytes': UserMemory.Memory,
                     dst: nat, data: seq<Bytes.Byte>)
    requires Viewed(mem, bytes) && UserMemory.Written(table, bytes, bytes', dst, data)
    ensures WholePages(mem.Keys, bytes')
  {
    hide PageOk, PageView;
    assert UserMemory.FramesKept(table, bytes, bytes', dst, |data|) && UserMemory.Ok(table, bytes');
    forall p | p in mem ensures p in bytes' && |bytes'[p]| == 4096 {
      assert bytes[p] == PageView(mem[p]);
    }
  }

  /**
   Writing user memory keeps the address space: the new bytes are the view of pages of words that
   still hold its tables, and every page is mapped to the same frame with the same permissions,
   whose contents are the new ones.
   */
  lemma WritesTables(table: UserMemory.Table, n: Node, mem: map<nat, Page>, pool: set<nat>,
                     bytes: UserMemory.Memory, bytes': UserMemory.Memory, dst: nat, data: seq<Bytes.Byte>)
    requires Sound(n, mem, pool) && Frames.Lists(table, n) && Viewed(mem, bytes)
    requires UserMemory.Written(table, bytes, bytes', dst, data)
    ensures WholePages(mem.Keys, bytes')
    ensures var mem' := WordsOf(mem.Keys, bytes');
            && Viewed(mem', bytes') && Sound(Refill(n, mem'), mem', pool) && Frames.Lists(table, Refill(n, mem'))
            && Opens(n, Refill(n, mem'), true)
            && forall v: nat :: v < USER_PAGES && Find(n, Path(v)).Mapped? ==>
                 Find(n, Path(v)).page in mem' &&
                 Find(Refill(n, mem'), Path(v)) == Find(n, Path(v)).(data := mem'[Find(n, Path(v)).page])
  {
    hide *;
    WrittenWhole(table, mem, bytes, bytes', dst, data);
    var mem' := WordsOf(mem.Keys, bytes');
    WordsViewed(mem.Keys, bytes');
    forall p: nat | IsTable(n, p) && p in mem ensures mem'[p] == mem[p] {
      TableKept(table, n, mem, mem', pool, bytes, bytes', dst, data, p);
    }
    RefillSound(n, mem, mem', pool) by { ViewedSized(mem', bytes'); }
    RefillOpens(n, mem');
    forall v: nat | v < USER_PAGES
      ensures Find(n, Path(v)).Unmapped? ==> Find(Refill(n, mem'), Path(v)).Unmapped?
      ensures var m := Find(n, Path(v));
              m.Mapped? ==> m.page in mem' && Find(Refill(n, mem'), Path(v)) == m.(data := mem'[m.page])
    {
      RefillUser(n, mem, pool, mem', v);
    }
    StillLists(table, n, Refill(n, mem'));
  }

  lemma ViewedSized(mem: map<nat, Page>, bytes: UserMemory.Memory)
    requires Viewed(mem, bytes)
    ensures forall p :: p in mem ==> |mem[p]| == PAGE_WORDS
  {
  }

  lemma RefillSound(n: Node, mem: map<nat, Page>, mem': map<nat, Page>, pool: set<nat>)
    requires Sound(n, mem, pool) && (forall p :: p in mem ==> p in mem')
    requires (forall p :: p in mem' ==> |mem'[p]| == PAGE_WORDS)
    requires forall p :: IsTable(n, p) && p in mem ==> mem'[p] == mem[p]
    ensures Sound(Refill(n, mem'), mem', pool)
  {
    hide Stored, Apart, Pages, RootShaped, Refill, IsTable;
    RefillStored(n, mem, mem');
    RefillPages(n, mem');
    RefillApart(n, mem');
    RefillRoot(n, mem');
  }

  /** Frames and permissions are as before, so the page list is too. */
  lemma StillLists(table: UserMemory.Table, n: Node, t: Node)
    requires Frames.Lists(table, n)
    requires forall v: nat {:trigger Find(t, Path(v))} :: v < USER_PAGES ==>
               var m, k := Find(n, Path(v)), Find(t, Path(v));
               && (m.Unmapped? <==> k.Unmapped?)
               && (m.Mapped? ==> k.page == m.page && k.write == m.write && k.user == m.user)
    ensures Frames.Lists(table, t)
  {
    hide Find, Path;
    forall v: nat | v in table || (v < USER_PAGES && Frames.UserPage(t, v))
      ensures v < USER_PAGES && Frames.UserPage(t, v) && v in table
      ensures table[v] == UserMemory.Entry(Find(t, Path(v)).page, Find(t, Path(v)).write)
    {
      assert v in table <==> v < USER_PAGES && Frames.UserPage(n, v);
      var k := Find(t, Path(v));
    }
  }
}

/**
 Loading a program, kernel/user.c: the segments of the image and the initial stack that
 crt0 reads back.
 */
module UserImage {

  import opened Bytes
  import opened UserMemory

  const USER_MIN := 0x40_0000
  const IMAGE_END := 0x1000_0000
  const STACK_TOP := 0x8000_0000
  const STACK_BASE := 0x7fff_0000

  // ----- What crt0 reads

  /** A NUL-terminated string. */
  ghost predicate StringAt(table: Table, mem: Memory, a: nat, s: seq<Byte>) {
    Translated(table, mem, a, s + [0])
  }

  ghost predicate WordAt(table: Table, mem: Memory, a: nat, w: Word) {
    Translated(table, mem, a, Le(w, 8))
  }

  predicate CString(s: seq<Byte>) {
    forall k :: 0 <= k < |s| ==> s[k] != 0
  }

  /** A vector of pointers to strings, ended by a null pointer. */
  ghost predicate VectorAt(table: Table, mem: Memory, a: nat, strings: seq<seq<Byte>>) {
    && (forall i :: 0 <= i < |strings| ==> PointerAt(table, mem, a + 8 * i, strings[i]))
    && WordAt(table, mem, a + 8 * |strings|, 0)
  }

  ghost predicate PointerAt(table: Table, mem: Memory, a: nat, s: seq<Byte>) {
    exists p: Word :: p != 0 && WordAt(table, mem, a, p) && StringAt(table, mem, p, s)
  }

  /** The initial stack as the start code takes it apart: argc, then argv, then envp. */
  ghost predicate Decodes(table: Table, mem: Memory, sp: nat, argv: seq<seq<Byte>>, envp: seq<seq<Byte>>)
    requires |argv| <= 16
  {
    && WordAt(table, mem, sp, |argv|)
    && VectorAt(table, mem, sp + 8, argv)
    && VectorAt(table, mem, sp + 8 + 8 * |argv| + 8, envp)
  }

  lemma TranslatedSame(table: Table, mem: Memory, a: nat, s: seq<Byte>, t: seq<Byte>, k: nat)
    requires Translated(table, mem, a, s) && Translated(table, mem, a, t) && k < |s| && k < |t|
    ensures s[k] == t[k]
  {
    assert Readable(table, mem, a + k);
  }

  lemma WordUnique(table: Table, mem: Memory, a: nat, v: Word, w: Word)
    requires WordAt(table, mem, a, v) && WordAt(table, mem, a, w)
    ensures v == w
  {
    forall k | 0 <= k < 8 ensures Le(v, 8)[k] == Le(w, 8)[k] {
      TranslatedSame(table, mem, a, Le(v, 8), Le(w, 8), k);
    }
    assert Le(v, 8) == Le(w, 8);
    WordRoundTrip(v);
    WordRoundTrip(w);
  }

  lemma StringUnique(table: Table, mem: Memory, a: nat, s: seq<Byte>, t: seq<Byte>)
    requires StringAt(table, mem, a, s) && StringAt(table, mem, a, t) && CString(s) && CString(t)
    ensures s == t
  {
    forall k: nat | k <= |s| && k <= |t| ensures (s + [0])[k] == (t + [0])[k] {
      TranslatedSame(table, mem, a, s + [0], t + [0], k);
    }
    var n := if |s| < |t| then |s| else |t|;
    assert (s + [0])[n] == (t + [0])[n];
    forall k | 0 <= k < n ensures s[k] == t[k] {
      assert (s + [0])[k] == (t + [0])[k];
    }
  }

  lemma PointerUnique(table: Table, mem: Memory, a: nat, s: seq<Byte>, t: seq<Byte>)
    requires PointerAt(table, mem, a, s)
    ensures !WordAt(table, mem, a, 0)
    ensures PointerAt(table, mem, a, t) && CString(s) && CString(t) ==> s == t
  {
    hide WordAt, StringAt, CString;
    var p: Word :| p != 0 && WordAt(table, mem, a, p) && StringAt(table, mem, p, s);
    if WordAt(table, mem, a, 0) {
      WordUnique(table, mem, a, p, 0);
    }
    if PointerAt(table, mem, a, t) && CString(s) && CString(t) {
      var q: Word :| q != 0 && WordAt(table, mem, a, q) && StringAt(table, mem, q, t);
      WordUnique(table, mem, a, p, q);
      StringUnique(table, mem, p, s, t);
    }
  }

  lemma VectorUnique(table: Table, mem: Memory, a: nat, s: seq<seq<Byte>>, t: seq<seq<Byte>>)
    requires VectorAt(table, mem, a, s) && VectorAt(table, mem, a, t)
    requires (forall i :: 0 <= i < |s| ==> CString(s[i])) && (forall i :: 0 <= i < |t| ==> CString(t[i]))
    ensures s == t
  {
    hide PointerAt, WordAt, CString;
    var n := if |s| < |t| then |s| else |t|;
    if |s| < |t| {
      PointerUnique(table, mem, a + 8 * n, t[n], t[n]);
    }
    if |t| < |s| {
      PointerUnique(table, mem, a + 8 * n, s[n], s[n]);
    }
    forall i | 0 <= i < n ensures s[i] == t[i] {
      PointerUnique(table, mem, a + 8 * i, s[i], t[i]);
    }
  }

  /** A stack can be read back in one way only. */
  lemma DecodeUnique(table: Table, mem: Memory, sp: nat, a1: seq<seq<Byte>>, e1: seq<seq<Byte>>, a2: seq<seq<Byte>>,
                     e2: seq<seq<Byte>>)
    requires |a1| <= 16 && |a2| <= 16 && Decodes(table, mem, sp, a1, e1) && Decodes(table, mem, sp, a2, e2)
    requires (forall i :: 0 <= i < |a1| ==> CString(a1[i])) && (forall i :: 0 <= i < |a2| ==> CString(a2[i]))
    requires (forall i :: 0 <= i < |e1| ==> CString(e1[i])) && (forall i :: 0 <= i < |e2| ==> CString(e2[i]))
    ensures a1 == a2 && e1 == e2
  {
    hide VectorAt;
    WordUnique(table, mem, sp, |a1|, |a2|);
    VectorUnique(table, mem, sp + 8, a1, a2);
    VectorUnique(table, mem, sp + 8 + 8 * |a1| + 8, e1, e2);
  }

  // ----- Steps of loading

  ghost predicate Unmapped(table: Table, f: nat) {
    forall p :: p in table ==> table[p].frame != f
  }

  /** Free frames are whole pages, all different, and in no page table. */
  ghost predicate FreeOk(table: Table, mem: Memory, free: seq<nat>) {
    && (forall i :: 0 <= i < |free| ==>
          free[i] > 0 && free[i] in mem && |mem[free[i]]| == 4096 && Unmapped(table, free[i]))
    && (forall i, j :: 0 <= i < j < |free| ==> free[i] != free[j])
  }

  /** User bytes outside `[lo, hi)` and all unmapped frames are as they were. */
  ghost predicate ChangedOnly(table: Table, before: Memory, after: Memory, lo: nat, hi: nat) {
    && Ok(table, before) && Ok(table, after)
    && (forall v: nat {:trigger At(table, after, v)} {:trigger Readable(table, after, v)} ::
      Readable(table, after, v) && !(lo <= v < hi) ==>
        Readable(table, before, v) && At(table, after, v) == At(table, before, v))
    && (forall f :: f in before && Unmapped(table, f) ==> f in after && after[f] == before[f])
  }

  ghost predicate Extends(before: Table, after: Table) {
    forall p :: p in before ==> p in after && after[p].frame == before[p].frame
  }

  lemma WrittenChanged(table: Table, before: Memory, after: Memory, dst: nat, data: seq<Byte>)
    requires Written(table, before, after, dst, data)
    ensures ChangedOnly(table, before, after, dst, dst + |data|)
  {
    forall v: nat | Readable(table, after, v) && !(dst <= v < dst + |data|)
      ensures Readable(table, before, v) && At(table, after, v) == At(table, before, v)
    {
      var x := At(table, after, v);
    }
    assert FramesKept(table, before, after, dst, |data|);
    forall f: nat | f in before && Unmapped(table, f) ensures f in after && after[f] == before[f] {
      assert !Touched(table, dst, |data|, f);
      assert before[f] == after[f];
    }
  }

  lemma WrittenTranslated(table: Table, before: Memory, after: Memory, dst: nat, data: seq<Byte>)
    requires Written(table, before, after, dst, data)
    requires forall v: nat {:trigger Mapped(table, v)} :: dst <= v < dst + |data| ==> Mapped(table, v)
    ensures Translated(table, after, dst, data)
  {
    forall v: nat | dst <= v < dst + |data| ensures Readable(table, after, v) && data[v - dst] == At(table, after, v) {
      assert Mapped(table, v);
      assert Readable(table, after, v);
    }
  }

  lemma ChangedJoin(table: Table, m0: Memory, m1: Memory, m2: Memory, a: nat, b: nat, c: nat, d: nat, lo: nat, hi: nat)
    requires ChangedOnly(table, m0, m1, a, b) && ChangedOnly(table, m1, m2, c, d)
    requires lo <= a && b <= hi && lo <= c && d <= hi
    ensures ChangedOnly(table, m0, m2, lo, hi)
  {
    forall v: nat | Readable(table, m2, v) && !(lo <= v < hi)
      ensures Readable(table, m0, v) && At(table, m2, v) == At(table, m0, v)
    {
      assert Readable(table, m1, v);
      assert At(table, m1, v) == At(table, m0, v);
    }
  }

  lemma ChangedNone(table: Table, mem: Memory, lo: nat, hi: nat)
    requires Ok(table, mem)
    ensures ChangedOnly(table, mem, mem, lo, hi)
  {
  }

  lemma TranslatedKept(table: Table, before: Memory, after: Memory, lo: nat, hi: nat, a: nat, s: seq<Byte>)
    requires Translated(table, before, a, s) && ChangedOnly(table, before, after, lo, hi) && (a + |s| <= lo || hi <= a)
    ensures Translated(table, after, a, s)
  {
    forall v: nat | a <= v < a + |s| ensures Readable(table, after, v) && s[v - a] == At(table, after, v) {
      assert Readable(table, before, v);
      assert Readable(table, after, v);
    }
  }

  lemma TranslatedExtends(before: Table, after: Table, mem: Memory, a: nat, s: seq<Byte>)
    requires Translated(before, mem, a, s) && Extends(before, after)
    ensures Translated(after, mem, a, s)
  {
    forall v: nat | a <= v < a + |s| ensures Readable(after, mem, v) && s[v - a] == At(after, mem, v) {
      assert Readable(before, mem, v);
    }
  }

  lemma TranslatedJoin(table: Table, mem: Memory, a: nat, s: seq<Byte>, t: seq<Byte>)
    requires Translated(table, mem, a, s) && Translated(table, mem, a + |s|, t)
    ensures Translated(table, mem, a, s + t)
  {
  }

  lemma TranslatedPart(table: Table, mem: Memory, a: nat, s: seq<Byte>, i: nat, j: nat)
    requires Translated(table, mem, a, s) && i <= j <= |s|
    ensures Translated(table, mem, a + i, s[i..j])
  {
  }

  lemma FreeKept(table: Table, before: Memory, after: Memory, lo: nat, hi: nat, free: seq<nat>)
    requires FreeOk(table, before, free) && ChangedOnly(table, before, after, lo, hi)
    ensures FreeOk(table, after, free)
  {
  }

  /** Mapping a free frame at a page that has none. */
  lemma MapKeeps(table: Table, mem: Memory, free: seq<nat>, p: nat)
    requires Ok(table, mem) && FreeOk(table, mem, free) && free != [] && p !in table
    ensures Ok(table[p := Entry(free[0], true)], mem) && FreeOk(table[p := Entry(free[0], true)], mem, free[1..])
    ensures Extends(table, table[p := Entry(free[0], true)])
  {
    var after := table[p := Entry(free[0], true)];
    forall i | 0 <= i < |free[1..]| ensures Unmapped(after, free[1..][i]) && free[1..][i] > 0 {
      assert free[1..][i] == free[i + 1] && Unmapped(table, free[i + 1]);
    }
    assert Unmapped(table, free[0]);
  }

  // ----- Segments

  datatype Segment = Segment(load: bool, write: bool, offset: nat, vaddr: nat, filesz: nat, memsz: nat)

  /** What a loaded segment holds: its file bytes, then zeros. */
  function Contents(image: seq<Byte>, s: Segment): (r: seq<Byte>)
    requires s.offset + s.filesz <= |image| && s.filesz <= s.memsz
    ensures |r| == s.memsz
  {
    image[s.offset..s.offset + s.filesz] + Zeros(s.memsz - s.filesz)
  }

  function Zeros(n: nat): (r: seq<Byte>)
    ensures |r| == n && forall k :: 0 <= k < n ==> r[k] == 0
  {
    seq(n, _ => 0)
  }

  predicate InBounds(image: seq<Byte>, s: Segment) {
    && s.filesz <= s.memsz && s.offset <= |image| && s.filesz <= |image| - s.offset
    && USER_MIN <= s.vaddr < IMAGE_END && s.memsz <= IMAGE_END - s.vaddr
  }

  ghost predicate Loaded(table: Table, mem: Memory, image: seq<Byte>, s: Segment) {
    s.load ==> InBounds(image, s) && Translated(table, mem, s.vaddr, Contents(image, s))
  }

  /** Byte by byte: the file's bytes from the segment's offset on, and behind them zeros. */
  ghost predicate FileBytes(table: Table, mem: Memory, image: seq<Byte>, s: Segment) {
    s.load ==>
      && s.offset + s.filesz <= |image|
      && forall k: nat {:trigger Readable(table, mem, s.vaddr + k)} :: k < s.memsz ==>
           Readable(table, mem, s.vaddr + k)
           && At(table, mem, s.vaddr + k) == if k < s.filesz then image[s.offset + k] else 0
  }

  lemma AllBytes(table: Table, mem: Memory, image: seq<Byte>, segments: seq<Segment>)
    ensures forall s :: s in segments && Loaded(table, mem, image, s) ==> FileBytes(table, mem, image, s)
  {
    hide Loaded, FileBytes;
    forall s | s in segments && Loaded(table, mem, image, s) ensures FileBytes(table, mem, image, s) {
      LoadedBytes(table, mem, image, s);
    }
  }

  lemma LoadedBytes(table: Table, mem: Memory, image: seq<Byte>, s: Segment)
    requires Loaded(table, mem, image, s)
    ensures FileBytes(table, mem, image, s)
  {
  }

  /** A page is covered exactly if a byte of the segment is on it. */
  lemma CoversIff(s: Segment, p: nat)
    ensures Covers(s, p) <==> s.load && exists v: nat :: s.vaddr <= v < s.vaddr + s.memsz && OnPage(v, p)
  {
    if Covers(s, p) {
      var v := if p == s.vaddr / 4096 then s.vaddr else p * 4096;
      assert s.vaddr <= v < s.vaddr + s.memsz && OnPage(v, p);
    }
  }

  predicate OnPage(v: nat, p: nat) {
    v / 4096 == p
  }

  /** Acceptable are exactly the segments whose file bytes are in the image and whose addresses are all from
      USER_MIN on and below IMAGE_END, the first one even when the segment is empty. */
  lemma InBoundsIff(image: seq<Byte>, s: Segment)
    ensures InBounds(image, s) <==>
            && s.filesz <= s.memsz && s.offset + s.filesz <= |image| && USER_MIN <= s.vaddr < IMAGE_END
            && forall v: nat :: s.vaddr <= v < s.vaddr + s.memsz ==> InImage(v)
  {
    assert s.memsz > 0 && InImage(s.vaddr + s.memsz - 1) ==> s.vaddr + s.memsz <= IMAGE_END;
  }

  predicate InImage(v: nat) {
    USER_MIN <= v < IMAGE_END
  }

  ghost predicate Disjoint(segments: seq<Segment>) {
    forall i, j :: 0 <= i < j < |segments| && segments[i].load && segments[j].load ==>
      segments[i].vaddr + segments[i].memsz <= segments[j].vaddr
        || segments[j].vaddr + segments[j].memsz <= segments[i].vaddr
  }

  predicate Covers(s: Segment, p: nat) {
    s.load && s.memsz > 0 && s.vaddr / 4096 <= p < (s.vaddr + s.memsz + 4095) / 4096
  }

  /** Page permission: the last of the first `n` segments on the page decides. */
  predicate Writable(segments: seq<Segment>, n: nat, p: nat)
    requires n <= |segments|
  {
    if n == 0 then true
    else if Covers(segments[n - 1], p) then segments[n - 1].write
    else Writable(segments, n - 1, p)
  }

  /** Segment `i` is the last one on the page. */
  ghost predicate LastOn(segments: seq<Segment>, i: int, p: nat) {
    0 <= i < |segments| && Covers(segments[i], p) && forall j :: i < j < |segments| ==> !Covers(segments[j], p)
  }

  lemma {:induction false} LastDecides(segments: seq<Segment>, n: nat, p: nat, i: nat)
    requires i < n <= |segments| && Covers(segments[i], p) && forall j :: i < j < n ==> !Covers(segments[j], p)
    ensures Writable(segments, n, p) == segments[i].write
    decreases n
  {
    if i < n - 1 {
      LastDecides(segments, n - 1, p, i);
    }
  }

  lemma LastDecidesAll(segments: seq<Segment>, i: int, p: nat)
    requires LastOn(segments, i, p)
    ensures 0 <= i < |segments| && Writable(segments, |segments|, p) == segments[i].write
  {
    LastDecides(segments, |segments|, p, i);
  }

  ghost predicate Covered(segments: seq<Segment>, n: nat, p: nat)
    requires n <= |segments|
  {
    exists i :: 0 <= i < n && Covers(segments[i], p)
  }

  lemma LoadedExtends(before: Table, after: Table, mem: Memory, image: seq<Byte>, s: Segment)
    requires Loaded(before, mem, image, s) && Extends(before, after)
    ensures Loaded(after, mem, image, s)
  {
    if s.load {
      TranslatedExtends(before, after, mem, s.vaddr, Contents(image, s));
    }
  }

  lemma LoadedKept(table: Table, before: Memory, after: Memory, lo: nat, hi: nat, image: seq<Byte>, s: Segment)
    requires Loaded(table, before, image, s) && ChangedOnly(table, before, after, lo, hi)
    requires s.load ==> s.vaddr + s.memsz <= lo || hi <= s.vaddr
    ensures Loaded(table, after, image, s)
  {
    if s.load {
      TranslatedKept(table, before, after, lo, hi, s.vaddr, Contents(image, s));
    }
  }

  class Loader {
    var table: Table
    var free: seq<nat>
    var maps: nat  // how many more mappings find memory for their page tables
    const m: Memories

    ghost predicate Valid()
      reads this, m
    {
      Ok(table, m.mem) && FreeOk(table, m.mem, free)
    }

    constructor (memory: Memories, frames: seq<nat>, maps: nat)
      requires FreeOk(map[], memory.mem, frames)
      ensures Valid() && table == map[] && m == memory && free == frames && this.maps == maps
    {
      m, table, free := memory, map[], frames;
      this.maps := maps;
    }

    /** Maps the missing pages of a range. */
    method MapRange(start: nat, end: nat) returns (ok: bool)
      requires Valid()
      modifies this
      ensures Valid() && Extends(old(table), table)
      ensures forall p :: p in table && p !in old(table) ==> start / 4096 <= p < (end + 4095) / 4096 && table[p].write
      ensures forall p :: p in old(table) ==> p in table && table[p] == old(table)[p]
      ensures ok ==> forall p :: start / 4096 <= p < (end + 4095) / 4096 ==> p in table
      ensures !ok ==> maps == 0 || free == []
    {
      hide Ok, FreeOk;
      var page := start / 4096;
      while page < (end + 4095) / 4096
        invariant Valid() && start / 4096 <= page
        invariant forall p :: p in table && p !in old(table) ==>
                    start / 4096 <= p < (end + 4095) / 4096 && table[p].write
        invariant forall p :: p in old(table) ==> p in table && table[p] == old(table)[p]
        invariant forall p :: start / 4096 <= p < page ==> p in table
      {
        if page !in table {
          if free == [] {
            return false;
          }
          if maps == 0 {
            return false;
          }
          maps := maps - 1;
          MapKeeps(table, m.mem, free, page);
          table, free := table[page := Entry(free[0], true)], free[1..];
        }
        page := page + 1;
      }
      return true;
    }

    /** `copy_out` and `zero_out` inside a space. */
    method Put(dst: nat, data: seq<Byte>) returns (ok: bool)
      requires Valid()
      modifies m
      ensures Valid() && ChangedOnly(table, old(m.mem), m.mem, dst, dst + |data|)
      ensures ok <==> forall v: nat {:trigger Mapped(table, v)} :: dst <= v < dst + |data| ==> Mapped(table, v)
      ensures ok ==> Translated(table, m.mem, dst, data)
    {
      hide Ok, FreeOk, Written, Translated, ChangedOnly;
      ok := m.CopyOut(table, dst, data);
      if ok {
        WrittenChanged(table, old(m.mem), m.mem, dst, data);
        WrittenTranslated(table, old(m.mem), m.mem, dst, data);
      } else {
        ghost var n: nat :| n < |data| && Written(table, old(m.mem), m.mem, dst, data[..n]);
        WrittenChanged(table, old(m.mem), m.mem, dst, data[..n]);
        ChangedWider(table, old(m.mem), m.mem, dst, dst + n, dst + |data|);
      }
      FreeKept(table, old(m.mem), m.mem, dst, dst + |data|, free);
      ChangedOk(table, old(m.mem), m.mem, dst, dst + |data|);
    }

    /** One loadable segment. */
    method LoadSegment(image: seq<Byte>, s: Segment) returns (ok: bool)
      requires Valid() && s.load && InBounds(image, s)
      modifies this, m
      ensures Valid() && Extends(old(table), table)
      ensures forall p :: p in table && p !in old(table) ==> Covers(s, p) && table[p].write
      ensures forall p :: p in old(table) ==> p in table && table[p] == old(table)[p]
      ensures ChangedOnly(table, old(m.mem), m.mem, s.vaddr, s.vaddr + s.memsz)
      ensures ok ==> Loaded(table, m.mem, image, s) && forall p :: Covers(s, p) ==> p in table
      ensures ok ==> FileBytes(table, m.mem, image, s)
      ensures !ok ==> maps == 0 || free == []
    {
      hide Ok, FreeOk, ChangedOnly, Translated, FileBytes;
      if s.memsz == 0 {
        ChangedNone(table, m.mem, s.vaddr, s.vaddr + s.memsz);
        TranslatedEmpty(table, m.mem, s.vaddr, Contents(image, s));
        LoadedBytes(table, m.mem, image, s);
        return true;
      }
      ok := MapRange(s.vaddr, s.vaddr + s.memsz);
      ChangedNone(table, m.mem, s.vaddr, s.vaddr + s.memsz);
      if !ok {
        return;
      }
      RangeMapped(table, s.vaddr, s.vaddr + s.memsz);
      var head, tail := image[s.offset..s.offset + s.filesz], Zeros(s.memsz - s.filesz);
      ghost var m0 := m.mem;
      ok := Put(s.vaddr, head);
      ghost var m1 := m.mem;
      ChangedJoin(table, m0, m0, m1, s.vaddr, s.vaddr + s.memsz, s.vaddr, s.vaddr + s.filesz, s.vaddr,
                  s.vaddr + s.memsz);
      if !ok {
        return;
      }
      ok := Put(s.vaddr + s.filesz, tail);
      ChangedJoin(table, m0, m1, m.mem, s.vaddr, s.vaddr + s.memsz, s.vaddr + s.filesz, s.vaddr + s.memsz, s.vaddr,
                  s.vaddr + s.memsz);
      if ok {
        TranslatedKept(table, m1, m.mem, s.vaddr + s.filesz, s.vaddr + s.memsz, s.vaddr, head);
        TranslatedJoin(table, m.mem, s.vaddr, head, tail);
        LoadedBytes(table, m.mem, image, s);
      }
    }

    /** All segments, in file order. */
    method LoadSegments(image: seq<Byte>, segments: seq<Segment>) returns (ok: bool)
      requires Valid() && table == map[]
      modifies this, m
      ensures Valid()
      ensures forall p :: p in table ==> Covered(segments, |segments|, p) && table[p].write
      ensures ok ==> forall p :: Covered(segments, |segments|, p) ==> p in table
      ensures ok && Disjoint(segments) ==> forall i :: 0 <= i < |segments| ==> Loaded(table, m.mem, image, segments[i])
      ensures ok && Disjoint(segments) ==>
                forall i :: 0 <= i < |segments| ==> FileBytes(table, m.mem, image, segments[i])
      ensures ok ==> forall i :: 0 <= i < |segments| && segments[i].load ==> InBounds(image, segments[i])
      ensures !ok ==> maps == 0 || free == [] || Malformed(image, segments)
    {
      hide Ok, FreeOk, ChangedOnly, Loaded, InBounds, Covers, Extends, FileBytes;
      var i := 0;
      while i < |segments|
        invariant 0 <= i <= |segments| && Valid()
        invariant forall p :: p in table ==> Covered(segments, i, p) && table[p].write
        invariant forall p :: Covered(segments, i, p) ==> p in table
        invariant Disjoint(segments) ==> forall j :: 0 <= j < i ==> Loaded(table, m.mem, image, segments[j])
        invariant forall j :: 0 <= j < i && segments[j].load ==> InBounds(image, segments[j])
      {
        var s := segments[i];
        if s.load {
          if !InBounds(image, s) {
            CoveredMore(segments, i);
            return false;
          }
          ghost var t0, m0 := table, m.mem;
          ok := LoadSegment(image, s);
          CoveredMore(segments, i);
          if !ok {
            return;
          }
          if Disjoint(segments) {
            forall j | 0 <= j < i ensures Loaded(table, m.mem, image, segments[j]) {
              LoadedExtends(t0, table, m0, image, segments[j]);
              LoadedKept(table, m0, m.mem, s.vaddr, s.vaddr + s.memsz, image, segments[j]);
            }
          }
        } else {
          CoveredMore(segments, i);
          NotLoaded(table, m.mem, image, s);
        }
        i := i + 1;
      }
      AllBytes(table, m.mem, image, segments);
      return true;
    }

    /** Gives the pages of one segment its permission. */
    method ProtectSegment(s: Segment) returns (ok: bool)
      requires Valid()
      modifies this`table
      ensures Valid() && Extends(old(table), table) && forall p :: p in table <==> p in old(table)
      ensures ok <==> forall p :: Covers(s, p) ==> p in table
      ensures ok ==> forall p :: p in table ==> table[p].write == if Covers(s, p) then s.write else old(table)[p].write
    {
      hide Ok, FreeOk;
      if !s.load || s.memsz == 0 {
        return true;
      }
      var page := s.vaddr / 4096;
      while page < (s.vaddr + s.memsz + 4095) / 4096
        invariant s.vaddr / 4096 <= page <= (s.vaddr + s.memsz + 4095) / 4096
        invariant Valid() && Extends(old(table), table) && forall p :: p in table <==> p in old(table)
        invariant forall p :: p in table ==>
          table[p].write == if s.vaddr / 4096 <= p < page then s.write else old(table)[p].write
        invariant forall p :: s.vaddr / 4096 <= p < page ==> p in table
      {
        if page !in table {
          assert Covers(s, page);
          return false;
        }
        WriteBit(table, m.mem, free, page, s.write);
        table := table[page := Entry(table[page].frame, s.write)];
        page := page + 1;
      }
      return true;
    }

    /** Gives every page the permission of the last segment on it. */
    method Protect(segments: seq<Segment>) returns (ok: bool)
      requires Valid() && forall p :: p in table ==> table[p].write
      modifies this`table
      ensures Valid() && Extends(old(table), table) && forall p :: p in table <==> p in old(table)
      ensures ok <==> forall p :: Covered(segments, |segments|, p) ==> p in old(table)
      ensures ok ==> forall p :: p in table ==> table[p].write == Writable(segments, |segments|, p)
    {
      hide Ok, FreeOk, Covers, Covered;
      var i := 0;
      CoveredNone(segments);
      while i < |segments|
        invariant 0 <= i <= |segments| && Valid() && Extends(old(table), table)
        invariant forall p :: p in table <==> p in old(table)
        invariant forall p :: p in table ==> table[p].write == Writable(segments, i, p)
        invariant forall p :: Covered(segments, i, p) ==> p in table
      {
        ok := ProtectSegment(segments[i]);
        CoveredMore(segments, i);
        if !ok {
          return;
        }
        i := i + 1;
      }
      return true;
    }

    method PutStack(sp: nat, data: seq<Byte>) returns (ok: bool, address: nat)
      requires Valid() && STACK_BASE <= sp <= STACK_TOP
      modifies m
      ensures Valid() && STACK_BASE <= address <= sp && ChangedOnly(table, old(m.mem), m.mem, address, sp)
      ensures ok ==> address + |data| == sp && Translated(table, m.mem, address, data)
      ensures StackMapped(table) && sp - |data| >= STACK_BASE ==> ok
    {
      hide Ok, FreeOk, ChangedOnly, Translated;
      if sp < STACK_BASE + |data| {
        ChangedNone(table, m.mem, sp, sp);
        return false, sp;
      }
      address := sp - |data|;
      if StackMapped(table) {
        RangeMapped(table, STACK_BASE, STACK_TOP);
      }
      ok := Put(address, data);
    }

    /** Pushes strings from the last to the first. */
    method PushStrings(strings: seq<seq<Byte>>, sp: nat) returns (ok: bool, top: nat, addresses: seq<Word>)
      requires Valid() && STACK_BASE <= sp <= STACK_TOP
      modifies m
      ensures Valid() && STACK_BASE <= top <= sp && ChangedOnly(table, old(m.mem), m.mem, top, sp)
      ensures ok ==> |addresses| == |strings|
      ensures ok ==> forall i :: 0 <= i < |strings| ==> Pushed(table, m.mem, addresses[i], strings[i], top, sp)
      ensures ok ==> top == sp - SizeFrom(strings, 0)
      ensures StackMapped(table) && sp - SizeFrom(strings, 0) >= STACK_BASE ==> ok
    {
      hide Ok, FreeOk, ChangedOnly, Pushed, StackMapped, SizeFrom, Translated;
      SizeNone(strings);
      top, addresses := sp, [];
      ChangedNone(table, m.mem, top, sp);
      var n := |strings|;
      while n > 0
        invariant 0 <= n <= |strings| && |addresses| == |strings| - n && top == sp - SizeFrom(strings, n)
        invariant Valid() && STACK_BASE <= top <= sp && ChangedOnly(table, old(m.mem), m.mem, top, sp)
        invariant forall i :: n <= i < |strings| ==> Pushed(table, m.mem, addresses[i - n], strings[i], top, sp)
      {
        ghost var before, was, above := m.mem, addresses, top;
        SizeMore(strings, n - 1);
        var address: nat;
        ok, address := PutStack(top, strings[n - 1] + [0]);
        ChangedJoin(table, old(m.mem), before, m.mem, top, sp, address, top, address, sp);
        top := address;
        if !ok {
          return;
        }
        addresses := [address] + addresses;
        PushedNow(table, m.mem, address, strings[n - 1], above, sp);
        forall i | n <= i < |strings| ensures Pushed(table, m.mem, was[i - n], strings[i], top, sp) {
          PushedKept(table, before, m.mem, was[i - n], strings[i], above, sp, top);
        }
        n := n - 1;
      }
      ok := true;
    }

    /** The strings and the random bytes, all of them above `random`. */
    method PushAll(argv: seq<seq<Byte>>, envp: seq<seq<Byte>>)
      returns (ok: bool, arguments: seq<Word>, environment: seq<Word>, random: nat)
      requires Valid()
      modifies m
      ensures Valid() && STACK_BASE <= random <= STACK_TOP && ChangedOnly(table, old(m.mem), m.mem, random, STACK_TOP)
      ensures ok ==> |arguments| == |argv| && |environment| == |envp| && Translated(table, m.mem, random, RANDOM)
      ensures ok ==> forall i :: 0 <= i < |argv| ==> Pushed(table, m.mem, arguments[i], argv[i], random, STACK_TOP)
      ensures ok ==> forall i :: 0 <= i < |envp| ==> Pushed(table, m.mem, environment[i], envp[i], random, STACK_TOP)
      ensures ok ==> random == STACK_TOP - SizeFrom(envp, 0) - SizeFrom(argv, 0) - 16
      ensures StackMapped(table) && SizeFrom(envp, 0) + SizeFrom(argv, 0) + 16 <= STACK_TOP - STACK_BASE ==> ok
    {
      hide StackMapped, SizeFrom, Ok, FreeOk, ChangedOnly, Pushed, Translated;
      arguments := [];
      ok, random, environment := PushStrings(envp, STACK_TOP);
      if !ok {
        return;
      }
      ghost var m1, above := m.mem, random;
      ok, random, arguments := PushStrings(argv, random);
      ghost var m2, middle := m.mem, random;
      ChangedJoin(table, old(m.mem), m1, m2, above, STACK_TOP, middle, above, middle, STACK_TOP);
      if !ok {
        return;
      }
      forall i | 0 <= i < |envp| ensures Pushed(table, m2, environment[i], envp[i], middle, STACK_TOP) {
        PushedKept(table, m1, m2, environment[i], envp[i], above, STACK_TOP, middle);
      }
      ok, random := PutStack(random, RANDOM);
      ChangedJoin(table, old(m.mem), m2, m.mem, middle, STACK_TOP, random, middle, random, STACK_TOP);
      forall i | 0 <= i < |envp| ensures Pushed(table, m.mem, environment[i], envp[i], random, STACK_TOP) {
        PushedKept(table, m2, m.mem, environment[i], envp[i], middle, STACK_TOP, random);
      }
      forall i | 0 <= i < |argv| ensures Pushed(table, m.mem, arguments[i], argv[i], random, STACK_TOP) {
        PushedWider(table, m2, arguments[i], argv[i], middle, above, STACK_TOP);
        PushedKept(table, m2, m.mem, arguments[i], argv[i], middle, STACK_TOP, random);
      }
    }

    /** The initial stack: what the start code reads back is exactly `argv` and `envp`. */
    method BuildStack(aux: Header, argv: seq<seq<Byte>>, envp: seq<seq<Byte>>) returns (ok: bool, sp: nat)
      requires Valid() && |argv| > 0
      modifies this, m
      ensures Valid() && Extends(old(table), table)
      ensures forall p :: p in table && p !in old(table) ==> STACK_BASE / 4096 <= p < STACK_TOP / 4096 && table[p].write
      ensures forall p :: p in old(table) ==> p in table && table[p] == old(table)[p]
      ensures ChangedOnly(table, old(m.mem), m.mem, STACK_BASE - 1024, STACK_TOP)
      ensures ok ==> forall p :: STACK_BASE / 4096 <= p < STACK_TOP / 4096 ==> p in table
      ensures ok ==> sp % 16 == 0 && STACK_BASE - 1024 <= sp < STACK_TOP
      ensures ok ==> |argv| <= 16 && Decodes(table, m.mem, sp, argv, envp)
      ensures ok ==> AuxAt(table, m.mem, sp + 8 * (3 + |argv| + |envp|), aux, argv[0])
      ensures !ok ==> maps == 0 || free == [] || TooMuch(argv, envp)
    {
      hide SizeFrom, Ok, FreeOk, ChangedOnly, Pushed, Translated, Decodes, AuxAt, AuxWords, WordsAt, StringAt;
      sp := STACK_TOP;
      ok := MapRange(STACK_BASE, STACK_TOP);
      ghost var m0 := m.mem;
      ChangedNone(table, m0, STACK_BASE - 1024, STACK_TOP);
      if !ok {
        return;
      }
      if |argv| > 16 || |envp| > 16 {
        ok := false;
        return;
      }
      var arguments, environment, random;
      ok, arguments, environment, random := PushAll(argv, envp);
      ghost var m1 := m.mem;
      ChangedJoin(table, m0, m0, m1, STACK_BASE - 1024, STACK_TOP, random, STACK_TOP, STACK_BASE - 1024, STACK_TOP);
      if !ok {
        return;
      }
      var words := StackWords(arguments, environment, aux, random);
      RangeMapped(table, STACK_BASE, STACK_TOP);
      sp := Align16(Align16(random) - 8 * |words|);
      ok := Put(sp, Concat(words));
      ChangedJoin(table, m0, m1, m.mem, STACK_BASE - 1024, STACK_TOP, sp, sp + |Concat(words)|, STACK_BASE - 1024,
                  STACK_TOP);
      if ok {
        StackHolds(table, m1, m.mem, sp, argv, envp, arguments, environment, aux, random);
      }
    }

    /** A whole program into a fresh space. */
    method Load(image: seq<Byte>, segments: seq<Segment>, aux: Header, argv: seq<seq<Byte>>, envp: seq<seq<Byte>>)
      returns (ok: bool, sp: nat)
      requires Valid() && table == map[]
      modifies this, m
      ensures Valid()
      ensures ok && Disjoint(segments) ==> forall i :: 0 <= i < |segments| ==> Loaded(table, m.mem, image, segments[i])
      ensures ok && Disjoint(segments) ==>
                forall i :: 0 <= i < |segments| ==> FileBytes(table, m.mem, image, segments[i])
      ensures ok ==> 0 < |argv| <= 16 && sp % 16 == 0 && Decodes(table, m.mem, sp, argv, envp)
      ensures ok ==> AuxAt(table, m.mem, sp + 8 * (3 + |argv| + |envp|), aux, argv[0])
      ensures ok ==> AuxFound(table, m.mem, sp + 8 * (3 + |argv| + |envp|), aux, argv[0])
      ensures ok ==> forall p: nat :: p in table <==>
                Covered(segments, |segments|, p) || STACK_BASE / 4096 <= p < STACK_TOP / 4096
      ensures ok ==> forall p :: p in table ==> table[p].write == Writable(segments, |segments|, p)
      ensures ok ==> forall p, i :: p in table && 0 <= i < |segments| && LastOn(segments, i, p) ==>
                  table[p].write == segments[i].write
      ensures ok ==> !Malformed(image, segments)
      ensures !ok ==> maps == 0 || free == [] || TooMuch(argv, envp) || Malformed(image, segments)
    {
      hide StackNeed, Ok, FreeOk, ChangedOnly, Loaded, InBounds, Covers, Covered, Extends, Decodes, AuxAt, Writable,
           FileBytes, AuxFound, LastOn;
      sp := 0;
      if |argv| == 0 {
        return false, sp;
      }
      ok := LoadSegments(image, segments);
      if !ok {
        return;
      }
      ghost var t0, m0 := table, m.mem;
      ok := Protect(segments);
      if !ok {
        return;
      }
      ghost var t1 := table;
      ok, sp := BuildStack(aux, argv, envp);
      if ok {
        if Disjoint(segments) {
          forall i | 0 <= i < |segments| ensures Loaded(table, m.mem, image, segments[i]) {
            LoadedExtends(t0, t1, m0, image, segments[i]);
            LoadedExtends(t1, table, m0, image, segments[i]);
            LoadedLow(table, m0, m.mem, image, segments[i]);
          }
        }
        forall p | p in table && p !in t1 ensures Writable(segments, |segments|, p) {
          NotCovered(segments, |segments|, p);
        }
        AllBytes(table, m.mem, image, segments);
        AuxFinds(table, m.mem, sp + 8 * (3 + |argv| + |envp|), aux, argv[0]);
        forall p, i | p in table && 0 <= i < |segments| && LastOn(segments, i, p)
          ensures Writable(segments, |segments|, p) == segments[i].write
        {
          LastDecidesAll(segments, i, p);
        }
      }
    }
  }


  ghost predicate StackMapped(table: Table) {
    forall p :: STACK_BASE / 4096 <= p < (STACK_TOP + 4095) / 4096 ==> p in table
  }

  lemma RangeMapped(table: Table, start: nat, end: nat)
    requires forall p :: start / 4096 <= p < (end + 4095) / 4096 ==> p in table
    ensures forall v: nat {:trigger Mapped(table, v)} :: start <= v < end ==> Mapped(table, v)
  {
  }

  /** Bytes of the strings from index `n` on, with their terminators. */
  function SizeFrom(strings: seq<seq<Byte>>, n: nat): nat
    requires n <= |strings|
    decreases |strings| - n
  {
    if n == |strings| then 0 else |strings[n]| + 1 + SizeFrom(strings, n + 1)
  }

  lemma SizeNone(strings: seq<seq<Byte>>)
    ensures SizeFrom(strings, |strings|) == 0
  {
  }

  function Align16(x: nat): (r: nat)
    ensures r % 16 == 0 && r <= x < r + 16
  {
    x - x % 16
  }

  lemma {:induction false} SizeMore(strings: seq<seq<Byte>>, n: nat)
    requires n < |strings|
    ensures SizeFrom(strings, n) == |strings[n]| + 1 + SizeFrom(strings, n + 1) <= SizeFrom(strings, 0)
    decreases n
  {
    if n > 0 {
      SizeMore(strings, n - 1);
    }
  }

  /** What strings, random bytes, words and alignment take on the stack at most. */
  function StackNeed(argv: seq<seq<Byte>>, envp: seq<seq<Byte>>): nat {
    SizeFrom(argv, 0) + SizeFrom(envp, 0) + 16 + 15 + 8 * (|argv| + |envp| + 19) + 15
  }

  /** No arguments, too many strings, or more than the stack holds. */
  predicate TooMuch(argv: seq<seq<Byte>>, envp: seq<seq<Byte>>) {
    |argv| == 0 || |argv| > 16 || |envp| > 16 || StackNeed(argv, envp) > STACK_TOP - STACK_BASE
  }

  ghost predicate Malformed(image: seq<Byte>, segments: seq<Segment>) {
    exists i :: 0 <= i < |segments| && segments[i].load && !InBounds(image, segments[i])
  }

  /** Writes to the stack spare the image. */
  lemma LoadedLow(table: Table, before: Memory, after: Memory, image: seq<Byte>, s: Segment)
    requires Loaded(table, before, image, s) && ChangedOnly(table, before, after, STACK_BASE - 1024, STACK_TOP)
    ensures Loaded(table, after, image, s)
  {
    LoadedKept(table, before, after, STACK_BASE - 1024, STACK_TOP, image, s);
  }

  lemma {:induction false} NotCovered(segments: seq<Segment>, n: nat, p: nat)
    requires n <= |segments| && !Covered(segments, n, p)
    ensures Writable(segments, n, p)
  {
    if n > 0 {
      assert !Covers(segments[n - 1], p);
      NotCovered(segments, n - 1, p);
    }
  }

  lemma TranslatedEmpty(table: Table, mem: Memory, a: nat, s: seq<Byte>)
    requires s == []
    ensures Translated(table, mem, a, s)
  {
  }

  lemma ChangedWider(table: Table, before: Memory, after: Memory, lo: nat, mid: nat, hi: nat)
    requires ChangedOnly(table, before, after, lo, mid) && mid <= hi
    ensures ChangedOnly(table, before, after, lo, hi)
  {
  }

  lemma ChangedOk(table: Table, before: Memory, after: Memory, lo: nat, hi: nat)
    requires ChangedOnly(table, before, after, lo, hi)
    ensures Ok(table, after)
  {
  }

  lemma CoveredNone(segments: seq<Segment>)
    ensures forall p :: !Covered(segments, 0, p)
  {
  }

  lemma CoveredMore(segments: seq<Segment>, i: nat)
    requires i < |segments|
    ensures forall p :: Covered(segments, i + 1, p) <==> Covered(segments, i, p) || Covers(segments[i], p)
    ensures forall p :: Covered(segments, i + 1, p) ==> Covered(segments, |segments|, p)
    ensures !segments[i].load ==> forall p :: !Covers(segments[i], p)
  {
  }

  lemma NotLoaded(table: Table, mem: Memory, image: seq<Byte>, s: Segment)
    requires !s.load
    ensures Loaded(table, mem, image, s)
  {
  }

  lemma WriteBit(table: Table, mem: Memory, free: seq<nat>, p: nat, write: bool)
    requires Ok(table, mem) && FreeOk(table, mem, free) && p in table
    ensures Ok(table[p := Entry(table[p].frame, write)], mem)
    ensures FreeOk(table[p := Entry(table[p].frame, write)], mem, free)
  {
    var after := table[p := Entry(table[p].frame, write)];
    forall f | Unmapped(table, f) ensures Unmapped(after, f) {
      forall q | q in after ensures after[q].frame != f {
        assert q in table && after[q].frame == table[q].frame;
      }
    }
  }

  // ----- The words of the stack

  /** The header fields that go into the auxiliary vector. */
  datatype Header = Header(phdr: Word, phentsize: Word, phnum: Word, entry: Word)

  const RANDOM: seq<Byte> := [0x6e, 0x61, 0x72, 0x63, 0x4f, 0x73, 0x2d, 0x6c, 0x69, 0x74, 0x74, 0x6c, 0x65, 0x2d,
    0x6f, 0x73]

  function AuxWords(h: Header, random: Word, name: Word): (r: seq<Word>)
    ensures |r| == 16
  {
    [3, h.phdr, 4, h.phentsize, 5, h.phnum, 6, 4096, 9, h.entry, 25, random, 31, name, 0, 0]
  }

  ghost predicate WordsAt(table: Table, mem: Memory, a: nat, words: seq<Word>) {
    forall i :: 0 <= i < |words| ==> WordAt(table, mem, a + 8 * i, words[i])
  }

  /** The auxiliary vector, with its two pointers followed. */
  ghost predicate AuxAt(table: Table, mem: Memory, a: nat, h: Header, name: seq<Byte>) {
    exists r: Word, n: Word :: WordsAt(table, mem, a, AuxWords(h, r, n)) && Translated(table, mem, r, RANDOM)
      && StringAt(table, mem, n, name)
  }

  const AT_PHDR: nat := 3
  const AT_PHENT: nat := 4
  const AT_PHNUM: nat := 5
  const AT_PAGESZ: nat := 6
  const AT_ENTRY: nat := 9
  const AT_RANDOM: nat := 25
  const AT_EXECFN: nat := 31

  /** The `i`-th pair of the auxiliary vector at `a`. */
  ghost predicate PairAt(table: Table, mem: Memory, a: nat, i: nat, key: nat, value: Word)
    requires key < 64
  {
    WordAt(table, mem, a + 16 * i, key) && WordAt(table, mem, a + 16 * i + 8, value)
  }

  /** Every entry of the auxiliary vector under its key: the program headers, the page size, the entry point,
      a pointer to the random bytes and one to the program's name. */
  ghost predicate AuxFound(table: Table, mem: Memory, a: nat, h: Header, name: seq<Byte>) {
    exists r: Word, n: Word ::
      && PairAt(table, mem, a, 0, AT_PHDR, h.phdr) && PairAt(table, mem, a, 1, AT_PHENT, h.phentsize)
      && PairAt(table, mem, a, 2, AT_PHNUM, h.phnum) && PairAt(table, mem, a, 3, AT_PAGESZ, 4096)
      && PairAt(table, mem, a, 4, AT_ENTRY, h.entry) && PairAt(table, mem, a, 5, AT_RANDOM, r)
      && PairAt(table, mem, a, 6, AT_EXECFN, n) && PairAt(table, mem, a, 7, 0, 0)
      && Translated(table, mem, r, RANDOM) && StringAt(table, mem, n, name)
  }

  lemma AuxFinds(table: Table, mem: Memory, a: nat, h: Header, name: seq<Byte>)
    requires AuxAt(table, mem, a, h, name)
    ensures AuxFound(table, mem, a, h, name)
  {
    hide WordAt, Translated, StringAt;
    var r: Word, n: Word :| WordsAt(table, mem, a, AuxWords(h, r, n)) && Translated(table, mem, r, RANDOM)
      && StringAt(table, mem, n, name);
    var words := AuxWords(h, r, n);
    forall i: nat | i < 8 ensures WordAt(table, mem, a + 16 * i, words[2 * i])
      && WordAt(table, mem, a + 16 * i + 8, words[2 * i + 1]) {
      assert WordAt(table, mem, a + 8 * (2 * i), words[2 * i]);
      assert WordAt(table, mem, a + 8 * (2 * i + 1), words[2 * i + 1]);
    }
    assert PairAt(table, mem, a, 0, AT_PHDR, h.phdr);
    assert PairAt(table, mem, a, 1, AT_PHENT, h.phentsize);
    assert PairAt(table, mem, a, 2, AT_PHNUM, h.phnum);
    assert PairAt(table, mem, a, 3, AT_PAGESZ, 4096);
    assert PairAt(table, mem, a, 4, AT_ENTRY, h.entry);
    assert PairAt(table, mem, a, 5, AT_RANDOM, r);
    assert PairAt(table, mem, a, 6, AT_EXECFN, n);
    assert PairAt(table, mem, a, 7, 0, 0);
  }

  const PATH_MAX: nat := 128  // strings of the exec call are shorter

  /** Arguments and environment as the exec call passes them always fit on the stack. */
  lemma StackSuffices(argv: seq<seq<Byte>>, envp: seq<seq<Byte>>)
    requires 0 < |argv| <= 16 && |envp| <= 16
    requires forall i :: 0 <= i < |argv| ==> |argv[i]| < PATH_MAX
    requires forall i :: 0 <= i < |envp| ==> |envp[i]| < PATH_MAX
    ensures !TooMuch(argv, envp)
  {
    SizeAtMost(argv, 0);
    SizeAtMost(envp, 0);
  }

  lemma {:induction false} SizeAtMost(strings: seq<seq<Byte>>, n: nat)
    requires n <= |strings| && forall i :: 0 <= i < |strings| ==> |strings[i]| < PATH_MAX
    ensures SizeFrom(strings, n) <= PATH_MAX * (|strings| - n)
    decreases |strings| - n
  {
    if n < |strings| {
      SizeAtMost(strings, n + 1);
    }
  }

  ghost predicate Pushed(table: Table, mem: Memory, a: Word, s: seq<Byte>, lo: nat, hi: nat) {
    StringAt(table, mem, a, s) && lo <= a && a + |s| + 1 <= hi && STACK_BASE <= lo
  }

  lemma PushedNow(table: Table, mem: Memory, a: Word, s: seq<Byte>, above: nat, hi: nat)
    requires Translated(table, mem, a, s + [0]) && STACK_BASE <= a && a + |s| + 1 == above <= hi
    ensures Pushed(table, mem, a, s, a, hi)
  {
  }

  lemma PushedKept(table: Table, before: Memory, after: Memory, a: Word, s: seq<Byte>, lo: nat, hi: nat, lower: nat)
    requires Pushed(table, before, a, s, lo, hi) && STACK_BASE <= lower <= lo
    requires ChangedOnly(table, before, after, lower, lo)
    ensures Pushed(table, after, a, s, lower, hi)
  {
    TranslatedKept(table, before, after, lower, lo, a, s + [0]);
  }

  lemma PushedWider(table: Table, mem: Memory, a: Word, s: seq<Byte>, lo: nat, mid: nat, hi: nat)
    requires Pushed(table, mem, a, s, lo, mid) && mid <= hi
    ensures Pushed(table, mem, a, s, lo, hi)
  {
  }

  lemma PushedStays(table: Table, before: Memory, after: Memory, a: Word, s: seq<Byte>, random: nat, top: nat,
                    lo: nat, hi: nat)
    requires Pushed(table, before, a, s, random, top) && hi <= random && ChangedOnly(table, before, after, lo, hi)
    ensures a != 0 && StringAt(table, after, a, s)
  {
    TranslatedKept(table, before, after, lo, hi, a, s + [0]);
  }

  function StackWords(arguments: seq<Word>, environment: seq<Word>, aux: Header, random: Word): (r: seq<Word>)
    requires 0 < |arguments| <= 16
    ensures |r| == |arguments| + |environment| + 19
  {
    [|arguments|] + arguments + [0] + environment + [0] + AuxWords(aux, random, arguments[0])
  }

  lemma WordsHold(table: Table, mem: Memory, a: nat, words: seq<Word>)
    requires Translated(table, mem, a, Concat(words))
    ensures WordsAt(table, mem, a, words)
  {
    hide Translated;
    forall i | 0 <= i < |words| ensures WordAt(table, mem, a + 8 * i, words[i]) {
      ConcatAt(words, i);
      TranslatedPart(table, mem, a, Concat(words), 8 * i, 8 * i + 8);
    }
  }

  lemma StackHolds(table: Table, m1: Memory, m2: Memory, sp: nat, argv: seq<seq<Byte>>, envp: seq<seq<Byte>>,
                   arguments: seq<Word>, environment: seq<Word>, aux: Header, random: Word)
    requires 0 < |argv| <= 16 && |arguments| == |argv| && |environment| == |envp|
    requires forall i :: 0 <= i < |argv| ==> Pushed(table, m1, arguments[i], argv[i], random, STACK_TOP)
    requires forall i :: 0 <= i < |envp| ==> Pushed(table, m1, environment[i], envp[i], random, STACK_TOP)
    requires Translated(table, m1, random, RANDOM)
    requires var bytes := Concat(StackWords(arguments, environment, aux, random));
      ChangedOnly(table, m1, m2, sp, sp + |bytes|) && Translated(table, m2, sp, bytes) && sp + |bytes| <= random
    ensures Decodes(table, m2, sp, argv, envp)
    ensures AuxAt(table, m2, sp + 8 * (3 + |argv| + |envp|), aux, argv[0])
  {
    hide ChangedOnly, Pushed, Translated, Decodes, AuxAt, StringAt, StackWords, Concat;
    var words := StackWords(arguments, environment, aux, random);
    var hi := sp + |Concat(words)|;
    forall i | 0 <= i < |envp| ensures environment[i] != 0 && StringAt(table, m2, environment[i], envp[i]) {
      PushedStays(table, m1, m2, environment[i], envp[i], random, STACK_TOP, sp, hi);
    }
    forall i | 0 <= i < |argv| ensures arguments[i] != 0 && StringAt(table, m2, arguments[i], argv[i]) {
      PushedStays(table, m1, m2, arguments[i], argv[i], random, STACK_TOP, sp, hi);
    }
    TranslatedKept(table, m1, m2, sp, hi, random, RANDOM);
    WordsHold(table, m2, sp, words);
    StackDecodes(table, m2, sp, argv, envp, arguments, environment, aux, random);
  }

  lemma StackDecodes(table: Table, mem: Memory, sp: nat, argv: seq<seq<Byte>>, envp: seq<seq<Byte>>,
                     arguments: seq<Word>, environment: seq<Word>, aux: Header, random: Word)
    requires 0 < |argv| <= 16 && |arguments| == |argv| && |environment| == |envp|
    requires WordsAt(table, mem, sp, StackWords(arguments, environment, aux, random))
    requires forall i :: 0 <= i < |argv| ==> arguments[i] != 0 && StringAt(table, mem, arguments[i], argv[i])
    requires forall i :: 0 <= i < |envp| ==> environment[i] != 0 && StringAt(table, mem, environment[i], envp[i])
    requires Translated(table, mem, random, RANDOM)
    ensures Decodes(table, mem, sp, argv, envp)
    ensures AuxAt(table, mem, sp + 8 * (3 + |argv| + |envp|), aux, argv[0])
  {
    hide StringAt, WordAt, Translated, AuxWords;
    var tail := AuxWords(aux, random, arguments[0]);
    var words := StackWords(arguments, environment, aux, random);
    assert words[0] == |argv|;
    assert WordAt(table, mem, sp + 8 * 0, words[0]);
    forall i | 0 <= i < |argv| ensures PointerAt(table, mem, sp + 8 + 8 * i, argv[i]) {
      assert words[1 + i] == arguments[i];
      assert WordAt(table, mem, sp + 8 * (1 + i), words[1 + i]);
    }
    assert words[1 + |argv|] == 0;
    assert WordAt(table, mem, sp + 8 * (1 + |argv|), words[1 + |argv|]);
    forall i | 0 <= i < |envp| ensures PointerAt(table, mem, sp + 8 + 8 * |argv| + 8 + 8 * i, envp[i]) {
      assert words[2 + |argv| + i] == environment[i];
      assert WordAt(table, mem, sp + 8 * (2 + |argv| + i), words[2 + |argv| + i]);
    }
    assert words[2 + |argv| + |envp|] == 0;
    assert WordAt(table, mem, sp + 8 * (2 + |argv| + |envp|), words[2 + |argv| + |envp|]);
    forall i | 0 <= i < |tail| ensures WordAt(table, mem, sp + 8 * (3 + |argv| + |envp|) + 8 * i, tail[i]) {
      assert words[3 + |argv| + |envp| + i] == tail[i];
      assert WordAt(table, mem, sp + 8 * (3 + |argv| + |envp| + i), words[3 + |argv| + |envp| + i]);
    }
    assert WordsAt(table, mem, sp + 8 * (3 + |argv| + |envp|), AuxWords(aux, random, arguments[0]));
  }
}

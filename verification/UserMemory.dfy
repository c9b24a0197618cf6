/**
 User memory as the kernel reaches it: the range check of kernel/mm/mm.c and the copy
 loops of kernel/syscall.c and kernel/user.c, which go page by page.  A space is the map
 from virtual page to frame that the page tables stand for; memory is the bytes of frames.
 */
module UserMemory {

  import opened Bytes

  datatype Entry = Entry(frame: nat, write: bool)

  type Table = map<nat, Entry>

  type Memory = map<nat, seq<Byte>>

  const USER_LAST := 0x7fff_ffff_ffff

  /** Frame 0 is never handed out, frames are whole pages, and no frame is mapped twice. */
  ghost predicate Ok(table: Table, mem: Memory) {
    && (forall p :: p in table ==> table[p].frame > 0 && table[p].frame in mem && |mem[table[p].frame]| == 4096)
    && (forall p, q :: p in table && q in table && p != q ==> table[p].frame != table[q].frame)
  }

  predicate Mapped(table: Table, v: nat) {
    v / 4096 in table
  }

  ghost predicate Readable(table: Table, mem: Memory, v: nat) {
    v / 4096 in table && table[v / 4096].frame in mem && |mem[table[v / 4096].frame]| == 4096
  }

  /** The byte at a virtual address. */
  ghost function At(table: Table, mem: Memory, v: nat): Byte
    requires Readable(table, mem, v)
  {
    mem[table[v / 4096].frame][v % 4096]
  }

  // ----- The range check

  /** Every byte is inside user space, mapped, and writable if it has to be. */
  ghost predicate Allowed(table: Table, virt: nat, len: nat, write: bool) {
    forall v: nat {:trigger Mapped(table, v)} :: virt <= v < virt + len ==>
      v <= USER_LAST && Mapped(table, v) && (write ==> table[v / 4096].write)
  }

  method RangeOk(table: Table, virt: nat, len: nat, write: bool) returns (ok: bool)
    ensures ok <==> Allowed(table, virt, len, write)
  {
    if len == 0 {
      return true;
    }
    if virt > USER_LAST {
      ghost var first := Mapped(table, virt);
      return false;
    }
    if len - 1 > USER_LAST - virt {
      ghost var last := Mapped(table, virt + len - 1);
      return false;
    }
    var last := (virt + len - 1) / 4096;
    var page := virt / 4096;
    while true
      invariant virt / 4096 <= page <= last
      invariant forall p :: virt / 4096 <= p < page ==> p in table && (write ==> table[p].write)
      decreases last - page
    {
      if page !in table || (write && !table[page].write) {
        var v := if page == virt / 4096 then virt else page * 4096;
        assert v / 4096 == page;
        assert !(Mapped(table, v) && (write ==> table[v / 4096].write));
        return false;
      }
      if page == last {
        return true;
      }
      page := page + 1;
    }
  }

  // ----- Copying into user memory

  function Patch(s: seq<Byte>, off: nat, data: seq<Byte>): (r: seq<Byte>)
    requires off + |data| <= |s|
    ensures |r| == |s|
    ensures forall k :: 0 <= k < |s| ==> r[k] == if off <= k < off + |data| then data[k - off] else s[k]
  {
    s[..off] + data + s[off + |data|..]
  }

  /** The part of `data` that goes to the page of `v`, when the write starts at `v`. */
  function Chunk(v: nat, len: nat): (r: nat)
    ensures r <= len && (len > 0 ==> 0 < r) && v % 4096 + r <= 4096
  {
    var chunk := 4096 - v % 4096;
    if chunk > len then len else chunk
  }

  /** What memory holds after `data` is written at `dst`: those bytes and nothing else. */
  ghost predicate Written(table: Table, before: Memory, after: Memory, dst: nat, data: seq<Byte>) {
    && Ok(table, before) && Ok(table, after)
    && (forall v: nat {:trigger At(table, after, v)} :: Readable(table, after, v) ==>
      Readable(table, before, v) &&
      At(table, after, v) == if dst <= v < dst + |data| then data[v - dst] else At(table, before, v))
    && FramesKept(table, before, after, dst, |data|)
  }

  ghost predicate Touched(table: Table, dst: nat, len: nat, f: nat) {
    exists p :: dst / 4096 <= p <= (dst + len - 1) / 4096 && p in table && table[p].frame == f && len > 0
  }

  /** Only the frames under the range may have changed. */
  ghost predicate FramesKept(table: Table, before: Memory, after: Memory, dst: nat, len: nat) {
    && (forall f :: f in before <==> f in after)
    && (forall f :: f in before && !Touched(table, dst, len, f) ==> after[f] == before[f])
  }

  lemma WrittenNone(table: Table, mem: Memory, dst: nat)
    requires Ok(table, mem)
    ensures Written(table, mem, mem, dst, [])
  {
  }

  /** One page's worth of the write. */
  lemma ChunkWritten(table: Table, mem: Memory, v: nat, data: seq<Byte>)
    requires Ok(table, mem) && Mapped(table, v) && 0 < |data| && v % 4096 + |data| <= 4096
    ensures var f := table[v / 4096].frame;
      Written(table, mem, mem[f := Patch(mem[f], v % 4096, data)], v, data)
  {
    var f := table[v / 4096].frame;
    var after := mem[f := Patch(mem[f], v % 4096, data)];
    assert (v + |data| - 1) / 4096 == v / 4096;
    assert Touched(table, v, |data|, f);
    forall w: nat | Readable(table, after, w)
      ensures Readable(table, mem, w) &&
        At(table, after, w) == if v <= w < v + |data| then data[w - v] else At(table, mem, w)
    {
      assert w / 4096 == v / 4096 || table[w / 4096].frame != f;
    }
  }

  /** Two writes one after the other. */
  lemma WrittenJoin(table: Table, m0: Memory, m1: Memory, m2: Memory, dst: nat, a: seq<Byte>, b: seq<Byte>)
    requires Written(table, m0, m1, dst, a) && Written(table, m1, m2, dst + |a|, b)
    ensures Written(table, m0, m2, dst, a + b)
  {
    forall v: nat | Readable(table, m2, v)
      ensures Readable(table, m0, v) &&
        At(table, m2, v) == if dst <= v < dst + |a + b| then (a + b)[v - dst] else At(table, m0, v)
    {
      var x, y := At(table, m2, v), At(table, m1, v);
    }
    forall f | f in m0 && !Touched(table, dst, |a + b|, f) ensures m2[f] == m0[f] {
    }
  }

  /** Byte by byte, `out` is what user memory holds from `src` on. */
  ghost predicate Translated(table: Table, mem: Memory, src: nat, out: seq<Byte>) {
    forall v: nat {:trigger Readable(table, mem, v)} :: src <= v < src + |out| ==>
      Readable(table, mem, v) && out[v - src] == At(table, mem, v)
  }

  class Memories {
    var mem: Memory

    constructor (m: Memory)
      ensures mem == m
    {
      mem := m;
    }

    /** The inner loop: one chunk into one frame. */
    method Store(f: nat, off: nat, data: seq<Byte>)
      requires f in mem && off + |data| <= |mem[f]|
      modifies this
      ensures mem == old(mem)[f := Patch(old(mem)[f], off, data)]
    {
      var i := 0;
      assert Patch(mem[f], off, data[..i]) == mem[f];
      assert mem == mem[f := mem[f]];
      while i < |data|
        invariant 0 <= i <= |data| && mem == old(mem)[f := Patch(old(mem)[f], off, data[..i])]
      {
        mem := mem[f := mem[f][off + i := data[i]]];
        i := i + 1;
        assert mem[f] == Patch(old(mem)[f], off, data[..i]);
        assert mem == old(mem)[f := mem[f]];
      }
      assert data[..i] == data;
    }

    /** `copy_out`: success means exactly `data` was written; failure means a page was missing. */
    method CopyOut(table: Table, dst: nat, data: seq<Byte>) returns (ok: bool)
      requires Ok(table, mem)
      modifies this
      ensures ok <==> forall v: nat {:trigger Mapped(table, v)} :: dst <= v < dst + |data| ==> Mapped(table, v)
      ensures ok ==> Written(table, old(mem), mem, dst, data)
      ensures !ok ==> exists n: nat :: n < |data| && Written(table, old(mem), mem, dst, data[..n])
    {
      hide Ok, Written;
      var done := 0;
      WrittenNone(table, mem, dst);
      assert data[..done] == [];
      while done < |data|
        invariant 0 <= done <= |data| && Written(table, old(mem), mem, dst, data[..done])
        invariant Ok(table, mem)
        invariant forall v: nat {:trigger Mapped(table, v)} :: dst <= v < dst + done ==> Mapped(table, v)
      {
        var at := dst + done;
        if at / 4096 !in table {
          assert !Mapped(table, at);
          return false;
        }
        var chunk := Chunk(at, |data| - done);
        var part := data[done..done + chunk];
        var f := FrameOf(table, mem, at);
        ChunkWritten(table, mem, at, part);
        ghost var before := mem;
        Store(f, at % 4096, part);
        WrittenJoin(table, old(mem), before, mem, dst, data[..done], part);
        assert data[..done] + part == data[..done + chunk];
        WrittenOk(table, before, mem, at, part);
        forall v: nat {:trigger Mapped(table, v)} | at <= v < at + chunk ensures Mapped(table, v) {
          assert v / 4096 == at / 4096;
        }
        done := done + chunk;
      }
      assert data[..done] == data;
      return true;
    }

    /** `copy_to_user`: all of it or nothing. */
    method CopyToUser(table: Table, dst: nat, data: seq<Byte>) returns (ok: bool)
      requires Ok(table, mem)
      modifies this
      ensures ok <==> Allowed(table, dst, |data|, true)
      ensures if ok then Written(table, old(mem), mem, dst, data) else mem == old(mem)
    {
      ok := RangeOk(table, dst, |data|, true);
      if ok {
        ok := CopyOut(table, dst, data);
      }
    }

    /** `copy_from_user`: the bytes that per-address translation gives, or nothing. */
    method CopyFromUser(table: Table, src: nat, len: nat) returns (ok: bool, out: seq<Byte>)
      requires Ok(table, mem)
      ensures ok <==> Allowed(table, src, len, false)
      ensures ok ==> |out| == len && Translated(table, mem, src, out)
    {
      out := [];
      ok := RangeOk(table, src, len, false);
      if !ok {
        return;
      }
      var done := 0;
      while done < len
        invariant 0 <= done <= len && |out| == done && Translated(table, mem, src, out)
      {
        var at := src + done;
        assert Mapped(table, at);
        var chunk := Chunk(at, len - done);
        var page := mem[table[at / 4096].frame];
        ghost var before := out;
        out := out + page[at % 4096..at % 4096 + chunk];
        forall v: nat | src <= v < src + done + chunk
          ensures Readable(table, mem, v) && out[v - src] == At(table, mem, v) {
          if v < at {
            assert out[v - src] == before[v - src] && Readable(table, mem, v);
          } else {
            assert v / 4096 == at / 4096 && v % 4096 == at % 4096 + (v - at);
            assert out[v - src] == page[at % 4096 + (v - at)];
          }
        }
        done := done + chunk;
      }
    }
  }

  /** The frame under an address, as `vmm_user_phys` finds it. */
  function FrameOf(table: Table, mem: Memory, v: nat): (f: nat)
    requires Ok(table, mem) && Mapped(table, v)
    ensures f == table[v / 4096].frame && f in mem && |mem[f]| == 4096
  {
    table[v / 4096].frame
  }

  lemma WrittenOk(table: Table, before: Memory, after: Memory, dst: nat, data: seq<Byte>)
    requires Written(table, before, after, dst, data)
    ensures Ok(table, after)
  {
  }
}

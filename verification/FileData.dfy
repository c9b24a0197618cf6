/**
 File contents in kernel/fs/vfs.c: held in the boot archive until the first write,
 then in pages, and always standing for one flat sequence of bytes.
 */
module FileData {
  import opened Bytes

  const PAGE_MAX: nat := 16
  const FILE_MAX: nat := 65536

  /** Which page byte `i` is on, and where on it. */
  function PageOf(i: nat): (p: nat)
    ensures p * 4096 <= i < p * 4096 + 4096
  {
    i / 4096
  }

  function InPage(i: nat): (o: nat)
    ensures o < 4096 && o == i - PageOf(i) * 4096
  {
    i % 4096
  }

  datatype Option<T> = None | Some(value: T)

  function Zeros(n: nat): (z: seq<Byte>)
    ensures |z| == n && forall i :: 0 <= i < n ==> z[i] == 0
  {
    seq(n, _ => 0)
  }

  /** Bytes written over a sequence, which is first extended with zeros if they start behind its end. */
  function Splice(c: seq<Byte>, offset: nat, buf: seq<Byte>): (r: seq<Byte>)
    ensures |r| == if offset + |buf| > |c| then offset + |buf| else |c|
    ensures forall i :: 0 <= i < |r| ==>
              r[i] == if offset <= i < offset + |buf| then buf[i - offset] else if i < |c| then c[i] else 0
  {
    var len := if offset + |buf| > |c| then offset + |buf| else |c|;
    seq(len, i requires 0 <= i < len =>
      if offset <= i < offset + |buf| then buf[i - offset] else if i < |c| then c[i] else 0)
  }

  function Min(a: nat, b: nat): nat {
    if a < b then a else b
  }

  // ----- Pages

  /** Sixteen slots, each empty or a full page. */
  ghost predicate Paged(pages: seq<seq<Byte>>) {
    |pages| == PAGE_MAX && forall i :: 0 <= i < PAGE_MAX ==> pages[i] == [] || |pages[i]| == 4096
  }

  ghost predicate Owns(pages: seq<seq<Byte>>, end: nat)
    requires |pages| == PAGE_MAX
  {
    end <= FILE_MAX && forall i :: 0 <= i < PAGE_MAX && i * 4096 < end ==> |pages[i]| == 4096
  }

  function ByteAt(pages: seq<seq<Byte>>, i: nat): Byte {
    if PageOf(i) < |pages| && InPage(i) < |pages[PageOf(i)]| then pages[PageOf(i)][InPage(i)] else 0
  }

  /** Owned bytes from `size` on are zero. */
  ghost predicate ZeroFrom(pages: seq<seq<Byte>>, size: nat) {
    forall i: nat :: i >= size ==> ByteAt(pages, i) == 0
  }

  function PageBytes(pages: seq<seq<Byte>>, size: nat): (c: seq<Byte>)
    ensures |c| == size && forall i :: 0 <= i < size ==> c[i] == ByteAt(pages, i)
  {
    seq(size, i requires 0 <= i < size => ByteAt(pages, i))
  }

  /** Storing `data` into page `p` at `off`. */
  function Poke(pages: seq<seq<Byte>>, p: nat, off: nat, data: seq<Byte>): (r: seq<seq<Byte>>)
    requires p < |pages| && off + |data| <= |pages[p]|
  {
    pages[p := pages[p][..off] + data + pages[p][off + |data|..]]
  }

  lemma PokeBytes(pages: seq<seq<Byte>>, p: nat, off: nat, data: seq<Byte>)
    requires Paged(pages) && p < PAGE_MAX && |pages[p]| == 4096 && off + |data| <= 4096
    ensures Paged(Poke(pages, p, off, data))
    ensures forall i: nat :: ByteAt(Poke(pages, p, off, data), i) ==
              if p * 4096 + off <= i < p * 4096 + off + |data| then data[i - p * 4096 - off] else ByteAt(pages, i)
  {
    hide PageOf, InPage;
    var r := Poke(pages, p, off, data);
    forall i: nat
      ensures ByteAt(r, i) == if p * 4096 + off <= i < p * 4096 + off + |data| then data[i - p * 4096 - off]
                else ByteAt(pages, i)
    {
      assert i == PageOf(i) * 4096 + InPage(i);
    }
  }

  // ----- Reading

  /** What the page loop of `vfs_read` delivers: the first chunk starts at the beginning of its
      page, whatever the offset within that page is. */
  function ReadPaged(c: seq<Byte>, offset: nat, length: nat): (r: seq<Byte>)
    ensures |r| == if offset >= |c| then 0 else Min(length, |c| - offset)
    ensures forall k :: 0 <= k < |r| ==>
              r[k] == if k < 4096 - InPage(offset) then c[offset - InPage(offset) + k] else c[offset + k]
  {
    var n := if offset >= |c| then 0 else Min(length, |c| - offset);
    seq(n, k requires 0 <= k < n =>
      if k < 4096 - InPage(offset) then c[offset - InPage(offset) + k] else c[offset + k])
  }

  /** The bytes a read should deliver. */
  function Wanted(c: seq<Byte>, offset: nat, length: nat): seq<Byte> {
    if offset >= |c| then [] else c[offset..offset + Min(length, |c| - offset)]
  }

  /** A file of `size` bytes that is zero but for one byte. */
  function Spike(size: nat, at: nat): (c: seq<Byte>)
    ensures |c| == size && forall i :: 0 <= i < size ==> c[i] == if i == at then 1 else 0
  {
    seq(size, i => if i == at then 1 else 0)
  }

  /** Reading page-backed data is right for every content exactly when there is nothing to read
      or the offset is at the start of a page. */
  lemma ReadPagedCorrectIff(size: nat, offset: nat, length: nat)
    ensures (forall c: seq<Byte> :: |c| == size ==> ReadPaged(c, offset, length) == Wanted(c, offset, length))
            <==> offset >= size || length == 0 || InPage(offset) == 0
  {
    hide PageOf, InPage;
    if offset >= size || length == 0 || InPage(offset) == 0 {
      forall c: seq<Byte> | |c| == size ensures ReadPaged(c, offset, length) == Wanted(c, offset, length) {
      }
    } else {
      var c := Spike(size, offset);
      assert ReadPaged(c, offset, length)[0] == 0 && Wanted(c, offset, length)[0] == 1;
    }
  }

  /** The read system call goes through a 512-byte buffer, one `vfs_read` per buffer. */
  function SyscallRead(c: seq<Byte>, offset: nat, length: nat): (r: seq<Byte>)
    decreases length
  {
    if length == 0 then []
    else
      var want := Min(length, 512);
      var got := ReadPaged(c, offset, want);
      if |got| < want then got else got + SyscallRead(c, offset + want, length - want)
  }

  lemma {:induction false} SyscallReadPast(c: seq<Byte>, offset: nat, length: nat)
    requires offset >= |c|
    ensures SyscallRead(c, offset, length) == []
  {
  }

  /** Through the system call, page-backed data comes back right for every content exactly when
      at most one buffer is needed and it starts a page: later buffers repeat the page's start. */
  lemma SyscallReadCorrectIff(size: nat, offset: nat, length: nat)
    ensures (forall c: seq<Byte> :: |c| == size ==> SyscallRead(c, offset, length) == Wanted(c, offset, length))
            <==> offset >= size || length == 0 || (InPage(offset) == 0 && Min(length, size - offset) <= 512)
  {
    hide PageOf, InPage;
    if offset >= size {
      forall c: seq<Byte> | |c| == size ensures SyscallRead(c, offset, length) == [] {
        SyscallReadPast(c, offset, length);
      }
    } else if length == 0 {
    } else if InPage(offset) == 0 && Min(length, size - offset) <= 512 {
      forall c: seq<Byte> | |c| == size ensures SyscallRead(c, offset, length) == Wanted(c, offset, length) {
        var want := Min(length, 512);
        var got := ReadPaged(c, offset, want);
        if |got| == want {
          if length > want { SyscallReadPast(c, offset + want, length - want); }
          assert got + [] == got;
        }
      }
    } else {
      var at := if InPage(offset) == 0 then offset + 512 else offset;
      var c := Spike(size, at);
      SyscallReadMisses(c, offset, length);
    }
  }

  lemma SyscallReadMisses(c: seq<Byte>, offset: nat, length: nat)
    requires offset < |c| && length > 0
    requires InPage(offset) != 0 || Min(length, |c| - offset) > 512
    requires c == Spike(|c|, if InPage(offset) == 0 then offset + 512 else offset)
    ensures SyscallRead(c, offset, length) != Wanted(c, offset, length)
  {
    hide PageOf, InPage, ReadPaged, Spike;
    var want := Min(length, 512);
    var got := ReadPaged(c, offset, want);
    var r := SyscallRead(c, offset, length);
    if InPage(offset) != 0 {
      assert got[0] == 0 && r[0] == got[0] && Wanted(c, offset, length)[0] == 1;
    } else {
      var rest := SyscallRead(c, offset + 512, length - 512);
      var second := ReadPaged(c, offset + 512, Min(length - 512, 512));
      assert InPage(offset + 512) == 512;
      assert second[0] == c[offset] && rest[0] == second[0];
      assert r == got + rest && r[512] == 0;
      assert Wanted(c, offset, length)[512] == 1;
    }
  }

  // ----- A file

  class FileNode {
    var size: nat
    var archive: Option<seq<Byte>>  // the file's bytes in the boot archive, until the first write
    var pages: seq<seq<Byte>>

    ghost predicate Valid()
      reads this
    {
      && Paged(pages) && size <= FILE_MAX
      && (archive.Some? ==> size <= |archive.value| && ZeroFrom(pages, 0))
      && (archive.None? ==> Owns(pages, size) && ZeroFrom(pages, size))
    }

    /** The flat file. */
    ghost function Contents(): (c: seq<Byte>)
      requires Valid()
      reads this
      ensures |c| == size
    {
      if archive.Some? then archive.value[..size] else PageBytes(pages, size)
    }

    /** An empty file, or one whose bytes are in the archive. */
    constructor (archive: Option<seq<Byte>>)
      requires archive.Some? ==> |archive.value| <= FILE_MAX
      ensures Valid() && Contents() == if archive.Some? then archive.value else []
    {
      this.archive := archive;
      size := if archive.Some? then |archive.value| else 0;
      pages := seq(PAGE_MAX, _ => []);
    }

    method Truncate()
      requires Valid()
      modifies this
      ensures Valid() && Contents() == []
    {
      pages := seq(PAGE_MAX, _ => []);
      archive := None;
      size := 0;
    }

    /** Gives every page up to `end` a frame; `budget` frames are left.  A failure part way
        leaves the file as it was to its readers. */
    method OwnPages(end: nat, budget: nat) returns (ok: bool)
      requires Valid() && size <= end <= FILE_MAX
      modifies this`pages
      ensures Valid() && Contents() == old(Contents())
      ensures forall i: nat :: ByteAt(pages, i) == ByteAt(old(pages), i)
      ensures ok ==> Owns(pages, end)
      ensures ok <==> HasRoom(old(pages), end, budget)
      ensures ok ==> Framed(old(pages), pages, end)
    {
      hide PageOf, InPage, ByteAt, PageBytes, Missing;
      MissingStep(pages, 0);
      var count := PagesFor(end);
      var left := budget;
      var i := 0;
      while i < count
        invariant 0 <= i <= count && Paged(pages)
        invariant forall k: nat :: ByteAt(pages, k) == ByteAt(old(pages), k)
        invariant forall k :: 0 <= k < PAGE_MAX && (|old(pages)[k]| == 4096 || k < i) ==> |pages[k]| == 4096
        invariant forall k :: i <= k < PAGE_MAX ==> pages[k] == old(pages)[k]
        invariant left == budget - Missing(old(pages), i)
      {
        MissingStep(old(pages), i);
        if pages[i] == [] {
          if left == 0 {
            SamePageBytes(pages, old(pages), size);
            MissingMore(old(pages), i + 1, count);
            return false;
          }
          left := left - 1;
          FreshPage(pages, i);
          pages := pages[i := Zeros(4096)];
        }
        i := i + 1;
      }
      SamePageBytes(pages, old(pages), size);
      ok := true;
    }

    /** `ensure_pages`: also moves the archive's bytes into the pages, invisibly. */
    method EnsurePages(end: nat, budget: nat) returns (ok: bool)
      requires Valid() && size <= end
      modifies this`pages, this`archive
      ensures Valid() && Contents() == old(Contents())
      ensures ok ==> archive.None? && Owns(pages, end)
      ensures ok <==> end <= FILE_MAX && HasRoom(old(pages), end, budget)
      ensures ok ==> Framed(old(pages), pages, end)
      ensures !ok ==> archive == old(archive)
    {
      hide PageOf, InPage, HasRoom, Framed;
      if end > FILE_MAX {
        return false;
      }
      ok := OwnPages(end, budget);
      if !ok || archive.None? {
        return;
      }
      var source := archive.value;
      var offset := 0;
      while offset < size
        invariant InPage(offset) == 0 && Paged(pages) && Owns(pages, end) && Framed(old(pages), pages, end)
        invariant forall k: nat :: ByteAt(pages, k) == if k < offset && k < size then source[k] else 0
      {
        var amount := if size - offset > 4096 then 4096 else size - offset;
        CopyChunk(pages, end, source, offset, amount, size);
        FramedPoke(old(pages), pages, end, PageOf(offset), 0, source[offset..offset + amount]);
        pages := Poke(pages, PageOf(offset), 0, source[offset..offset + amount]);
        offset := offset + 4096;
      }
      assert PageBytes(pages, size) == source[..size];
      archive := None;
    }

    /** Writes at an offset within the size limit; a gap behind the old end reads as zeros. */
    method Write(offset: nat, buf: seq<Byte>, budget: nat) returns (ok: bool)
      requires Valid() && offset <= FILE_MAX
      modifies this
      ensures Valid()
      ensures ok ==> Contents() == Splice(old(Contents()), offset, buf)
      ensures !ok ==> Contents() == old(Contents())
      ensures ok <==> |buf| <= FILE_MAX - offset && HasRoom(old(pages), Max(offset + |buf|, old(size)), budget)
      ensures ok ==> Framed(old(pages), pages, Max(offset + |buf|, old(size)))
    {
      hide Framed, PageOf, InPage, HasRoom, Splice, PageBytes, ByteAt, Zeros;
      if |buf| > FILE_MAX - offset {
        return false;
      }
      var end := offset + |buf|;
      ok := EnsurePages(if end > size then end else size, budget);
      if !ok {
        return;
      }
      ghost var base := pages;
      var done := 0;
      while done < |buf|
        invariant 0 <= done <= |buf| && Paged(pages) && Owns(pages, end) && Owns(pages, size)
        invariant archive.None? && size == old(size) && Framed(old(pages), pages, Max(end, size))
        invariant forall k: nat :: ByteAt(pages, k) == if offset <= k < offset + done then buf[k - offset]
                    else ByteAt(base, k)
      {
        var position := offset + done;
        var chunk := 4096 - InPage(position);
        if chunk > |buf| - done {
          chunk := |buf| - done;
        }
        WriteChunk(pages, base, end, size, buf, offset, done, chunk);
        FramedPoke(old(pages), pages, Max(end, size), PageOf(position), InPage(position), buf[done..done + chunk]);
        pages := Poke(pages, PageOf(position), InPage(position), buf[done..done + chunk]);
        done := done + chunk;
      }
      if end > size {
        size := end;
      }
      assert Contents() == Splice(old(Contents()), offset, buf);
    }

    /**
     The write system call: one `vfs_write` per page of the user's buffer, which starts at `ptr`
     and holds `data`.  `valid` and `mapped` are the two checks before the loop.
     */
    method HandleWrite(valid: bool, mapped: bool, writable: bool, append: bool, offset: nat, ptr: nat, data: seq<Byte>,
                       budget: nat)
      returns (r: WriteResult, next: nat)
      requires Valid() && offset <= FILE_MAX
      modifies this
      ensures Valid() && next <= FILE_MAX
      ensures r.BadHandle? <==> !valid
      ensures r.BadAddress? <==> valid && !mapped
      ensures !r.Wrote? || data == [] ==> Contents() == old(Contents())
      ensures valid && mapped && data == [] ==>
                r == Wrote(0) && next == offset && pages == old(pages) && archive == old(archive)
      ensures r.Wrote? && data != [] ==>
                var start := if append then old(size) else offset;
                && 0 < r.count <= |data| && next == start + r.count
                && Contents() == Splice(old(Contents()), start, data[..r.count])
      ensures var start := if append then old(size) else offset;
              valid && mapped && data != [] ==>
              && (r == Wrote(|data|) <==> writable && Fits(old(pages), old(size), start, |data|, budget))
              && (r.IoError? <==> !(writable && Fits(old(pages), old(size), start, Piece(ptr, 0, |data|), budget)))
              && (r.Wrote? && r.count < |data| ==>
                    (ptr + r.count) % 4096 == 0
                    && !Fits(old(pages), old(size), start, r.count + Piece(ptr, r.count, |data|), budget))
    {
      hide Fits, Splice, Piece, Paged, Owns, ZeroFrom, PageBytes;
      if !valid {
        return BadHandle, offset;
      }
      if !mapped {
        return BadAddress, offset;
      }
      if data == [] {
        return Wrote(0), offset;
      }
      var count: nat;
      ghost var start := if append then size else offset;
      ghost var pages0, size0 := pages, size;
      count, next := WritePieces(writable, append, offset, ptr, data, budget);
      if count > 0 {
        PieceLeast(ptr, count, |data|);
        FitsWhole(pages0, size0, start, Piece(ptr, 0, |data|), count, budget);
      }
      r := if count == 0 then IoError else Wrote(count);
    }

    /** The loop: whole pieces as long as they fit. */
    method WritePieces(writable: bool, append: bool, offset: nat, ptr: nat, data: seq<Byte>, budget: nat)
      returns (done: nat, next: nat)
      requires Valid() && offset <= FILE_MAX && data != []
      modifies this
      ensures Valid() && next <= FILE_MAX && done <= |data|
      ensures done == 0 ==> Contents() == old(Contents())
      ensures var start := if append then old(size) else offset;
              && (done > 0 ==> next == start + done && Contents() == Splice(old(Contents()), start, data[..done]))
              && (done == |data| <==> writable && Fits(old(pages), old(size), start, |data|, budget))
              && (done < |data| ==>
                    !(writable && Fits(old(pages), old(size), start, done + Piece(ptr, done, |data|), budget)))
      ensures 0 < done < |data| ==> (ptr + done) % 4096 == 0
      ensures done > 0 ==> writable && Fits(old(pages), old(size), if append then old(size) else offset, done, budget)
    {
      hide Fits, Piece, Sofar, Splice, Paged, Owns, ZeroFrom, PageBytes;
      ghost var start := if append then size else offset;
      ghost var c0, pages0, size0 := Contents(), pages, size;
      next, done := offset, 0;
      var left := budget;
      SofarStart(start, budget);
      while done < |data|
        invariant Valid() && 0 <= done <= |data| && next <= FILE_MAX && (append || next == start + done)
        invariant done > 0 ==> writable && next == start + done && (done == |data| || (ptr + done) % 4096 == 0)
        invariant Sofar(c0, pages0, size0, start, data[..done], budget, left)
      {
        var chunk := Piece(ptr, done, |data|);
        FitsWhole(pages0, size0, start, done + chunk, |data|, budget);
        SofarFacts(c0, pages0, size0, start, data[..done], budget, left);
        if !writable {
          return;
        }
        if append {
          next := size;
        }
        var ok;
        ok, left := WritePiece(next, data[done..done + chunk], left, c0, pages0, size0, start, data[..done], budget);
        if !ok {
          return;
        }
        assert data[..done] + data[done..done + chunk] == data[..done + chunk];
        next := next + chunk;
        done := done + chunk;
      }
      SofarFacts(c0, pages0, size0, start, data[..done], budget, left);
      assert data[..done] == data;
    }

    /** What the loop has done when the prefix `sent` is written: spliced it, and paid for the frames. */
    ghost predicate Sofar(c0: seq<Byte>, pages0: seq<seq<Byte>>, size0: nat, start: nat, sent: seq<Byte>, budget: nat,
                          left: nat)
      reads this
    {
      && Valid() && size0 <= FILE_MAX
      && if sent == [] then Contents() == c0 && pages == pages0 && size == size0 && left == budget
         else
           && Contents() == Splice(c0, start, sent) && size == Max(start + |sent|, size0)
           && Progress(pages0, pages, Max(start + |sent|, size0), budget, left)
           && Fits(pages0, size0, start, |sent|, budget)
    }

    lemma SofarStart(start: nat, budget: nat)
      requires Valid()
      ensures Sofar(Contents(), pages, size, start, [], budget, budget)
    {
    }

    lemma SofarFacts(c0: seq<Byte>, pages0: seq<seq<Byte>>, size0: nat, start: nat, sent: seq<Byte>, budget: nat,
                     left: nat)
      requires Sofar(c0, pages0, size0, start, sent, budget, left)
      ensures sent == [] ==> Contents() == c0 && size == size0
      ensures sent != [] ==> Contents() == Splice(c0, start, sent) && Fits(pages0, size0, start, |sent|, budget)
      ensures sent != [] && start == size0 ==> size == start + |sent|
      ensures sent != [] ==> start + |sent| <= FILE_MAX
    {
    }

    /** One `vfs_write` of the loop. */
    method WritePiece(offset: nat, part: seq<Byte>, budget: nat, ghost c0: seq<Byte>, ghost pages0: seq<seq<Byte>>,
                      ghost size0: nat, ghost start: nat, ghost sent: seq<Byte>, ghost total: nat)
      returns (ok: bool, left: nat)
      requires Sofar(c0, pages0, size0, start, sent, total, budget) && part != []
      requires offset == start + |sent| <= FILE_MAX
      modifies this
      ensures ok <==> Fits(pages0, size0, start, |sent| + |part|, total)
      ensures ok ==> Sofar(c0, pages0, size0, start, sent + part, total, left)
      ensures Valid() && (!ok ==> Contents() == old(Contents())) && (ok ==> offset + |part| <= FILE_MAX)
    {
      hide Framed, HasRoom, Missing, Splice, PagesFor, Fits, Progress, Paged, Owns, ZeroFrom, PageBytes;
      ghost var before := pages;
      WriteStep(pages0, pages, size0, size, start, |sent|, |part|, total, budget);
      var spend := Missing(pages, PagesFor(Max(offset + |part|, size)));
      ok := Write(offset, part, budget);
      left := budget;
      if ok {
        SpliceTwice(c0, start, sent, part);
        StepDone(pages0, before, pages, size0, start, |sent|, |part|, total, budget, spend);
        left := budget - spend;
        SpliceSize(c0, start, sent + part);
      }
    }

    /** Reads from the archive are exact; reads from pages deliver what ReadPaged says. */
    method Read(offset: nat, length: nat) returns (buf: seq<Byte>)
      requires Valid()
      ensures archive.Some? ==> buf == Wanted(Contents(), offset, length)
      ensures archive.None? ==> buf == ReadPaged(Contents(), offset, length)
    {
      hide PageOf, InPage, ReadPaged, Wanted, Owns, ZeroFrom, PageBytes, ByteAt, AtBoundary;
      buf := [];
      WantedLength(Contents(), offset, length);
      if offset >= size {
        return;
      }
      var want := if length > size - offset then size - offset else length;
      var done := 0;
      ghost var whole := if archive.Some? then Wanted(Contents(), offset, length)
        else ReadPaged(Contents(), offset, length);
      StartBoundary(offset, want);
      while done < want
        invariant 0 <= done <= want && |buf| == done && |whole| == want
        invariant buf == whole[..done]
        invariant AtBoundary(offset, done, want)
        decreases want - done
      {
        var position := offset + done;
        var chunk := 4096 - InPage(position);
        if chunk > want - done {
          chunk := want - done;
        }
        if archive.Some? {
          ArchiveChunk(archive.value, size, offset, length, done, chunk);
          buf := buf + archive.value[position..position + chunk];
        } else {
          PageOwned(pages, size, position);
          ReadChunk(pages, size, offset, length, done, chunk);
          buf := buf + pages[PageOf(position)][..chunk];
        }
        assert whole[..done + chunk] == whole[..done] + whole[done..done + chunk];
        ChunkEnds(offset, done, chunk, want);
        done := done + chunk;
      }
      assert whole[..want] == whole;
    }
  }

  // ----- The write loop

  datatype WriteResult = BadHandle | BadAddress | IoError | Wrote(count: nat)

  /** The part of the buffer from `done` on that lies in one page. */
  function Piece(ptr: nat, done: nat, length: nat): (r: nat)
    requires done <= length
    ensures r <= length - done && (done < length ==> 0 < r)
    ensures done + r == length || (ptr + done + r) % 4096 == 0
    ensures (ptr + done) % 4096 + r <= 4096
  {
    var chunk := 4096 - (ptr + done) % 4096;
    if chunk > length - done then length - done else chunk
  }

  /** A prefix that ends with a piece is no shorter than the first piece. */
  lemma PieceLeast(ptr: nat, done: nat, length: nat)
    requires 0 < done <= length && (done < length ==> (ptr + done) % 4096 == 0)
    ensures Piece(ptr, 0, length) <= done
  {
  }

  /** Writing `length` bytes at `start` stays within the size limit and the frames that are left. */
  ghost predicate Fits(pages: seq<seq<Byte>>, size: nat, start: nat, length: nat, budget: nat) {
    start + length <= FILE_MAX && HasRoom(pages, Max(start + length, size), budget)
  }

  /** Frames below `end` have been paid for out of `budget`. */
  ghost predicate Progress(a: seq<seq<Byte>>, b: seq<seq<Byte>>, end: nat, budget: nat, left: nat) {
    Framed(a, b, end) && end <= FILE_MAX && HasRoom(a, end, budget) && left == budget - Missing(a, PagesFor(end))
  }

  /** The next piece fits what is left exactly when the longer prefix fits from the start. */
  lemma WriteStep(a: seq<seq<Byte>>, b: seq<seq<Byte>>, size0: nat, size: nat, start: nat, done: nat, chunk: nat,
                  budget: nat, left: nat)
    requires done == 0 ==> a == b && left == budget && size == size0
    requires done > 0 ==> Progress(a, b, Max(start + done, size0), budget, left) && size == Max(start + done, size0)
    requires size0 <= FILE_MAX && chunk > 0
    ensures start + done + chunk <= FILE_MAX && HasRoom(b, Max(start + done + chunk, size), left) <==>
            Fits(a, size0, start, done + chunk, budget)
  {
    if done > 0 && start + done + chunk <= FILE_MAX {
      RoomInSteps(a, b, Max(start + done, size0), Max(start + done + chunk, size0), budget);
    }
  }

  lemma StepDone(a: seq<seq<Byte>>, b: seq<seq<Byte>>, c: seq<seq<Byte>>, size0: nat, start: nat, done: nat, chunk: nat,
                 budget: nat, left: nat, spend: nat)
    requires done == 0 ==> a == b && left == budget
    requires done > 0 ==> Progress(a, b, Max(start + done, size0), budget, left)
    requires Fits(a, size0, start, done + chunk, budget) && chunk > 0 && size0 <= FILE_MAX
    requires var size := if done == 0 then size0 else Max(start + done, size0);
             spend == Missing(b, PagesFor(Max(start + done + chunk, size)))
               && Framed(b, c, Max(start + done + chunk, size))
    ensures spend <= left && Progress(a, c, Max(start + done + chunk, size0), budget, left - spend)
  {
    if done > 0 {
      var e1, e2 := Max(start + done, size0), Max(start + done + chunk, size0);
      RoomInSteps(a, b, e1, e2, budget);
      FramedTwice(a, b, c, e1, e2);
    }
  }

  /** What fits as a whole fits in part. */
  lemma FitsWhole(pages: seq<seq<Byte>>, size: nat, start: nat, part: nat, whole: nat, budget: nat)
    requires part <= whole
    ensures Fits(pages, size, start, whole, budget) ==> Fits(pages, size, start, part, budget)
  {
    MissingMore(pages, PagesFor(Max(start + part, size)), PagesFor(Max(start + whole, size)));
  }

  lemma SpliceSize(c: seq<Byte>, start: nat, b: seq<Byte>)
    ensures |Splice(c, start, b)| == Max(start + |b|, |c|)
  {
  }

  lemma SpliceTwice(c: seq<Byte>, start: nat, a: seq<Byte>, b: seq<Byte>)
    ensures Splice(Splice(c, start, a), start + |a|, b) == Splice(c, start, a + b)
    ensures a == [] && |b| > 0 ==> Splice(c, start, b) == Splice(c, start, a + b)
  {
    assert a == [] ==> a + b == b;
  }

  /** How many pages `end` bytes need. */
  function PagesFor(end: nat): (r: nat)
    ensures end <= r * 4096 < end + 4096
  {
    (end + 4096 - 1) / 4096
  }

  /** How many of the first `n` pages have no frame yet. */
  function Missing(pages: seq<seq<Byte>>, n: nat): nat {
    if n == 0 then 0 else Missing(pages, n - 1) + if n <= |pages| && pages[n - 1] == [] then 1 else 0
  }

  ghost function EmptySlots(pages: seq<seq<Byte>>, n: nat): set<nat> {
    set i: nat | i < n && i < |pages| && pages[i] == []
  }

  /** That is the number of those pages. */
  lemma {:induction false} MissingCounts(pages: seq<seq<Byte>>, n: nat)
    ensures Missing(pages, n) == |EmptySlots(pages, n)|
  {
    if n == 0 {
      assert EmptySlots(pages, 0) == {};
    } else {
      MissingCounts(pages, n - 1);
      var empty := n <= |pages| && pages[n - 1] == [];
      assert EmptySlots(pages, n) == EmptySlots(pages, n - 1) + if empty then {n - 1} else {};
    }
  }

  lemma MissingStep(pages: seq<seq<Byte>>, i: nat)
    ensures Missing(pages, 0) == 0
    ensures Missing(pages, i + 1) == Missing(pages, i) + if i < |pages| && pages[i] == [] then 1 else 0
  {
  }

  lemma SamePageBytes(a: seq<seq<Byte>>, b: seq<seq<Byte>>, size: nat)
    requires forall i: nat :: ByteAt(a, i) == ByteAt(b, i)
    ensures PageBytes(a, size) == PageBytes(b, size)
  {
    hide ByteAt;
  }

  /** There are enough frames for the missing pages below `end`. */
  predicate HasRoom(pages: seq<seq<Byte>>, end: nat, budget: nat) {
    budget >= Missing(pages, PagesFor(end))
  }

  function Max(a: nat, b: nat): nat {
    if a > b then a else b
  }

  /** Pages below `end` have frames now; the others have one if they had one before. */
  ghost predicate Framed(before: seq<seq<Byte>>, after: seq<seq<Byte>>, end: nat) {
    && |before| == |after| == PAGE_MAX
    && (forall k :: 0 <= k < PAGE_MAX ==> (after[k] == [] <==> before[k] == [] && k >= PagesFor(end)))
  }

  lemma FramedPoke(before: seq<seq<Byte>>, pages: seq<seq<Byte>>, end: nat, p: nat, off: nat, data: seq<Byte>)
    requires Framed(before, pages, end) && p < |pages| && |pages[p]| == 4096 && off + |data| <= 4096
    ensures Framed(before, Poke(pages, p, off, data), end)
  {
  }

  lemma FramedTwice(a: seq<seq<Byte>>, b: seq<seq<Byte>>, c: seq<seq<Byte>>, e1: nat, e2: nat)
    requires Framed(a, b, e1) && Framed(b, c, e2) && e1 <= e2
    ensures Framed(a, c, e2)
  {
  }

  /** Frames for two extents one after the other are frames for the larger one. */
  lemma {:induction false} MissingAfter(a: seq<seq<Byte>>, b: seq<seq<Byte>>, e: nat, n: nat)
    requires Framed(a, b, e) && n <= PAGE_MAX
    ensures Missing(b, n) == if n <= PagesFor(e) then 0 else Missing(a, n) - Missing(a, PagesFor(e))
    decreases n
  {
    hide PagesFor;
    if n > 0 {
      MissingAfter(a, b, e, n - 1);
    }
  }

  lemma RoomInSteps(a: seq<seq<Byte>>, b: seq<seq<Byte>>, e1: nat, e2: nat, budget: nat)
    requires Framed(a, b, e1) && e1 <= e2 <= FILE_MAX && HasRoom(a, e1, budget)
    ensures HasRoom(b, e2, budget - Missing(a, PagesFor(e1))) <==> HasRoom(a, e2, budget)
    ensures HasRoom(b, e2, budget - Missing(a, PagesFor(e1))) ==>
              budget - Missing(a, PagesFor(e1)) - Missing(b, PagesFor(e2)) == budget - Missing(a, PagesFor(e2))
  {
    MissingAfter(a, b, e1, PagesFor(e2));
  }

  lemma {:induction false} MissingMore(pages: seq<seq<Byte>>, m: nat, n: nat)
    requires m <= n
    ensures Missing(pages, m) <= Missing(pages, n)
    decreases n
  {
    if m < n {
      MissingMore(pages, m, n - 1);
    }
  }

  lemma WantedLength(c: seq<Byte>, offset: nat, length: nat)
    ensures |Wanted(c, offset, length)| == if offset >= |c| then 0 else Min(length, |c| - offset)
  {
  }

  lemma ArchiveChunk(a: seq<Byte>, size: nat, offset: nat, length: nat, done: nat, chunk: nat)
    requires size <= |a| && offset < size && done + chunk <= Min(length, size - offset)
    ensures |Wanted(a[..size], offset, length)| == Min(length, size - offset)
    ensures a[offset + done..offset + done + chunk] == Wanted(a[..size], offset, length)[done..done + chunk]
  {
    var x := a[offset + done..offset + done + chunk];
    var w := Wanted(a[..size], offset, length);
    assert w == a[offset..offset + Min(length, size - offset)];
    var y := w[done..done + chunk];
    forall k | 0 <= k < |x| ensures x[k] == y[k] {
      assert y[k] == w[done + k] && w[done + k] == a[offset + (done + k)];
    }
  }

  /** The loop is at its start, at its end, or at the start of a later page. */
  ghost predicate AtBoundary(offset: nat, done: nat, want: nat) {
    done == 0 || done == want || (InPage(offset + done) == 0 && done >= 4096 - InPage(offset))
  }

  lemma StartBoundary(offset: nat, want: nat)
    ensures AtBoundary(offset, 0, want)
  {
  }

  /** Every chunk but the last ends at a page boundary. */
  lemma ChunkEnds(offset: nat, done: nat, chunk: nat, want: nat)
    requires done < want && chunk == Min(4096 - InPage(offset + done), want - done)
    ensures chunk > 0 && done + chunk <= want && AtBoundary(offset, done + chunk, want)
  {
    hide PageOf, InPage;
  }

  lemma FreshPage(pages: seq<seq<Byte>>, i: nat)
    requires Paged(pages) && i < PAGE_MAX && pages[i] == []
    ensures Paged(pages[i := Zeros(4096)])
    ensures forall k: nat :: ByteAt(pages[i := Zeros(4096)], k) == ByteAt(pages, k)
  {
    hide PageOf, InPage;
  }

  lemma PageOwned(pages: seq<seq<Byte>>, end: nat, position: nat)
    requires Paged(pages) && Owns(pages, end) && position < end
    ensures PageOf(position) < PAGE_MAX && |pages[PageOf(position)]| == 4096
  {
    hide PageOf, InPage;
    assert PageOf(position) * 4096 <= position;
  }

  lemma CopyChunk(pages: seq<seq<Byte>>, end: nat, source: seq<Byte>, offset: nat, amount: nat, size: nat)
    requires Paged(pages) && Owns(pages, end) && InPage(offset) == 0 && offset < size <= end && size <= |source|
    requires amount == if size - offset > 4096 then 4096 else size - offset
    requires forall k: nat :: ByteAt(pages, k) == if k < offset && k < size then source[k] else 0
    ensures PageOf(offset) < PAGE_MAX && |pages[PageOf(offset)]| == 4096
    ensures var r := Poke(pages, PageOf(offset), 0, source[offset..offset + amount]);
            && Paged(r) && Owns(r, end)
            && (forall k: nat :: ByteAt(r, k) == if k < offset + 4096 && k < size then source[k] else 0)
  {
    hide PageOf, InPage;
    PageOwned(pages, end, offset);
    assert PageOf(offset) * 4096 == offset;
    PokeBytes(pages, PageOf(offset), 0, source[offset..offset + amount]);
  }

  lemma WriteChunk(pages: seq<seq<Byte>>, base: seq<seq<Byte>>, end: nat, size: nat, buf: seq<Byte>, offset: nat,
                   done: nat, chunk: nat)
    requires Paged(pages) && Owns(pages, end) && Owns(pages, size) && end == offset + |buf| && done < |buf|
    requires chunk == Min(4096 - InPage(offset + done), |buf| - done)
    requires forall k: nat :: ByteAt(pages, k) == if offset <= k < offset + done then buf[k - offset]
               else ByteAt(base, k)
    ensures var position := offset + done;
            && PageOf(position) < PAGE_MAX && |pages[PageOf(position)]| == 4096 && InPage(position) + chunk <= 4096
            && var r := Poke(pages, PageOf(position), InPage(position), buf[done..done + chunk]);
               && Paged(r) && Owns(r, end) && Owns(r, size)
               && (forall k: nat :: ByteAt(r, k) == if offset <= k < offset + done + chunk then buf[k - offset]
                    else ByteAt(base, k))
  {
    hide PageOf, InPage;
    var position := offset + done;
    PageOwned(pages, end, position);
    assert PageOf(position) * 4096 + InPage(position) == position;
    PokeBytes(pages, PageOf(position), InPage(position), buf[done..done + chunk]);
  }

  lemma ReadChunk(pages: seq<seq<Byte>>, size: nat, offset: nat, length: nat, done: nat, chunk: nat)
    requires Paged(pages) && Owns(pages, size) && offset < size && done < Min(length, size - offset)
    requires chunk == Min(4096 - InPage(offset + done), Min(length, size - offset) - done)
    requires AtBoundary(offset, done, Min(length, size - offset))
    requires PageOf(offset + done) < PAGE_MAX && |pages[PageOf(offset + done)]| == 4096
    ensures pages[PageOf(offset + done)][..chunk] ==
              ReadPaged(PageBytes(pages, size), offset, length)[done..done + chunk]
  {
    hide PageOf, InPage, ReadPaged, AtBoundary;
    var c := PageBytes(pages, size);
    var page := PageOf(offset + done);
    var x := pages[page][..chunk];
    var y := ReadPaged(c, offset, length)[done..done + chunk];
    forall k | 0 <= k < |x| ensures x[k] == y[k] {
      OnPage(page, k);
      assert x[k] == ByteAt(pages, page * 4096 + k);
      ReadAt(c, offset, length, done, k);
    }
  }

  /** Byte `k` of a chunk comes from byte `k` of its page. */
  lemma ReadAt(c: seq<Byte>, offset: nat, length: nat, done: nat, k: nat)
    requires offset < |c| && done < Min(length, |c| - offset) && AtBoundary(offset, done, Min(length, |c| - offset))
    requires k < 4096 - InPage(offset + done) && done + k < Min(length, |c| - offset)
    ensures PageOf(offset + done) * 4096 + k < |c|
    ensures ReadPaged(c, offset, length)[done + k] == c[PageOf(offset + done) * 4096 + k]
  {
    hide PageOf, InPage;
  }

  lemma OnPage(page: nat, k: nat)
    requires k < 4096
    ensures PageOf(page * 4096 + k) == page && InPage(page * 4096 + k) == k
  {
  }
}

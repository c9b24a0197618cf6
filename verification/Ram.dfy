/**
 Physical memory and the page allocator of kernel/mm/mm.c.

 Addresses are counted in pages: page number p stands for physical address
 4096 * p, and 0 is the null address.  A page holds 512 words.
 */
module Ram {

  /** A 64-bit word, split along the fields of a page-table entry (section 4.5 of the Intel
      SDM, volume 3A): bits 0, 1, 2 and 7, the page number in bits 12 to 51, and the rest. */
  datatype Word = Word(page: nat, present: bool, write: bool, user: bool, huge: bool, rest: nat)

  const ZERO: Word := Word(0, false, false, false, false, 0)

  type Page = seq<Word>

  const PAGE_WORDS: nat := 512

  function ZeroPage(): (p: Page)
    ensures |p| == PAGE_WORDS && forall i :: 0 <= i < PAGE_WORDS ==> p[i] == ZERO
  {
    seq(PAGE_WORDS, _ => ZERO)
  }

  /** A boot-loader memory map entry, in pages. */
  datatype Region = Region(usable: bool, base: nat, pages: nat)

  ghost function RegionPages(r: Region): set<nat> {
    if r.usable then Interval(r.base, r.base + r.pages) else {}
  }

  /** What the Limine protocol promises: usable entries are disjoint and never hold page 0. */
  ghost predicate LimineMap(memmap: seq<Region>) {
    && (forall i, j :: 0 <= i < j < |memmap| ==> RegionPages(memmap[i]) !! RegionPages(memmap[j]))
    && (forall i :: 0 <= i < |memmap| && memmap[i].usable ==> memmap[i].base > 0)
  }

  /** Pages of the entries from index `i` on. */
  ghost function Ahead(memmap: seq<Region>, i: nat): set<nat> {
    set k, p | i <= k < |memmap| && p in RegionPages(memmap[k]) :: p
  }

  ghost function Interval(lo: nat, hi: nat): (s: set<nat>)
    ensures forall p: nat :: p in s <==> lo <= p < hi
    decreases hi - lo
  {
    if lo >= hi then {} else {lo} + Interval(lo + 1, hi)
  }

  ghost predicate Sized(mem: map<nat, Page>) {
    forall p :: p in mem ==> |mem[p]| == PAGE_WORDS
  }

  /** The free list is threaded through the first word of each free page. */
  ghost predicate Threaded(mem: map<nat, Page>, head: nat, list: seq<nat>)
    requires Sized(mem)
  {
    && (forall i :: 0 <= i < |list| ==> list[i] in mem && list[i] != 0)
    && (forall i, j :: 0 <= i < j < |list| ==> list[i] != list[j])
    && head == (if list == [] then 0 else list[0])
    && (forall i :: 0 <= i < |list| ==> Link(mem, list[i]) == After(list, i))
  }

  function After(list: seq<nat>, i: nat): nat
    requires i < |list|
  {
    if i + 1 < |list| then list[i + 1] else 0
  }

  function Link(mem: map<nat, Page>, p: nat): nat
    requires Sized(mem)
  {
    if p in mem then mem[p][0].page else 0
  }

  ghost function Elements(list: seq<nat>): set<nat> {
    set p | p in list
  }

  class Ram {
    var mem: map<nat, Page>
    var freeHead: nat
    var regionIndex: nat
    var nextPage: nat
    var regionEnd: nat
    const memmap: seq<Region>
    ghost var freeList: seq<nat>

    /** Pages never handed out yet. */
    ghost function Untouched(): set<nat>
      reads this
    {
      Interval(nextPage, regionEnd) + Ahead(memmap, regionIndex)
    }

    /** Everything the allocator can still hand out. */
    ghost function Pool(): set<nat>
      reads this
    {
      Elements(freeList) + Untouched()
    }

    ghost predicate Valid()
      reads this
    {
      && LimineMap(memmap) && regionIndex <= |memmap|
      && Sized(mem) && Threaded(mem, freeHead, freeList)
      && (nextPage == 0 ==> regionEnd == 0)
      && Interval(nextPage, regionEnd) !! Ahead(memmap, regionIndex)
      && Elements(freeList) !! Untouched()
      && Untouched() <= mem.Keys && 0 !in Untouched()
    }

    constructor (memmap: seq<Region>, mem: map<nat, Page>)
      requires LimineMap(memmap) && Sized(mem)
      requires Ahead(memmap, 0) <= mem.Keys
      ensures Valid() && Pool() == Ahead(memmap, 0) && this.mem == mem
    {
      this.memmap := memmap;
      this.mem := mem;
      regionIndex, nextPage, regionEnd, freeHead := 0, 0, 0, 0;
      freeList := [];
    }

    /** Moves on to the next usable entry with at least one page, if any. */
    method NextRegion()
      requires Valid() && Interval(nextPage, regionEnd) == {}
      modifies this`regionIndex, this`nextPage, this`regionEnd
      ensures Valid() && Pool() == old(Pool())
      ensures Interval(nextPage, regionEnd) == {} ==> Ahead(memmap, regionIndex) == {}
      ensures regionIndex > old(regionIndex) || Interval(nextPage, regionEnd) == {}
    {
      hide Threaded, Link;
      while regionIndex < |memmap|
        invariant Valid() && Pool() == old(Pool()) && Interval(nextPage, regionEnd) == {}
        invariant regionIndex >= old(regionIndex)
      {
        var e := memmap[regionIndex];
        AheadStep(memmap, regionIndex);
        regionIndex := regionIndex + 1;
        if !e.usable || e.pages < 1 {
          assert RegionPages(e) == {};
          continue;
        }
        nextPage := e.base;
        regionEnd := e.base + e.pages;
        assert Interval(nextPage, regionEnd) == RegionPages(e);
        assert e.base in Interval(nextPage, regionEnd);
        break;
      }
    }

    /** Hands out a zeroed page of the pool; 0 only when the pool is empty. */
    method AllocPage() returns (page: nat)
      requires Valid()
      modifies this
      ensures Valid()
      ensures page == 0 <==> old(Pool()) == {}
      ensures page == 0 ==> Pool() == {} && mem == old(mem)
      ensures page != 0 ==> page in old(Pool()) && Pool() == old(Pool()) - {page}
      ensures page != 0 ==> page in old(mem) && mem == old(mem)[page := ZeroPage()]
    {
      if freeHead != 0 {
        page := freeHead;
        assert page == freeList[0];
        PopFree(mem, freeList);
        freeHead := mem[page][0].page;
        freeList := freeList[1..];
        mem := mem[page := ZeroPage()];
      } else {
        page := FreshPage();
      }
    }

    /** The allocator's second source: the next page of the current memory map entry. */
    method FreshPage() returns (page: nat)
      requires Valid() && freeHead == 0
      modifies this
      ensures Valid()
      ensures page == 0 <==> old(Pool()) == {}
      ensures page == 0 ==> Pool() == {} && mem == old(mem)
      ensures page != 0 ==> page in old(Pool()) && Pool() == old(Pool()) - {page}
      ensures page != 0 ==> page in old(mem) && mem == old(mem)[page := ZeroPage()]
    {
      hide LimineMap, Threaded, Ahead;
      assert freeList == [] by { EmptyList(mem, freeList); }
      while true
        invariant Valid() && Pool() == old(Pool()) && freeHead == 0 && mem == old(mem) && freeList == []
        decreases |memmap| - regionIndex
      {
        if nextPage != 0 && nextPage + 1 <= regionEnd {
          page := nextPage;
          assert Interval(page, regionEnd) == {page} + Interval(page + 1, regionEnd);
          nextPage := nextPage + 1;
          mem := mem[page := ZeroPage()];
          EmptyThreaded(mem);
          return;
        }
        assert Interval(nextPage, regionEnd) == {};
        NextRegion();
        if nextPage == 0 || nextPage + 1 > regionEnd {
          assert Interval(nextPage, regionEnd) == {};
          return 0;
        }
      }
    }

    /** Stores a word into a page that is in use. */
    method Write(page: nat, index: nat, w: Word)
      requires Valid() && page in mem && page !in Pool() && index < PAGE_WORDS
      modifies this`mem
      ensures Valid() && mem == old(mem)[page := old(mem)[page][index := w]] && Pool() == old(Pool())
    {
      WriteThreaded(mem, freeHead, freeList, page, index, w);
      mem := mem[page := mem[page][index := w]];
    }

    /** memcpy of one page onto another that is in use. */
    method CopyPage(to: nat, from: nat)
      requires Valid() && to in mem && from in mem && to !in Pool()
      modifies this`mem
      ensures Valid() && mem == old(mem)[to := old(mem)[from]] && Pool() == old(Pool())
    {
      CopyThreaded(mem, freeHead, freeList, to, mem[from]);
      mem := mem[to := mem[from]];
    }

    /** Returns a page to the pool; its first word becomes the link of the free list. */
    method FreePage(page: nat)
      requires Valid() && (page != 0 ==> page in mem && page !in Pool())
      modifies this
      ensures Valid()
      ensures page == 0 ==> Pool() == old(Pool()) && mem == old(mem)
      ensures page != 0 ==> Pool() == old(Pool()) + {page} && mem.Keys == old(mem.Keys)
      ensures forall p :: p in mem && p != page ==> mem[p] == old(mem)[p]
    {
      if page == 0 {
        return;
      }
      PushFree(mem, freeHead, freeList, page);
      mem := mem[page := mem[page][0 := ZERO.(page := freeHead)]];
      freeHead := page;
      freeList := [page] + freeList;
    }
  }

  lemma AheadStep(memmap: seq<Region>, i: nat)
    requires i < |memmap| && LimineMap(memmap)
    ensures Ahead(memmap, i) == RegionPages(memmap[i]) + Ahead(memmap, i + 1)
    ensures RegionPages(memmap[i]) !! Ahead(memmap, i + 1)
  {
    assert RegionPages(memmap[i]) <= Ahead(memmap, i);
  }

  lemma EmptyList(mem: map<nat, Page>, list: seq<nat>)
    requires Sized(mem) && Threaded(mem, 0, list)
    ensures list == []
  {
  }

  lemma EmptyThreaded(mem: map<nat, Page>)
    requires Sized(mem)
    ensures Threaded(mem, 0, [])
  {
  }

  lemma CopyThreaded(mem: map<nat, Page>, head: nat, list: seq<nat>, to: nat, data: Page)
    requires Sized(mem) && Threaded(mem, head, list) && to in mem && to !in list && |data| == PAGE_WORDS
    ensures Sized(mem[to := data]) && Threaded(mem[to := data], head, list)
  {
    forall i | 0 <= i < |list| ensures Link(mem[to := data], list[i]) == After(list, i) {
      assert Link(mem, list[i]) == After(list, i);
    }
  }

  lemma WriteThreaded(mem: map<nat, Page>, head: nat, list: seq<nat>, page: nat, index: nat, w: Word)
    requires Sized(mem) && Threaded(mem, head, list) && page in mem && page !in list && index < PAGE_WORDS
    ensures Sized(mem[page := mem[page][index := w]])
    ensures Threaded(mem[page := mem[page][index := w]], head, list)
  {
    var mem' := mem[page := mem[page][index := w]];
    forall i | 0 <= i < |list| ensures Link(mem', list[i]) == After(list, i) {
      assert Link(mem, list[i]) == After(list, i);
    }
  }

  /** Taking the head off the list. */
  lemma PopFree(mem: map<nat, Page>, list: seq<nat>)
    requires Sized(mem) && list != [] && Threaded(mem, list[0], list)
    ensures Elements(list[1..]) == Elements(list) - {list[0]} && list[0] in Elements(list)
    ensures Sized(mem[list[0] := ZeroPage()])
    ensures Threaded(mem[list[0] := ZeroPage()], Link(mem, list[0]), list[1..])
  {
    var rest := list[1..];
    assert list == [list[0]] + rest;
    assert forall i :: 0 <= i < |rest| ==> rest[i] == list[i + 1];
    assert Link(mem, list[0]) == After(list, 0);
    forall i | 0 <= i < |rest| ensures Link(mem[list[0] := ZeroPage()], rest[i]) == After(rest, i) {
      assert Link(mem, list[i + 1]) == After(list, i + 1);
    }
  }

  /** Writing a link into `page` and putting it in front. */
  lemma PushFree(mem: map<nat, Page>, head: nat, list: seq<nat>, page: nat)
    requires Sized(mem) && Threaded(mem, head, list) && page in mem && page != 0 && page !in list
    ensures var mem' := mem[page := mem[page][0 := ZERO.(page := head)]];
            Sized(mem') && Threaded(mem', page, [page] + list)
    ensures Elements([page] + list) == Elements(list) + {page}
  {
    PushElements(list, page);
    hide Elements;
    var mem' := mem[page := mem[page][0 := ZERO.(page := head)]];
    var more := [page] + list;
    forall i | 0 <= i < |more| ensures Link(mem', more[i]) == After(more, i) {
      if i > 0 {
        assert Link(mem, list[i - 1]) == After(list, i - 1);
      }
    }
  }

  lemma PushElements(list: seq<nat>, page: nat)
    ensures Elements([page] + list) == Elements(list) + {page}
  {
  }
}

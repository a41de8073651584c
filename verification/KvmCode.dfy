/** The functions of kernel/mm/kvm.c that map pages, statement by statement. */
module KvmCode {
  import opened Words
  import opened Bits
  import opened Layout
  import opened Pages
  import opened Paging
  import opened Kvm

  /** `memset(page, 0, MM_PGSIZE)`, a word at a time */
  method ClearPage(m: Ram, page: Word)
    requires PageAligned(page)
    modifies m
    ensures m.cells == ZeroPage(old(m.cells), page)
  {
    ghost var w := m.cells;
    var i := 0;
    while i < 1024
      invariant 0 <= i <= 1024
      invariant forall x: Word :: m.cells[x] == if PageOf(x) == page && x % 4 == 0 && x < page + 4 * i then 0 else w[x]
    {
      EntryCell(page, i);
      m.Store(EntryAt(page, i), 0);
      WordsBelow(page, i);
      i := i + 1;
    }
    PageTop(page);
    assert forall x :: 0 <= x < SPACE ==> m.cells[x] == ZeroPage(w, page)[x];
  }

  lemma WordsBelow(page: Word, i: nat)
    requires PageAligned(page) && i < 1024
    ensures forall x: Word :: x % 4 == 0 && x < page + 4 * (i + 1) ==> x < page + 4 * i || x == page + 4 * i
  {
    Quad(page, i);
  }

  lemma PageTop(page: Word)
    requires PageAligned(page)
    ensures forall x: Word :: PageOf(x) == page ==> x < page + 4096
  {
  }

  /** The slot of va has the present bit already, or there is a page to make a table of. */
  ghost predicate SlotServed(w: Image, h: Word, q: seq<Word>, d: Word, va: Word) {
    Present(Pde(w, d, PdIndex(va))) || (Pool(w, h, q) && q != [])
  }

  /** `vm_map_page_` */
  method VmMapPage(m: Ram, h: Word, d: Word, va: Word, pa: Word, permissions: Word, ghost q: seq<Word>)
    returns (r: int)
    requires SlotServed(m.cells, h, q, d, va) && PageAligned(d)
    requires PageAligned(va) && PageAligned(pa)
    modifies m
    ensures m.cells == MapPage(old(m.cells), h, d, va, pa, permissions)
    ensures r == 0
  {
    hide Pool;
    assert PageAligned(va) && PageAligned(pa);
    ghost var w := m.cells;
    MapPagePlace(w, h, q, d, va);
    var tableIndex, pageIndex := PtIndex(va), PdIndex(va);
    var dirEntry := EntryAt(d, pageIndex);
    var entry := m.Load(dirEntry);
    if And(entry, PRESENT) == 0 {
      var page := Kpalloc(m, h, q);
      assert page != 0 && PageAligned(page);
      ClearPage(m, page);
      m.Store(dirEntry, TableEntry(page));
    }
    entry := m.Load(dirEntry);
    var table := Virt(PteAddr(entry));
    m.Store(EntryAt(table, tableIndex), PageEntry(pa, permissions));
    return 0;
  }

  /** The cells `vm_map_page_` works on are word-aligned, and the allocator can serve it. */
  lemma MapPagePlace(w: Image, h: Word, q: seq<Word>, d: Word, va: Word)
    requires SlotServed(w, h, q, d, va) && PageAligned(d)
    ensures EntryAt(d, PdIndex(va)) % 4 == 0
    ensures And(Pde(w, d, PdIndex(va)), PRESENT) == 0 ==> q != [] && Pool(w, h, q) && IsPage(q[0])
    ensures var w1 := EnsureTable(w, h, d, PdIndex(va));
      EntryAt(Virt(PteAddr(Pde(w1, d, PdIndex(va)))), PtIndex(va)) % 4 == 0
  {
    var w1 := EnsureTable(w, h, d, PdIndex(va));
    AndOne(Pde(w, d, PdIndex(va)));
    EntryCell(d, PdIndex(va));
    TableAligned(w1, d, PdIndex(va));
    EntryCell(TableOf(w1, d, PdIndex(va)), PtIndex(va));
    if q != [] { assert q[0] in q; }
  }

  /** Every page of the range finds its slot served when its turn comes. */
  ghost predicate Served(w: Image, h: Word, q: seq<Word>, d: Word, curr: Word, last: Word, pa: Word, permissions: Word)
    requires PageAligned(curr) && PageAligned(last)
    decreases last - curr
  {
    curr >= last || (
      NextPage(curr, last);
      && SlotServed(w, h, q, d, curr)
      && Served(MapPage(w, h, d, curr, pa, permissions), h, Remaining(w, q, d, PdIndex(curr)),
                d, curr + PAGE_SIZE, last, Plus(pa, PAGE_SIZE), permissions))
  }

  /** A range that ownership makes ready is served. */
  lemma {:induction false} ReadyServed(w: Image, h: Word, q: seq<Word>, spaces: Spaces, d: Word, curr: Word, last: Word,
                                      pa: Word, permissions: Word)
    requires Ready(w, h, q, spaces, d, curr, last)
    ensures PageAligned(curr) && PageAligned(last)
    ensures Served(w, h, q, d, curr, last, pa, permissions)
    decreases last - curr
  {
    hide Owned, Ready, MapPage, Pool;
    ReadyAligned(w, h, q, spaces, d, curr, last);
    if curr < last {
      var w', r := MapPage(w, h, d, curr, pa, permissions), Remaining(w, q, d, PdIndex(curr));
      RangeTurn(w, h, q, spaces, d, curr, last, pa, permissions);
      OwnedPool(w, h, q, spaces);
      ReadyServed(w', h, r, spaces, d, curr + PAGE_SIZE, last, Plus(pa, PAGE_SIZE), permissions);
    }
  }

  lemma OwnedPool(w: Image, h: Word, q: seq<Word>, spaces: Spaces)
    requires Owned(w, h, q, spaces)
    ensures Pool(w, h, q)
  {
    hide Pool;
  }

  /** Where the mapped pages start and end. */
  function FirstPageOf(vaddr: Word): (r: Word)
    ensures PageAligned(r) && r == vaddr - vaddr % 0x1000
  {
    PageDown(vaddr)
  }

  function EndPageOf(vaddr: Word, size: Word): (r: Word)
    ensures PageAligned(r)
    ensures var end := (vaddr + size) % 0x1_0000_0000;
      r == if end % 0x1000 == 0 then end else if end < 0xFFFF_F000 then end - end % 0x1000 + 0x1000 else 0
  {
    WrapAround(vaddr, size);
    PageUp(Plus(vaddr, size))
  }

  lemma {:induction false} PageCount(first: Word, last: Word)
    requires PageAligned(first) && PageAligned(last)
    ensures |PagesFrom(first, last)| == if first < last then (last - first) / 0x1000 else 0
    decreases last - first
  {
    if first < last {
      NextPage(first, last);
      PageCount(first + PAGE_SIZE, last);
    }
  }

  /** How many pages that is. */
  lemma RangeCount(vaddr: Word, size: Word)
    ensures var first, end := vaddr - vaddr % 0x1000, (vaddr + size) % 0x1_0000_0000;
      |PagesFrom(FirstPageOf(vaddr), EndPageOf(vaddr, size))|
      == if first < end <= 0xFFFF_F000 then (end - first + 0xFFF) / 0x1000 else 0
  {
    hide PagesFrom, FirstPageOf, EndPageOf;
    PageCount(FirstPageOf(vaddr), EndPageOf(vaddr, size));
    var first, end := vaddr - vaddr % 0x1000, (vaddr + size) % 0x1_0000_0000;
    CeilPages(first, end);
  }

  lemma CeilPages(first: int, end: int)
    requires first % 0x1000 == 0 && end >= 0
    ensures first < end && end % 0x1000 == 0 ==> (end - first) / 0x1000 == (end - first + 0xFFF) / 0x1000
    ensures first < end && end % 0x1000 != 0 ==>
              first < end - end % 0x1000 + 0x1000
              && (end - end % 0x1000 + 0x1000 - first) / 0x1000 == (end - first + 0xFFF) / 0x1000
    ensures first >= end && end % 0x1000 != 0 ==> end - end % 0x1000 + 0x1000 <= first
  {
    var p, q := first / 0x1000, end / 0x1000;
    assert first == p * 0x1000 && end == q * 0x1000 + end % 0x1000;
  }

  lemma LoopTurn(w: Image, h: Word, q: seq<Word>, d: Word, curr: Word, last: Word, pa: Word, permissions: Word)
    requires PageAligned(curr) && PageAligned(last) && Served(w, h, q, d, curr, last, pa, permissions)
    requires curr < last && PageAligned(pa)
    ensures curr + PAGE_SIZE <= last && PageAligned(curr + PAGE_SIZE) && PageAligned(Plus(pa, PAGE_SIZE))
    ensures SlotServed(w, h, q, d, curr)
    ensures var w', next := MapPage(w, h, d, curr, pa, permissions), curr + PAGE_SIZE;
      && Served(w', h, Remaining(w, q, d, PdIndex(curr)), d, next, last, Plus(pa, PAGE_SIZE), permissions)
      && MapRange(w, h, d, curr, last, pa, permissions)
         == MapRange(w', h, d, next, last, Plus(pa, PAGE_SIZE), permissions)
    ensures |PagesFrom(curr, last)| == 1 + |PagesFrom(curr + PAGE_SIZE, last)|
  {
    hide MapPage, SlotServed, Remaining;
    NextPage(curr, last);
    FrameStep(curr, pa, curr);
  }

  lemma LoopDone(w: Image, h: Word, d: Word, curr: Word, last: Word, pa: Word, permissions: Word)
    requires PageAligned(curr) && PageAligned(last) && curr >= last
    ensures MapRange(w, h, d, curr, last, pa, permissions) == w && PagesFrom(curr, last) == []
  {
  }

  /** `vm_map_pages` */
  method VmMapPages(m: Ram, h: Word, d: Word, vaddr: Word, paddr: Word, size: Word, permissions: Word,
                    ghost q: seq<Word>) returns (totalMaps: int)
    requires Served(m.cells, h, q, d, FirstPageOf(vaddr), EndPageOf(vaddr, size), paddr, permissions)
    requires PageAligned(d) && PageAligned(paddr)
    modifies m
    ensures m.cells == MapRange(old(m.cells), h, d, FirstPageOf(vaddr), EndPageOf(vaddr, size), paddr, permissions)
    ensures var first, end := vaddr - vaddr % 0x1000, (vaddr + size) % 0x1_0000_0000;
      totalMaps == if first < end <= 0xFFFF_F000 then (end - first + 0xFFF) / 0x1000 else 0
  {
    hide Served, SlotServed, MapRange, MapPage, PagesFrom, FirstPageOf, EndPageOf, Remaining;
    totalMaps := 0;
    var first, last := FirstPageOf(vaddr), EndPageOf(vaddr, size);
    var curr: Word, pa: Word := first, paddr;
    ghost var free := q;
    while curr < last
      invariant PageAligned(pa) && PageAligned(curr) && Served(m.cells, h, free, d, curr, last, pa, permissions)
      invariant MapRange(old(m.cells), h, d, first, last, paddr, permissions)
                == MapRange(m.cells, h, d, curr, last, pa, permissions)
      invariant totalMaps + |PagesFrom(curr, last)| == |PagesFrom(first, last)|
      decreases last - curr
    {
      ghost var w := m.cells;
      LoopTurn(w, h, free, d, curr, last, pa, permissions);
      var r := VmMapPage(m, h, d, curr, pa, permissions, free);
      free := Remaining(w, free, d, PdIndex(curr));
      if r != 0 {
        break;
      }
      totalMaps := totalMaps + 1;
      curr, pa := curr + PAGE_SIZE, Plus(pa, PAGE_SIZE);
    }
    LoopDone(m.cells, h, d, curr, last, pa, permissions);
    RangeCount(vaddr, size);
  }
}

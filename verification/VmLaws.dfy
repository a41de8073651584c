/** What `vm_map_pages` promises: a range update of the processor's walk. */
module VmLaws {
  import opened Words
  import opened Bits
  import opened Layout
  import opened Pages
  import opened Paging
  import opened Kvm
  import opened KvmCode

  /** Memory after `vm_map_pages`. */
  function VmMap(w: Image, h: Word, d: Word, vaddr: Word, paddr: Word, size: Word, permissions: Word): Image {
    MapRange(w, h, d, FirstPageOf(vaddr), EndPageOf(vaddr, size), paddr, permissions)
  }

  ghost predicate VmReady(w: Image, h: Word, q: seq<Word>, spaces: Spaces, d: Word, vaddr: Word, size: Word) {
    Ready(w, h, q, spaces, d, FirstPageOf(vaddr), EndPageOf(vaddr, size))
  }

  /** Every address x of every directory: inside the mapped pages of d it now reaches the frame the
      same distance past paddr, with the given permissions; everywhere else it is translated as before. */
  lemma VmMapIsRangeUpdate(w: Image, h: Word, q: seq<Word>, spaces: Spaces, d: Word, vaddr: Word, paddr: Word,
                           size: Word, permissions: Word, e: Word, x: Word)
    requires VmReady(w, h, q, spaces, d, vaddr, size) && PageAligned(paddr) && permissions < PAGE_SIZE
    requires e in spaces && PdIndex(x) in spaces[e]
    ensures var w' := VmMap(w, h, d, vaddr, paddr, size, permissions);
      var first, last := FirstPageOf(vaddr), EndPageOf(vaddr, size);
      Walk(w', Phys(e), x)
      == if e == d && first <= x < last
         then Maps(Plus(paddr, x - first), permissions + 1 - permissions % 2,
                   Writable(SlotFlags(w, d, PdIndex(x))) && Writable(permissions),
                   User(SlotFlags(w, d, PdIndex(x))) && User(permissions))
         else Walk(w, Phys(e), x)
  {
    hide Owned, Ready, Walk, Translate, MapRange, FirstPageOf, EndPageOf, SlotFlags;
    var first, last := FirstPageOf(vaddr), EndPageOf(vaddr, size);
    MapRangeTranslate(w, h, q, spaces, d, first, last, paddr, permissions, e, x);
    ReadyDirectory(w, h, q, spaces, d, first, last, e);
    WalkIs(w, e, x);
    WalkIs(VmMap(w, h, d, vaddr, paddr, size, permissions), e, x);
    InRange(first, last, x);
    if e == d && first <= x < last {
      FrameOffset(first, paddr, x);
    }
  }

  /** The same in plain numbers. The pages mapped are those from the one vaddr lies in to the one the
      last byte of the request lies in; no page at all if the end of the request runs into the last
      page of the address space, and what is left of it if the end wraps around. */
  lemma VmMapPlain(w: Image, h: Word, q: seq<Word>, spaces: Spaces, d: Word, vaddr: Word, paddr: Word,
                   size: Word, permissions: Word, e: Word, x: Word)
    requires VmReady(w, h, q, spaces, d, vaddr, size) && paddr % 0x1000 == 0 && permissions < 0x1000
    requires e in spaces && x / 0x40_0000 in spaces[e]
    ensures var w', rights := VmMap(w, h, d, vaddr, paddr, size, permissions), SlotFlags(w, d, x / 0x40_0000);
      var first, end := vaddr - vaddr % 0x1000, (vaddr + size) % 0x1_0000_0000;
      Walk(w', (e - 0x8000_0000) % 0x1_0000_0000, x)
      == if e == d && first <= x && x - x % 0x1000 < end <= 0xFFFF_F000
         then Maps((paddr + (x - first)) % 0x1_0000_0000, permissions + 1 - permissions % 2,
                   Bit(rights, 1) && Bit(permissions, 1), Bit(rights, 2) && Bit(permissions, 2))
         else Walk(w, (e - 0x8000_0000) % 0x1_0000_0000, x)
  {
    hide Owned, Ready, Walk, MapRange, FirstPageOf, EndPageOf, SlotFlags, Writable, User, Bit, VmMap;
    VmMapIsRangeUpdate(w, h, q, spaces, d, vaddr, paddr, size, permissions, e, x);
    DirectMap(e);
    EntryBits(SlotFlags(w, d, x / 0x40_0000));
    EntryBits(permissions);
    MappedPages(vaddr, size, x);
    if vaddr - vaddr % 0x1000 <= x { WrapAround(paddr, x - (vaddr - vaddr % 0x1000)); }
  }

  lemma MappedPages(vaddr: Word, size: Word, x: Word)
    ensures var first, end := vaddr - vaddr % 0x1000, (vaddr + size) % 0x1_0000_0000;
      FirstPageOf(vaddr) <= x < EndPageOf(vaddr, size) <==> first <= x && x - x % 0x1000 < end <= 0xFFFF_F000
  {
    hide FirstPageOf, EndPageOf;
    var end := (vaddr + size) % 0x1_0000_0000;
    BeforeEnd(x, end);
    InRange(FirstPageOf(vaddr), EndPageOf(vaddr, size), x);
  }

  lemma BeforeEnd(x: int, end: int)
    requires x >= 0 && end >= 0
    ensures end % 0x1000 == 0 ==> (x < end <==> x - x % 0x1000 < end)
    ensures end % 0x1000 != 0 ==> (x < end - end % 0x1000 + 0x1000 <==> x - x % 0x1000 < end)
  {
    var p, q := x / 0x1000, end / 0x1000;
    assert x == p * 0x1000 + x % 0x1000 && end == q * 0x1000 + end % 0x1000;
  }

  lemma ReadyDirectory(w: Image, h: Word, q: seq<Word>, spaces: Spaces, d: Word, first: Word, last: Word, e: Word)
    requires Ready(w, h, q, spaces, d, first, last) && e in spaces
    ensures PageAligned(e) && Owned(w, h, q, spaces)
  {
  }

  lemma InRange(first: Word, last: Word, x: Word)
    requires PageAligned(first) && PageAligned(last)
    ensures first <= PageOf(x) < last <==> first <= x < last
  {
    if PageOf(x) != first { PagesApart(PageOf(x), first); }
    if PageOf(x) != last { PagesApart(PageOf(x), last); }
  }

  lemma FrameOffset(first: Word, paddr: Word, x: Word)
    requires PageAligned(first) && PageAligned(paddr) && first <= PageOf(x) && first <= x
    ensures PageAligned(FrameFor(first, paddr, PageOf(x)))
    ensures FrameFor(first, paddr, PageOf(x)) + x % PAGE_SIZE == Plus(paddr, x - first)
  {
    FrameStep(first, paddr, PageOf(x));
    InPage(FrameFor(first, paddr, PageOf(x)), x % PAGE_SIZE);
  }

  predicate Reached(vaddr: Word, size: Word, x: Word) {
    FirstPageOf(vaddr) <= x < EndPageOf(vaddr, size)
  }

  /** The pages that get mapped cover the whole request exactly when the request does not run into
      the last page of the address space, where rounding its end up wraps to 0. */
  lemma CoversRequest(vaddr: Word, size: Word)
    ensures (forall x: Word :: vaddr <= x < vaddr + size ==> Reached(vaddr, size, x))
       <==> size == 0 || vaddr + size <= SPACE - PAGE_SIZE
  {
    if size > 0 && vaddr + size > SPACE - PAGE_SIZE {
      var x: Word := if vaddr + size < SPACE then vaddr else SPACE - 1;
      assert vaddr <= x < vaddr + size && !Reached(vaddr, size, x);
    }
  }

  /** A permission word leaves every frame address intact exactly when it is below 4096. */
  lemma PermissionsFit(permissions: Word)
    ensures (forall pa: Word :: PageAligned(pa) ==> PteAddr(PageEntry(pa, permissions)) == pa)
            <==> permissions < PAGE_SIZE
  {
    if permissions < PAGE_SIZE {
      forall pa: Word | PageAligned(pa) ensures PteAddr(PageEntry(pa, permissions)) == pa {
        PageEntryIs(pa, permissions);
        InPage(pa, permissions + 1 - permissions % 2);
      }
    } else {
      OrOne(permissions);
      var e := PageEntry(0, permissions);
      assert e == permissions + 1 - permissions % 2;
      assert PageAligned(0) && PteAddr(e) != 0;
    }
  }

  // ---------------------------------------------------------------------------------------------
  // 4 MB pages
  // ---------------------------------------------------------------------------------------------

  lemma PageEntryPresent(pa: Word, permissions: Word)
    ensures Present(PageEntry(pa, permissions))
  {
    hide Or;
    OrOne(Or32(pa, permissions));
  }

  /** The word `vm_map_page_` writes lies in the page that a present slot names, whatever that page is. */
  function Target(w: Image, d: Word, va: Word): Word { EntryAt(TableOf(w, d, PdIndex(va)), PtIndex(va)) }

  lemma PresentWrite(w: Image, h: Word, d: Word, va: Word, pa: Word, permissions: Word)
    requires Present(Pde(w, d, PdIndex(va)))
    ensures MapPage(w, h, d, va, pa, permissions) == w[Target(w, d, va) := PageEntry(pa, permissions)]
    ensures Present(Pde(MapPage(w, h, d, va, pa, permissions), d, PdIndex(va)))
  {
    hide PageEntry;
    AndOne(Pde(w, d, PdIndex(va)));
    TableAligned(w, d, PdIndex(va));
    PageEntryPresent(pa, permissions);
  }

  /** `vm_map_page_` does not look for 4 MB pages. In a slot that holds one it takes the page's
      address for a table's and writes there. Unless that happens to be the slot itself, every address
      of the slot stays translated by the 4 MB page; if it is, the slot now holds the new entry. */
  lemma BigPageShadows(w: Image, h: Word, d: Word, va: Word, pa: Word, permissions: Word, x: Word)
    requires Present(Pde(w, d, PdIndex(va))) && Big(Pde(w, d, PdIndex(va))) && PageAligned(d)
    requires PdIndex(x) == PdIndex(va)
    ensures var w', e := MapPage(w, h, d, va, pa, permissions), PageEntry(pa, permissions);
      && w' == w[Target(w, d, va) := e]
      && Walk(w', Phys(d), x)
         == if Target(w, d, va) != EntryAt(d, PdIndex(va)) then BigPage(Pde(w, d, PdIndex(va)), x)
            else if Big(e) then BigPage(e, x) else SmallPage(e, TableWord(w', d, x), x)
  {
    hide Walk, PageEntry, Target, TableWord;
    PresentWrite(w, h, d, va, pa, permissions);
    WalkIs(MapPage(w, h, d, va, pa, permissions), d, x);
  }

  /** A 4 MB entry that happens to send page va to frame pa with just the rights asked for. */
  predicate AlreadyMaps(pde: Word, va: Word, pa: Word, permissions: Word) {
    && pde / 0x2000 % 0x200 == 0 && pde - pde % 0x40_0000 + va % 0x40_0000 == pa
    && pde % PAGE_SIZE == permissions + 1 - permissions % 2
  }

  /** When mapping a page works: its slot does not hold a 4 MB page; or holds one that says the same
      already; or one that `vm_map_page_` overwrites, taking the slot for the page's own entry: then
      the new word has to do as the slot's, which it does as a 4 MB page that says the same, or as the
      name of a table that holds this very word as the page's entry. */
  predicate Effective(w: Image, d: Word, va: Word, pa: Word, permissions: Word) {
    var e, e' := Pde(w, d, PdIndex(va)), PageEntry(pa, permissions);
    Present(e) && Big(e) ==>
      if Target(w, d, va) != EntryAt(d, PdIndex(va)) then AlreadyMaps(e, va, pa, permissions)
      else
        && (Writable(permissions) ==> Writable(e)) && (User(permissions) ==> User(e))
        && (if Big(e') then AlreadyMaps(e', va, pa, permissions)
            else w[Target(w, d, va) := e'][EntryAt(Virt(pa), PtIndex(va))] == e')
  }

  /** When mapping a page works, exactly; with permissions that leave the large page bit clear, a 4 MB
      page never says the same. */
  lemma MapPageExact(w: Image, h: Word, q: seq<Word>, spaces: Spaces, d: Word, va: Word, pa: Word,
                     permissions: Word, x: Word)
    requires Owned(w, h, q, spaces) && d in spaces && PdIndex(va) in spaces[d]
    requires Present(Pde(w, d, PdIndex(va))) || q != []
    requires PageAligned(va) && PageAligned(pa) && permissions < PAGE_SIZE && PageOf(x) == va
    ensures var e, w' := Pde(w, d, PdIndex(va)), MapPage(w, h, d, va, pa, permissions);
      && (Walk(w', Phys(d), x) == Mapped(SlotFlags(w, d, PdIndex(va)), pa, permissions, x)
          <==> Effective(w, d, va, pa, permissions))
      && (permissions < 0x80 && Big(e) ==> !AlreadyMaps(e, va, pa, permissions))
  {
    hide Owned, Walk, MapPage, BigPage, Mapped, TableOf, AlreadyMaps, Target, TableWord, SmallPage, PageEntry;
    var e, w' := Pde(w, d, PdIndex(va)), MapPage(w, h, d, va, pa, permissions);
    SamePage(va, x);
    OwnedAligned(w, h, q, spaces, d);
    BigPageMaps(e, va, pa, permissions, x);
    if Present(e) && Big(e) {
      BigPageShadows(w, h, d, va, pa, permissions, x);
      if Target(w, d, va) == EntryAt(d, PdIndex(va)) {
        SlotOverwritten(w, d, va, pa, permissions, x);
      }
    } else {
      MapPageTranslate(w, h, q, spaces, d, va, pa, permissions, d, x);
      WalkIs(w', d, x);
    }
  }

  /** The new entry in the place of the slot. */
  lemma SlotOverwritten(w: Image, d: Word, va: Word, pa: Word, permissions: Word, x: Word)
    requires Target(w, d, va) == EntryAt(d, PdIndex(va))
    requires PageAligned(va) && PageAligned(pa) && permissions < PAGE_SIZE && PageOf(x) == va
    ensures var e, e' := Pde(w, d, PdIndex(va)), PageEntry(pa, permissions);
      var w' := w[Target(w, d, va) := e'];
      (if Big(e') then BigPage(e', x) else SmallPage(e', TableWord(w', d, x), x))
        == Mapped(e % PAGE_SIZE, pa, permissions, x)
      <==>
        && (Writable(permissions) ==> Writable(e)) && (User(permissions) ==> User(e))
        && (if Big(e') then AlreadyMaps(e', va, pa, permissions) else w'[EntryAt(Virt(pa), PtIndex(va))] == e')
  {
    hide BigPage, SmallPage, AlreadyMaps, Target, Mapped;
    var e, e' := Pde(w, d, PdIndex(va)), PageEntry(pa, permissions);
    var w' := w[Target(w, d, va) := e'];
    SamePage(va, x);
    EntryFields(pa, permissions);
    assert TableWord(w', d, x) == w'[EntryAt(Virt(pa), PtIndex(va))];
    EntryAsSlot(e, pa, permissions, w'[EntryAt(Virt(pa), PtIndex(va))], x);
    BigPageMaps(e', va, pa, permissions, x);
  }

  lemma EntryFields(pa: Word, permissions: Word)
    requires PageAligned(pa) && permissions < PAGE_SIZE
    ensures var e := PageEntry(pa, permissions);
      && e - e % PAGE_SIZE == pa && e % PAGE_SIZE == permissions + 1 - permissions % 2 && Present(e)
      && Writable(e) == Writable(permissions) && User(e) == User(permissions)
  {
    hide PageEntry;
    var f := permissions + 1 - permissions % 2;
    PageEntryIs(pa, permissions);
    PageEntryPresent(pa, permissions);
    InPage(pa, f);
    LowFlags(PageEntry(pa, permissions));
    assert Writable(f) == Writable(permissions) && User(f) == User(permissions);
  }

  /** Through a slot that is itself the entry for frame pa, x is mapped as asked for exactly when the
      entry it is found by is that same word, and e granted the rights asked for. */
  lemma EntryAsSlot(e: Word, pa: Word, permissions: Word, pte: Word, x: Word)
    requires PageAligned(pa) && permissions < PAGE_SIZE
    ensures var e', rights := PageEntry(pa, permissions),
                              (Writable(permissions) ==> Writable(e)) && (User(permissions) ==> User(e));
      && (SmallPage(e', pte, x) == Mapped(e % PAGE_SIZE, pa, permissions, x) <==> rights && pte == e')
      && (Mapped(e' % PAGE_SIZE, pa, permissions, x) == Mapped(e % PAGE_SIZE, pa, permissions, x) <==> rights)
      && (BigPage(e', x) == Mapped(e % PAGE_SIZE, pa, permissions, x) ==> rights)
  {
    hide PageEntry;
    EntryFields(pa, permissions);
    LowFlags(e);
    LowFlags(PageEntry(pa, permissions));
  }

  lemma BigPageMaps(pde: Word, va: Word, pa: Word, permissions: Word, x: Word)
    requires PageAligned(va) && PageAligned(pa) && permissions < PAGE_SIZE && PageOf(x) == va
    ensures BigPage(pde, x) == Mapped(pde % PAGE_SIZE, pa, permissions, x) <==> AlreadyMaps(pde, va, pa, permissions)
    ensures permissions < 0x80 && Big(pde) ==> !AlreadyMaps(pde, va, pa, permissions)
  {
    var f := permissions + 1 - permissions % 2;
    LowFlags(pde);
    assert Writable(f) == Writable(permissions) && User(f) == User(permissions);
    assert x % 0x40_0000 == va % 0x40_0000 + x % PAGE_SIZE by {
      SamePage(va, x);
      Recompose(va);
      Recompose(x);
    }
  }

  // ---------------------------------------------------------------------------------------------
  // Without asking who owns what
  // ---------------------------------------------------------------------------------------------

  lemma SameTable(w: Image, w': Image, d: Word, i: nat)
    requires i < 1024 && Pde(w, d, i) == Pde(w', d, i)
    ensures TableOf(w, d, i) == TableOf(w', d, i)
  {
  }

  lemma PageInPlace(w: Image, h: Word, d: Word, va: Word, pa: Word, permissions: Word, p: Word)
    requires PageAligned(va) && PageAligned(p) && PdIndex(va) == PdIndex(p) && PageAligned(d)
    requires Present(Pde(w, d, PdIndex(va)))
    requires TableOf(w, d, PdIndex(va)) != d || PtIndex(va) != PdIndex(va)
    ensures var w' := MapPage(w, h, d, va, pa, permissions);
      && w' == w[EntryAt(TableOf(w, d, PdIndex(va)), PtIndex(va)) := PageEntry(pa, permissions)]
      && Pde(w', d, PdIndex(va)) == Pde(w, d, PdIndex(va))
      && TableWord(w', d, p) == if p == va then PageEntry(pa, permissions) else TableWord(w, d, p)
  {
    var i, t := PdIndex(va), TableOf(w, d, PdIndex(va));
    AndOne(Pde(w, d, i));
    TableAligned(w, d, i);
    EntriesDiffer(t, PtIndex(va), d, i);
    EntriesDiffer(t, PtIndex(va), t, PtIndex(p));
    SamePage(va, p);
    InPage(p, 0);
  }

  /** The range lies in slot i. */
  predicate Within(i: nat, curr: Word, last: Word) {
    i * 0x40_0000 <= curr <= last <= (i + 1) * 0x40_0000
  }

  /** No entry for a page of slot i below last lies on the word of that slot itself. */
  predicate Spared(w: Image, d: Word, i: nat, last: Word)
    requires i < 1024
  {
    TableOf(w, d, i) != d || last <= i * (0x40_0000 + PAGE_SIZE)
  }

  lemma WithinStep(w: Image, d: Word, i: nat, curr: Word, last: Word)
    requires i < 1024 && PageAligned(curr) && PageAligned(last) && Within(i, curr, last) && curr < last
    ensures PdIndex(curr) == i && (Spared(w, d, i, last) ==> TableOf(w, d, i) != d || PtIndex(curr) != i)
    ensures curr + PAGE_SIZE <= last && PageAligned(curr + PAGE_SIZE) && Within(i, curr + PAGE_SIZE, last)
  {
    hide TableOf, PageAligned;
    NextPage(curr, last);
    Recompose(curr);
  }

  /** Whatever page a present slot names, mapping a range of that slot fills in the entries of the
      range there, and leaves the other entries and the slot as they were. */
  lemma {:induction false} RangeInPlace(w: Image, h: Word, d: Word, i: nat, curr: Word, last: Word, pa: Word,
                                       permissions: Word, p: Word)
    requires i < 1024 && PageAligned(curr) && PageAligned(last) && Within(i, curr, last)
    requires PageAligned(d) && PageAligned(pa) && PageAligned(p) && PdIndex(p) == i
    requires Present(Pde(w, d, i)) && Spared(w, d, i, last)
    ensures var w' := MapRange(w, h, d, curr, last, pa, permissions);
      && Pde(w', d, i) == Pde(w, d, i)
      && TableWord(w', d, p)
         == if curr <= p < last then PageEntry(FrameFor(curr, pa, p), permissions) else TableWord(w, d, p)
    decreases last - curr
  {
    hide MapPage, MapRange, PageEntry, TableOf, Pde, Within;
    if curr < last {
      var w' := MapPage(w, h, d, curr, pa, permissions);
      WithinStep(w, d, i, curr, last);
      PageInPlace(w, h, d, curr, pa, permissions, p);
      SameTable(w, w', d, i);
      MapRangeUnfold(w, h, d, curr, last, pa, permissions);
      RangeSplit(curr, last, p);
      FrameStep(curr, pa, curr);
      if curr <= p { FrameStep(curr, pa, p); }
      RangeInPlace(w', h, d, i, curr + PAGE_SIZE, last, Plus(pa, PAGE_SIZE), permissions, p);
    } else {
      LoopDone(w, h, d, curr, last, pa, permissions);
    }
  }

  /** It writes to no other page. */
  lemma {:induction false} RangeElsewhere(w: Image, h: Word, d: Word, i: nat, curr: Word, last: Word, pa: Word,
                                         permissions: Word)
    requires i < 1024 && PageAligned(curr) && PageAligned(last) && Within(i, curr, last) && PageAligned(d)
    requires Present(Pde(w, d, i)) && Spared(w, d, i, last)
    ensures forall y: Word :: PageOf(y) != TableOf(w, d, i) ==>
              MapRange(w, h, d, curr, last, pa, permissions)[y] == w[y]
    decreases last - curr
  {
    hide MapPage, MapRange, PageEntry, TableOf, Pde, Within;
    if curr < last {
      var w' := MapPage(w, h, d, curr, pa, permissions);
      WithinStep(w, d, i, curr, last);
      PageInPlace(w, h, d, curr, pa, permissions, curr);
      SameTable(w, w', d, i);
      TableAligned(w, d, i);
      EntryCell(TableOf(w, d, i), PtIndex(curr));
      MapRangeUnfold(w, h, d, curr, last, pa, permissions);
      RangeElsewhere(w', h, d, i, curr + PAGE_SIZE, last, Plus(pa, PAGE_SIZE), permissions);
    } else {
      LoopDone(w, h, d, curr, last, pa, permissions);
    }
  }

  /** A range of a present slot needs no page, wherever its entries go. */
  lemma {:induction false} PresentServed(w: Image, h: Word, q: seq<Word>, d: Word, i: nat, curr: Word, last: Word,
                                        pa: Word, permissions: Word)
    requires i < 1024 && PageAligned(curr) && PageAligned(last) && Within(i, curr, last) && Present(Pde(w, d, i))
    ensures Served(w, h, q, d, curr, last, pa, permissions)
    ensures Present(Pde(MapRange(w, h, d, curr, last, pa, permissions), d, i))
    decreases last - curr
  {
    hide MapPage, Pde, Present, Within, Pool, Remaining;
    if curr < last {
      var w' := MapPage(w, h, d, curr, pa, permissions);
      WithinStep(w, d, i, curr, last);
      PresentWrite(w, h, d, curr, pa, permissions);
      PresentServed(w', h, Remaining(w, q, d, i), d, i, curr + PAGE_SIZE, last, Plus(pa, PAGE_SIZE), permissions);
    }
  }

  // ---------------------------------------------------------------------------------------------
  // Asking twice
  // ---------------------------------------------------------------------------------------------

  /** The table entry of page p exists and holds v. */
  ghost predicate Installed(w: Image, d: Word, p: Word, v: Word) {
    Present(Pde(w, d, PdIndex(p))) && !Big(Pde(w, d, PdIndex(p))) && TableWord(w, d, p) == v
  }

  lemma InstalledNow(w: Image, h: Word, q: seq<Word>, spaces: Spaces, d: Word, va: Word, pa: Word, permissions: Word)
    requires Owned(w, h, q, spaces) && CanMap(w, q, spaces, d, PdIndex(va))
    ensures Installed(MapPage(w, h, d, va, pa, permissions), d, va, PageEntry(pa, permissions))
  {
    var w1 := EnsureTable(w, h, d, PdIndex(va));
    EnsureTableOwned(w, h, q, spaces, d, PdIndex(va));
    MapPageOwned(w, h, q, spaces, d, va, pa, permissions);
    TableAligned(w1, d, PdIndex(va));
  }

  lemma EnsureKeepsInstalled(w: Image, h: Word, q: seq<Word>, spaces: Spaces, d: Word, i: nat, p: Word, v: Word)
    requires Owned(w, h, q, spaces) && i < 1024 && CanMap(w, q, spaces, d, i)
    requires Installed(w, d, p, v) && PdIndex(p) in spaces[d]
    ensures Installed(EnsureTable(w, h, d, i), d, p, v) && Tabled(EnsureTable(w, h, d, i), spaces, d, PdIndex(p))
  {
    hide Owned, EnsureTable;
    var j := PdIndex(p);
    EnsureTableOwned(w, h, q, spaces, d, i);
    TableElsewhere(w, h, q, spaces, d, j, PtIndex(p));
    assert Pde(EnsureTable(w, h, d, i), d, j) == Pde(w, d, j);
  }

  lemma InstalledStays(w: Image, h: Word, q: seq<Word>, spaces: Spaces, d: Word, va: Word, pa: Word, permissions: Word,
                       p: Word, v: Word)
    requires Owned(w, h, q, spaces) && CanMap(w, q, spaces, d, PdIndex(va))
    requires Installed(w, d, p, v) && PdIndex(p) in spaces[d] && PageAligned(va) && PageAligned(p) && p != va
    ensures Installed(MapPage(w, h, d, va, pa, permissions), d, p, v)
  {
    hide Owned, EnsureTable, Installed;
    var i, j := PdIndex(va), PdIndex(p);
    var w1, r := EnsureTable(w, h, d, i), Remaining(w, q, d, i);
    EnsureKeepsInstalled(w, h, q, spaces, d, i, p, v);
    EnsureTableOwned(w, h, q, spaces, d, i);
    WriteKeepsInstalled(w1, h, r, spaces, d, va, PageEntry(pa, permissions), p, v);
    TableAligned(w1, d, i);
  }

  lemma WriteKeepsInstalled(w: Image, h: Word, q: seq<Word>, spaces: Spaces, d: Word, va: Word, v': Word, p: Word,
                            v: Word)
    requires Owned(w, h, q, spaces) && Tabled(w, spaces, d, PdIndex(va)) && Tabled(w, spaces, d, PdIndex(p))
    requires Installed(w, d, p, v) && PageAligned(va) && PageAligned(p) && p != va
    ensures Installed(w[EntryAt(TableOf(w, d, PdIndex(va)), PtIndex(va)) := v'], d, p, v)
  {
    hide Owned;
    var i, j := PdIndex(va), PdIndex(p);
    SamePage(va, p);
    TablesDiffer(w, h, q, spaces, d, i, PtIndex(va), d, j, PtIndex(p));
    TableElsewhere(w, h, q, spaces, d, i, PtIndex(va));
    WriteKeepsOwned(w, h, q, spaces, EntryAt(TableOf(w, d, i), PtIndex(va)), v');
  }

  lemma InstalledNoop(w: Image, h: Word, d: Word, va: Word, pa: Word, permissions: Word)
    requires Installed(w, d, va, PageEntry(pa, permissions))
    ensures MapPage(w, h, d, va, pa, permissions) == w
  {
    AndOne(Pde(w, d, PdIndex(va)));
    TableAligned(w, d, PdIndex(va));
  }

  lemma {:induction false} RangeKeepsInstalled(w: Image, h: Word, q: seq<Word>, spaces: Spaces, d: Word, curr: Word,
                                               last: Word, pa: Word, permissions: Word, p: Word, v: Word)
    requires Ready(w, h, q, spaces, d, curr, last)
    requires Installed(w, d, p, v) && d in spaces && PdIndex(p) in spaces[d] && PageAligned(p) && p < curr
    ensures PageAligned(curr) && PageAligned(last)
    ensures Installed(MapRange(w, h, d, curr, last, pa, permissions), d, p, v)
    decreases last - curr
  {
    hide Owned, Ready, MapPage, MapRange, Installed;
    ReadyAligned(w, h, q, spaces, d, curr, last);
    if curr < last {
      var w', r := MapPage(w, h, d, curr, pa, permissions), Remaining(w, q, d, PdIndex(curr));
      RangeTurn(w, h, q, spaces, d, curr, last, pa, permissions);
      InstalledStays(w, h, q, spaces, d, curr, pa, permissions, p, v);
      RangeKeepsInstalled(w', h, r, spaces, d, curr + PAGE_SIZE, last, Plus(pa, PAGE_SIZE), permissions, p, v);
    } else {
      RangeDone(w, h, q, spaces, d, curr, last, pa, permissions);
    }
  }

  /** After the call, the entry of every page in the range holds its frame and permissions. */
  lemma {:induction false} RangeInstalls(w: Image, h: Word, q: seq<Word>, spaces: Spaces, d: Word, curr: Word,
                                         last: Word, pa: Word, permissions: Word, p: Word)
    requires Ready(w, h, q, spaces, d, curr, last) && PageAligned(pa) && PageAligned(p) && curr <= p < last
    ensures PageAligned(curr) && PageAligned(last)
    ensures Installed(MapRange(w, h, d, curr, last, pa, permissions), d, p,
                      PageEntry(FrameFor(curr, pa, p), permissions))
    decreases last - curr
  {
    hide Owned, Ready, MapPage, MapRange, Installed, PageEntry;
    var w', r := MapPage(w, h, d, curr, pa, permissions), Remaining(w, q, d, PdIndex(curr));
    RangeTurn(w, h, q, spaces, d, curr, last, pa, permissions);
    FrameStep(curr, pa, p);
    if p == curr {
      InstalledNow(w, h, q, spaces, d, curr, pa, permissions);
      RangeKeepsInstalled(w', h, r, spaces, d, curr + PAGE_SIZE, last, Plus(pa, PAGE_SIZE), permissions,
                          p, PageEntry(pa, permissions));
    } else {
      PagesApart(p, curr);
      RangeInstalls(w', h, r, spaces, d, curr + PAGE_SIZE, last, Plus(pa, PAGE_SIZE), permissions, p);
    }
  }

  lemma {:induction false} RangeNoop(w: Image, h: Word, d: Word, curr: Word, last: Word, pa: Word, permissions: Word)
    requires PageAligned(curr) && PageAligned(last) && PageAligned(pa)
    requires forall p: Word :: PageAligned(p) && curr <= p < last ==>
             Installed(w, d, p, PageEntry(FrameFor(curr, pa, p), permissions))
    ensures MapRange(w, h, d, curr, last, pa, permissions) == w
    decreases last - curr
  {
    hide MapPage, Installed, PageEntry;
    if curr < last {
      MapRangeUnfold(w, h, d, curr, last, pa, permissions);
      assert Installed(w, d, curr, PageEntry(FrameFor(curr, pa, curr), permissions));
      InstalledNoop(w, h, d, curr, pa, permissions);
      FrameStep(curr, pa, curr);
      forall p: Word | PageAligned(p) && curr + PAGE_SIZE <= p < last
        ensures Installed(w, d, p, PageEntry(FrameFor(curr + PAGE_SIZE, Plus(pa, PAGE_SIZE), p), permissions))
      {
        FrameStep(curr, pa, p);
      }
      RangeNoop(w, h, d, curr + PAGE_SIZE, last, Plus(pa, PAGE_SIZE), permissions);
    }
  }

  /** The same call again changes not a single word, so it takes no page either. */
  lemma VmMapTwice(w: Image, h: Word, q: seq<Word>, spaces: Spaces, d: Word, vaddr: Word, paddr: Word, size: Word,
                   permissions: Word)
    requires VmReady(w, h, q, spaces, d, vaddr, size) && PageAligned(paddr)
    ensures var w' := VmMap(w, h, d, vaddr, paddr, size, permissions);
      VmMap(w', h, d, vaddr, paddr, size, permissions) == w'
  {
    var first, last := FirstPageOf(vaddr), EndPageOf(vaddr, size);
    var w' := MapRange(w, h, d, first, last, paddr, permissions);
    forall p: Word | PageAligned(p) && first <= p < last
      ensures Installed(w', d, p, PageEntry(FrameFor(first, paddr, p), permissions))
    {
      RangeInstalls(w, h, q, spaces, d, first, last, paddr, permissions, p);
    }
    RangeNoop(w', h, d, first, last, paddr, permissions);
  }
}

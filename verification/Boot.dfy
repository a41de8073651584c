/** `kvm_create` and `kvm_init` of kernel/mm/kvm.c: the kernel's own page directory. */
module Boot {
  import opened Words
  import opened Layout
  import opened Lists
  import opened Pages
  import opened Paging
  import opened Kvm
  import opened KvmCode
  import opened VmLaws
  import opened VmRuns

  const RDONLY: Word := 0
  const RDWR: Word := 2

  /** The slot of the directory that covers the kernel's first 4 MB, and where those end. */
  const KERNEL_SLOT: nat := 512
  const KERNEL_TOP: Word := 0x8040_0000

  /** The linker's symbols: data is page-aligned, end need not be. */
  predicate Linked(data: Word, end: Word) {
    PageAligned(data) && KERNEL_LINK <= data <= end <= KERNEL_TOP - PAGE_SIZE
  }

  /** The three mappings `kvm_create` makes. */
  function IoSpace(d: Word): Request { Request(d, KERNEL_BASE, 0, EXTENDED_MEM, RDWR) }

  function Code(d: Word, data: Word): Request {
    Request(d, KERNEL_LINK, EXTENDED_MEM, Minus(Phys(data), EXTENDED_MEM), RDONLY)
  }

  function Data(d: Word, data: Word, end: Word): Request { Request(d, data, Phys(data), Minus(end, data), RDWR) }

  lemma Ranges(d: Word, data: Word, end: Word)
    requires Linked(data, end)
    ensures IoSpace(d).First() == KERNEL_BASE && IoSpace(d).Last() == KERNEL_LINK && IoSpace(d).Proper()
    ensures Code(d, data).First() == KERNEL_LINK && Code(d, data).Last() == data && Code(d, data).Proper()
    ensures Data(d, data, end).First() == data && Data(d, data, end).Last() == PageUp(end)
            && Data(d, data, end).Proper()
    ensures data <= PageUp(end) <= KERNEL_TOP
  {
    hide PageUp, PageDown, PteAddr;
    CodeEnds(data);
  }

  lemma CodeEnds(data: Word)
    requires PageAligned(data) && KERNEL_LINK <= data <= KERNEL_TOP
    ensures Plus(KERNEL_LINK, Minus(Phys(data), EXTENDED_MEM)) == data && PageAligned(Phys(data))
  {
  }

  function CreateImage(w: Image, h: Word, data: Word, end: Word): Image {
    var d := FirstPage(w, h);
    Data(d, data, end).Do(Code(d, data).Do(IoSpace(d).Do(Alloc(w, h), h), h), h)
  }

  /** What the kernel wants to see in its first 4 MB: everything up to the end of the kernel at its
      physical address, code and constants read-only, nothing beyond, nothing for user mode. */
  function KernelView(data: Word, end: Word, x: Word): Translation
    requires KERNEL_BASE <= x < KERNEL_TOP
  {
    if x >= PageUp(end) then NotPresent
    else if KERNEL_LINK <= x < data then Maps(x - KERNEL_BASE, PRESENT, false, false)
    else Maps(x - KERNEL_BASE, PRESENT + RW, true, false)
  }

  // ---------------------------------------------------------------------------------------------
  // Mapping within the kernel's slot
  // ---------------------------------------------------------------------------------------------

  /** The kernel slot of d can be filled: it is empty with a page to spare, or has a table. */
  ghost predicate SlotOpen(w: Image, h: Word, q: seq<Word>, spaces: Spaces, d: Word) {
    && Owned(w, h, q, spaces) && d in spaces && KERNEL_SLOT in spaces[d]
    && (if Present(Pde(w, d, KERNEL_SLOT)) then !Big(Pde(w, d, KERNEL_SLOT)) else q != [])
  }

  lemma KernelSlots(curr: Word, last: Word)
    requires KERNEL_BASE <= curr <= last <= KERNEL_TOP
    ensures curr < last ==> PdIndex(curr) == KERNEL_SLOT && SlotEnd(curr, last) == KERNEL_SLOT + 1
    ensures curr == last ==> SlotEnd(curr, last) == PdIndex(curr)
  {
  }

  lemma OneMissing(w: Image, d: Word, i: nat)
    requires i < 1024
    ensures Missing(w, d, i, i + 1) == if Present(Pde(w, d, i)) then 0 else 1
  {
    assert Missing(w, d, i + 1, i + 1) == 0;
  }

  lemma KernelReady(w: Image, h: Word, q: seq<Word>, spaces: Spaces, a: Request)
    requires SlotOpen(w, h, q, spaces, a.d) && KERNEL_BASE <= a.First() <= a.Last() <= KERNEL_TOP
    ensures a.CanDo(w, h, q, spaces)
    ensures a.Cost(w) == if a.First() < a.Last() && !Present(Pde(w, a.d, KERNEL_SLOT)) then 1 else 0
  {
    KernelSlots(a.First(), a.Last());
    OneMissing(w, a.d, KERNEL_SLOT);
  }

  lemma MapPageTable(w: Image, h: Word, q: seq<Word>, spaces: Spaces, d: Word, va: Word, pa: Word, permissions: Word)
    requires Owned(w, h, q, spaces) && CanMap(w, q, spaces, d, PdIndex(va)) && !Present(Pde(w, d, PdIndex(va)))
    ensures var w' := MapPage(w, h, d, va, pa, permissions);
      q != [] && TableOf(w', d, PdIndex(va)) == q[0] && Present(Pde(w', d, PdIndex(va)))
  {
    hide Owned, MapPage, EnsureTable;
    EnsureTableOwned(w, h, q, spaces, d, PdIndex(va));
    MapPageOwned(w, h, q, spaces, d, va, pa, permissions);
    assert Pde(MapPage(w, h, d, va, pa, permissions), d, PdIndex(va))
           == Pde(EnsureTable(w, h, d, PdIndex(va)), d, PdIndex(va));
  }

  /** The first table a range needs is the first free page. */
  lemma FirstTable(w: Image, h: Word, q: seq<Word>, spaces: Spaces, d: Word, curr: Word, last: Word, pa: Word,
                   permissions: Word)
    requires Ready(w, h, q, spaces, d, curr, last) && curr < last && !Present(Pde(w, d, PdIndex(curr)))
    ensures PageAligned(curr) && PageAligned(last) && q != []
    ensures TableOf(MapRange(w, h, d, curr, last, pa, permissions), d, PdIndex(curr)) == q[0]
  {
    hide Owned, Ready, MapPage, MapRange;
    ReadyAligned(w, h, q, spaces, d, curr, last);
    var i, w', r := PdIndex(curr), MapPage(w, h, d, curr, pa, permissions), Remaining(w, q, d, PdIndex(curr));
    RangeTurn(w, h, q, spaces, d, curr, last, pa, permissions);
    MapPageTable(w, h, q, spaces, d, curr, pa, permissions);
    MapRangeGrows(w', h, r, spaces, d, curr + PAGE_SIZE, last, Plus(pa, PAGE_SIZE), permissions);
  }

  /** Serving a request inside the kernel's slot: the slot has a table afterwards, all other slots of
      all directories are untouched, and the pages asked for are mapped. */
  lemma KernelStep(w: Image, h: Word, q: seq<Word>, spaces: Spaces, a: Request) returns (w': Image, r: seq<Word>)
    requires SlotOpen(w, h, q, spaces, a.d) && KERNEL_BASE <= a.First() <= a.Last() <= KERNEL_TOP && a.Proper()
    ensures a.Cost(w) <= |q|
    ensures w' == a.Do(w, h) && r == q[a.Cost(w)..] && SlotOpen(w', h, r, spaces, a.d)
    ensures a.First() < a.Last() ==> Present(Pde(w', a.d, KERNEL_SLOT))
    ensures a.First() < a.Last() && !Present(Pde(w, a.d, KERNEL_SLOT)) ==> TableOf(w', a.d, KERNEL_SLOT) == q[0]
    ensures Present(Pde(w, a.d, KERNEL_SLOT)) ==> Pde(w', a.d, KERNEL_SLOT) == Pde(w, a.d, KERNEL_SLOT) && r == q
    ensures forall e, j :: e in spaces && 0 <= j < 1024 && (e != a.d || j != KERNEL_SLOT) ==>
            Pde(w', e, j) == Pde(w, e, j)
  {
    hide Owned, Ready, MapRange, Missing;
    KernelReady(w, h, q, spaces, a);
    KernelSlots(a.First(), a.Last());
    MapRangeOwned(w, h, q, spaces, a.d, a.First(), a.Last(), a.paddr, a.permissions);
    w', r := a.Do(w, h), q[a.Cost(w)..];
    MapRangeGrows(w, h, q, spaces, a.d, a.First(), a.Last(), a.paddr, a.permissions);
    if a.First() < a.Last() {
      RangeInstalls(w, h, q, spaces, a.d, a.First(), a.Last(), a.paddr, a.permissions, a.First());
      if !Present(Pde(w, a.d, KERNEL_SLOT)) {
        FirstTable(w, h, q, spaces, a.d, a.First(), a.Last(), a.paddr, a.permissions);
      }
    }
    forall e, j | e in spaces && 0 <= j < 1024 && (e != a.d || j != KERNEL_SLOT) ensures Pde(w', e, j) == Pde(w, e, j) {
      OtherSlots(w, h, q, spaces, a.d, a.First(), a.Last(), a.paddr, a.permissions, e, j);
    }
  }

  // ---------------------------------------------------------------------------------------------
  // kvm_create
  // ---------------------------------------------------------------------------------------------

  /** What `kvm_create` needs: two free pages, the first of which holds, where the kernel's directory
      entry goes, a word without the present bit (the directory page is never cleared). */
  ghost predicate CanCreate(w: Image, h: Word, q: seq<Word>, spaces: Spaces) {
    Owned(w, h, q, spaces) && |q| >= 2 && !Present(Pde(w, q[0], KERNEL_SLOT))
  }

  /** The page taken for the directory, before anything is mapped in it. */
  lemma DirectoryTaken(w: Image, h: Word, q: seq<Word>, spaces: Spaces) returns (w1: Image, spaces': Spaces)
    requires CanCreate(w, h, q, spaces)
    ensures w1 == Alloc(w, h) && spaces' == spaces[q[0] := {KERNEL_SLOT}] && FirstPage(w, h) == q[0] && q[0] !in spaces
    ensures SlotOpen(w1, h, q[1..], spaces', q[0]) && !Present(Pde(w1, q[0], KERNEL_SLOT))
    ensures forall e, j :: e in spaces && 0 <= j < 1024 ==> Pde(w1, e, j) == Pde(w, e, j)
    ensures forall j :: 3 <= j < 1024 ==> Pde(w1, q[0], j) == Pde(w, q[0], j)
    ensures Pde(w1, q[0], 0) == MAGIC && Pde(w1, q[0], 1) == 0 && Pde(w1, q[0], 2) == 0
  {
    hide Alloc, Pool;
    var p := q[0];
    w1, spaces' := Alloc(w, h), spaces[p := {KERNEL_SLOT}];
    DirectoryWords(w, h, q);
    AllocKeepsOwned(w, h, q, spaces);
    forall e, j | e in spaces && 0 <= j < 1024 ensures Pde(w1, e, j) == Pde(w, e, j) {
      DirectoryCell(w, h, q, spaces, e, j);
    }
    assert p in q;
    forall d, i | Tabled(w1, spaces, d, i) ensures TableOf(w1, d, i) != p {
      assert Pde(w1, d, i) == Pde(w, d, i) && Tabled(w, spaces, d, i);
    }
    NewDirectoryOwned(w1, h, q[1..], spaces, p, {KERNEL_SLOT});
  }

  /** What `kpalloc` leaves in the page it returns. */
  lemma DirectoryWords(w: Image, h: Word, q: seq<Word>)
    requires Pool(w, h, q) && q != []
    ensures var w1, p := Alloc(w, h), q[0];
      && IsPage(p) && Outside(h, p) && p !in q[1..] && FirstPage(w, h) == p
      && (forall j :: 3 <= j < 1024 ==> Pde(w1, p, j) == Pde(w, p, j))
      && Pde(w1, p, 0) == MAGIC && Pde(w1, p, 1) == 0 && Pde(w1, p, 2) == 0
      && OnlyLinkCells(w, w1, h, q)
  {
    hide Alloc, Ring;
    var w1, p := Alloc(w, h), q[0];
    AllocPool(w, h, q);
    PoolOrder(w, h, q);
    assert p in q;
    NotInside(h, p);
    EntryCell(p, 0);
    forall j | 3 <= j < 1024 ensures Pde(w1, p, j) == Pde(w, p, j) {
      EntryCell(p, j);
    }
  }

  /** Three steps inside the kernel's slot. */
  lemma CreateSteps(w: Image, h: Word, q: seq<Word>, spaces: Spaces, data: Word, end: Word)
    returns (w1: Image, w2: Image, w3: Image, w4: Image, spaces': Spaces)
    requires CanCreate(w, h, q, spaces) && Linked(data, end)
    ensures var d := q[0];
      && spaces' == spaces[d := {KERNEL_SLOT}] && d !in spaces && w4 == CreateImage(w, h, data, end)
      && w1 == Alloc(w, h) && w2 == IoSpace(d).Do(w1, h)
      && w3 == Code(d, data).Do(w2, h) && w4 == Data(d, data, end).Do(w3, h)
      && IoSpace(d).CanDo(w1, h, q[1..], spaces') && Code(d, data).CanDo(w2, h, q[2..], spaces')
      && Data(d, data, end).CanDo(w3, h, q[2..], spaces') && SlotOpen(w4, h, q[2..], spaces', d)
      && Present(Pde(w4, d, KERNEL_SLOT)) && TableOf(w4, d, KERNEL_SLOT) == q[1] && !Present(Pde(w1, d, KERNEL_SLOT))
      && (forall e, j :: e in spaces && 0 <= j < 1024 ==> Pde(w4, e, j) == Pde(w, e, j))
      && (forall j :: 3 <= j < 1024 && j != KERNEL_SLOT ==> Pde(w4, d, j) == Pde(w, d, j))
      && Pde(w4, d, 0) == MAGIC && Pde(w4, d, 1) == 0 && Pde(w4, d, 2) == 0
  {
    hide Owned, Ready, MapRange, Missing, PageUp, Alloc;
    var d := q[0];
    Ranges(d, data, end);
    w1, spaces' := DirectoryTaken(w, h, q, spaces);
    KernelReady(w1, h, q[1..], spaces', IoSpace(d));
    var r: seq<Word>;
    w2, r := KernelStep(w1, h, q[1..], spaces', IoSpace(d));
    assert r == q[2..];
    KernelReady(w2, h, r, spaces', Code(d, data));
    w3, r := KernelStep(w2, h, r, spaces', Code(d, data));
    KernelReady(w3, h, r, spaces', Data(d, data, end));
    w4, r := KernelStep(w3, h, r, spaces', Data(d, data, end));
  }

  lemma ViewStart(w: Image, d: Word, x: Word)
    requires PageAligned(d) && !Present(Pde(w, d, PdIndex(x)))
    ensures Walk(w, Phys(d), x) == NotPresent && SlotFlags(w, d, PdIndex(x)) == PRESENT + RW + US
  {
    WalkIs(w, d, x);
  }

  /** What a request adds to the view of x, in a slot that lets everything through. */
  function Layer(a: Request, x: Word, below: Translation): Translation {
    if a.First() <= x < a.Last()
    then Maps(Plus(a.paddr, x - a.First()), a.permissions + 1 - a.permissions % 2,
              Writable(a.permissions), User(a.permissions))
    else below
  }

  lemma ViewStep(w: Image, h: Word, q: seq<Word>, spaces: Spaces, a: Request, x: Word)
    requires a.CanDo(w, h, q, spaces) && a.Proper() && a.d in spaces && PdIndex(x) in spaces[a.d]
    requires SlotFlags(w, a.d, PdIndex(x)) == PRESENT + RW + US
    ensures SlotFlags(a.Do(w, h), a.d, PdIndex(x)) == PRESENT + RW + US && PageAligned(a.d)
    ensures Walk(a.Do(w, h), Phys(a.d), x) == Layer(a, x, Walk(w, Phys(a.d), x))
  {
    hide Ready, Walk, Translate, RangeTranslate, MapRange, FirstPageOf, EndPageOf, SlotFlags;
    DoTranslate(w, h, q, spaces, a, a.d, x);
    VmMapIsRangeUpdate(w, h, q, spaces, a.d, a.vaddr, a.paddr, a.size, a.permissions, a.d, x);
    assert Writable(7) && User(7);
  }

  lemma ViewIs(d: Word, data: Word, end: Word, x: Word)
    requires Linked(data, end) && KERNEL_BASE <= x < KERNEL_TOP
    ensures Layer(Data(d, data, end), x, Layer(Code(d, data), x, Layer(IoSpace(d), x, NotPresent)))
            == KernelView(data, end, x)
  {
    hide PageUp, PageDown, PteAddr;
    Ranges(d, data, end);
    assert !Writable(0) && Writable(2) && !User(0) && !User(2);
  }

  /** The directory `kvm_create` builds shows the kernel exactly what it should see in its 4 MB. */
  lemma CreateView(w: Image, h: Word, q: seq<Word>, spaces: Spaces, data: Word, end: Word, x: Word)
    requires CanCreate(w, h, q, spaces) && Linked(data, end) && KERNEL_BASE <= x < KERNEL_TOP
    ensures Walk(CreateImage(w, h, data, end), Phys(q[0]), x) == KernelView(data, end, x)
  {
    hide Owned, Ready, MapRange, Missing, PageUp, Alloc, KernelView, Walk, VmMap, SlotFlags, CreateImage, SlotOpen,
         Layer, TableOf, Pde;
    var d := q[0];
    var w1, w2, w3, w4, spaces' := CreateSteps(w, h, q, spaces, data, end);
    Ranges(d, data, end);
    assert PdIndex(x) == KERNEL_SLOT;
    CreateAligned(w, h, q, spaces);
    ViewStart(w1, d, x);
    ViewStep(w1, h, q[1..], spaces', IoSpace(d), x);
    ViewStep(w2, h, q[2..], spaces', Code(d, data), x);
    ViewStep(w3, h, q[2..], spaces', Data(d, data, end), x);
    ViewIs(d, data, end, x);
  }

  lemma CreateAligned(w: Image, h: Word, q: seq<Word>, spaces: Spaces)
    requires CanCreate(w, h, q, spaces)
    ensures PageAligned(q[0])
  {
    assert q[0] in q;
  }

  /** It changes no translation of any directory already in use. */
  lemma CreateElsewhere(w: Image, h: Word, q: seq<Word>, spaces: Spaces, data: Word, end: Word, e: Word, x: Word)
    requires CanCreate(w, h, q, spaces) && Linked(data, end) && e in spaces && PdIndex(x) in spaces[e]
    ensures Walk(CreateImage(w, h, data, end), Phys(e), x) == Walk(w, Phys(e), x)
  {
    hide Ready, MapRange, Missing, PageUp;
    var d := q[0];
    var w1, w2, w3, w4, spaces' := CreateSteps(w, h, q, spaces, data, end);
    Ranges(d, data, end);
    DoTranslate(w1, h, q[1..], spaces', IoSpace(d), e, x);
    DoTranslate(w2, h, q[2..], spaces', Code(d, data), e, x);
    DoTranslate(w3, h, q[2..], spaces', Data(d, data, end), e, x);
    AllocTranslate(w, h, q, spaces, e, x);
    WalkIs(w4, e, x);
    WalkIs(w, e, x);
  }

  lemma AllocTranslate(w: Image, h: Word, q: seq<Word>, spaces: Spaces, e: Word, x: Word)
    requires Owned(w, h, q, spaces) && q != [] && e in spaces && PdIndex(x) in spaces[e]
    ensures Translate(Alloc(w, h), e, x) == Translate(w, e, x)
  {
    AllocPool(w, h, q);
    DirectoryCell(w, h, q, spaces, e, PdIndex(x));
    if Tabled(w, spaces, e, PdIndex(x)) {
      TableElsewhere(w, h, q, spaces, e, PdIndex(x), PtIndex(x));
    }
    SameTranslate(w, Alloc(w, h), e, x);
  }

  // ---------------------------------------------------------------------------------------------
  // kvm_create on a page that was not empty
  // ---------------------------------------------------------------------------------------------

  /** No table entry `kvm_create` writes lands on the word of the kernel's own slot. */
  predicate SlotSpared(w: Image, d: Word, end: Word) {
    TableOf(w, d, KERNEL_SLOT) != d || end <= KERNEL_BASE + 2 * MB
  }

  /** The permissions and the entry page p gets from the three mappings. */
  function Rights(data: Word, p: Word): Word { if KERNEL_LINK <= p < data then RDONLY else RDWR }

  function KernelFrame(data: Word, p: Word): Word { PageEntry(Phys(p), Rights(data, p)) }

  /** What the three mappings leave when the kernel slot has the present bit to begin with. */
  lemma StepsShadowed(w1: Image, h: Word, d: Word, data: Word, end: Word, p: Word)
    requires Linked(data, end) && PageAligned(d) && PageAligned(p) && KERNEL_BASE <= p < KERNEL_TOP
    requires Present(Pde(w1, d, KERNEL_SLOT)) && SlotSpared(w1, d, PageUp(end))
    ensures var w4 := Data(d, data, end).Do(Code(d, data).Do(IoSpace(d).Do(w1, h), h), h);
      && Pde(w4, d, KERNEL_SLOT) == Pde(w1, d, KERNEL_SLOT)
      && TableWord(w4, d, p) == if p < PageUp(end) then KernelFrame(data, p) else TableWord(w1, d, p)
  {
    hide MapRange, PageUp, PageDown, PteAddr, TableOf, PageEntry, Pde, TableWord, Present;
    var io, code, rw := IoSpace(d), Code(d, data), Data(d, data, end);
    Ranges(d, data, end);
    var w2 := io.Do(w1, h);
    var w3 := code.Do(w2, h);
    RangeInPlace(w1, h, d, KERNEL_SLOT, io.First(), io.Last(), io.paddr, io.permissions, p);
    SameTable(w1, w2, d, KERNEL_SLOT);
    RangeInPlace(w2, h, d, KERNEL_SLOT, code.First(), code.Last(), code.paddr, code.permissions, p);
    SameTable(w2, w3, d, KERNEL_SLOT);
    RangeInPlace(w3, h, d, KERNEL_SLOT, rw.First(), rw.Last(), rw.paddr, rw.permissions, p);
  }

  /** A page that happens to hold a 4 MB entry in the kernel's slot keeps it through all of
      `kvm_create`: the kernel's 4 MB are seen through the stray entry, at no address as they should be. */
  lemma CreateShadowed(w: Image, h: Word, q: seq<Word>, data: Word, end: Word, x: Word)
    requires Pool(w, h, q) && q != [] && Linked(data, end) && KERNEL_BASE <= x < KERNEL_TOP
    requires Present(Pde(w, q[0], KERNEL_SLOT)) && Big(Pde(w, q[0], KERNEL_SLOT)) && SlotSpared(w, q[0], PageUp(end))
    ensures Walk(CreateImage(w, h, data, end), Phys(q[0]), x) == BigPage(Pde(w, q[0], KERNEL_SLOT), x)
    ensures Walk(CreateImage(w, h, data, end), Phys(q[0]), x) != KernelView(data, end, x)
  {
    hide Pool, PageUp, Alloc, Big, Present, TableOf, FirstPage, VmMap, Pde, BigPage, KernelView, TableWord, Walk;
    var d := q[0];
    DirectoryWords(w, h, q);
    var w1 := Alloc(w, h);
    SameTable(w, w1, d, KERNEL_SLOT);
    EntryOfPage(w1, d, x);
    StepsShadowed(w1, h, d, data, end, PageOf(x));
    WalkSlot(CreateImage(w, h, data, end), d, x);
    BigIsNotKernel(Pde(w, d, KERNEL_SLOT), data, end, x);
  }

  lemma BigIsNotKernel(pde: Word, data: Word, end: Word, x: Word)
    requires Big(pde) && KERNEL_BASE <= x < KERNEL_TOP
    ensures BigPage(pde, x) != KernelView(data, end, x)
  {
    hide PageUp;
    LowFlags(pde);
  }

  /** The word e in the kernel's slot of the page about to become the directory does not keep x from
      being seen as it should be: it has no present bit, or it names a table (not a 4 MB page) that
      lets writes through where x is writable and has no entry of its own for x where the kernel
      maps nothing. A word that names the page itself is overwritten under a large kernel. */
  predicate Harmless(w: Image, d: Word, data: Word, end: Word, x: Word) {
    var e := Pde(w, d, KERNEL_SLOT);
    Present(e) ==>
      if !SlotSpared(w, d, PageUp(end)) then SelfHarmless(w, d, data, end, x)
      else
        && !Big(e)
        && (if PageUp(end) <= x then !Present(TableWord(w, d, x)) else KERNEL_LINK <= x < data || Writable(e))
  }

  lemma WalkSlot(w: Image, d: Word, x: Word)
    requires PageAligned(d) && PdIndex(x) == KERNEL_SLOT && Present(Pde(w, d, KERNEL_SLOT))
    ensures var e := Pde(w, d, KERNEL_SLOT);
      Walk(w, Phys(d), x) == if Big(e) then BigPage(e, x) else SmallPage(e, TableWord(w, d, x), x)
  {
    hide Walk;
    WalkIs(w, d, x);
  }

  /** An entry `kvm_create` writes shows x as it should be exactly when the slot lets writes through
      or x is read-only anyway. */
  lemma FrameView(pde: Word, data: Word, end: Word, x: Word)
    requires PageAligned(data) && KERNEL_BASE <= x < KERNEL_TOP && x < PageUp(end)
    ensures KERNEL_BASE <= PageOf(x) < KERNEL_TOP
    ensures SmallPage(pde, KernelFrame(data, PageOf(x)), x) == KernelView(data, end, x)
       <==> KERNEL_LINK <= x < data || Writable(pde)
  {
    hide SmallPage, PageEntry, PageUp, PageOf, Mapped, Writable;
    FramePlace(data, x);
    var permissions := Rights(data, x);
    MappedEntry(pde, PageOf(x) - KERNEL_BASE, permissions, x);
    MappedFrame(pde, PageOf(x) - KERNEL_BASE, permissions, x);
  }

  lemma MappedFrame(pde: Word, pa: Word, permissions: Word, x: Word)
    requires PageAligned(pa) && pa + x % PAGE_SIZE == x - KERNEL_BASE >= 0
             && (permissions == RDONLY || permissions == RDWR)
    ensures Mapped(pde % PAGE_SIZE, pa, permissions, x)
         == Maps(x - KERNEL_BASE, PRESENT + permissions, Writable(pde) && permissions == RDWR, false)
  {
    LowFlags(pde);
    assert !Writable(RDONLY) && Writable(RDWR) && !User(RDONLY) && !User(RDWR);
  }

  lemma FramePlace(data: Word, x: Word)
    requires PageAligned(data) && KERNEL_BASE <= x < KERNEL_TOP
    ensures var p := PageOf(x);
      && KERNEL_BASE <= p < KERNEL_TOP && PageAligned(p) && PageAligned(p - KERNEL_BASE)
      && p - KERNEL_BASE + x % PAGE_SIZE == x - KERNEL_BASE
      && (KERNEL_LINK <= p < data <==> KERNEL_LINK <= x < data)
  {
    PageInKernel(x);
    InRange(KERNEL_LINK, data, x);
    AlignedSum(PageOf(x), KERNEL_BASE);
  }

  /** `kvm_create` shows x as it should be seen exactly when the word that the kernel's slot of its
      page holds before the call is harmless for x. */
  lemma CreateExact(w: Image, h: Word, q: seq<Word>, spaces: Spaces, data: Word, end: Word, x: Word)
    requires Owned(w, h, q, spaces) && |q| >= 2 && Linked(data, end) && KERNEL_BASE <= x < KERNEL_TOP
    ensures Walk(CreateImage(w, h, data, end), Phys(q[0]), x) == KernelView(data, end, x)
       <==> Harmless(w, q[0], data, end, x)
  {
    hide Owned, Pool, PageUp, Alloc, Big, Present, TableOf, FirstPage, VmMap, Pde, Walk, KernelView, TableWord,
         SmallPage, KernelFrame, SlotSpared, SelfHarmless;
    var d, w1, w4 := q[0], Alloc(w, h), CreateImage(w, h, data, end);
    OwnedPool(w, h, q, spaces);
    DirectoryWords(w, h, q);
    SameTable(w, w1, d, KERNEL_SLOT);
    if !Present(Pde(w, d, KERNEL_SLOT)) {
      CreateView(w, h, q, spaces, data, end, x);
    } else if !SlotSpared(w, d, PageUp(end)) {
      CreateSelf(w, h, q, data, end, x);
    } else if Big(Pde(w, d, KERNEL_SLOT)) {
      CreateShadowed(w, h, q, data, end, x);
    } else {
      CreateStray(w, h, q, data, end, x);
    }
  }

  /** The case of a stray table. */
  lemma CreateStray(w: Image, h: Word, q: seq<Word>, data: Word, end: Word, x: Word)
    requires Pool(w, h, q) && q != [] && Linked(data, end) && KERNEL_BASE <= x < KERNEL_TOP
    requires Present(Pde(w, q[0], KERNEL_SLOT)) && !Big(Pde(w, q[0], KERNEL_SLOT)) && SlotSpared(w, q[0], PageUp(end))
    ensures Walk(CreateImage(w, h, data, end), Phys(q[0]), x) == KernelView(data, end, x)
       <==> Harmless(w, q[0], data, end, x)
  {
    hide Pool, PageUp, Alloc, Big, Present, TableOf, FirstPage, VmMap, Pde, Walk, KernelFrame, MapRange;
    var d, w1, w4 := q[0], Alloc(w, h), CreateImage(w, h, data, end);
    DirectoryWords(w, h, q);
    SameTable(w, w1, d, KERNEL_SLOT);
    EntryOfPage(w1, d, x);
    EntryOfPage(w4, d, x);
    StepsShadowed(w1, h, d, data, end, PageOf(x));
    WalkSlot(w4, d, x);
    InRange(KERNEL_BASE, PageUp(end), x);
    if x < PageUp(end) {
      FrameView(Pde(w, d, KERNEL_SLOT), data, end, x);
    } else {
      Ranges(d, data, end);
      AllocEntry(w, h, q, d, x);
    }
  }

  /** Taking a page gives no present bit to, and takes none from, an entry for a page past KERNEL_LINK. */
  lemma AllocEntry(w: Image, h: Word, q: seq<Word>, d: Word, x: Word)
    requires Pool(w, h, q) && q != [] && KERNEL_LINK <= x < KERNEL_TOP
    requires Pde(Alloc(w, h), d, KERNEL_SLOT) == Pde(w, d, KERNEL_SLOT)
    ensures Present(TableWord(Alloc(w, h), d, x)) == Present(TableWord(w, d, x))
  {
    hide Pool, Alloc, TableOf, Pde, EntryAt, Present;
    var t := TableOf(w, d, KERNEL_SLOT);
    PageInKernel(x);
    SameTable(w, Alloc(w, h), d, KERNEL_SLOT);
    TableAligned(w, d, KERNEL_SLOT);
    EntryCell(t, PtIndex(x));
    AllocParity(w, h, q, EntryAt(t, PtIndex(x)));
  }

  /** The words `kpalloc` changes are pointers before and after, never an entry with the present bit. */
  lemma AllocParity(w: Image, h: Word, q: seq<Word>, c: Word)
    requires Pool(w, h, q) && q != []
    ensures Alloc(w, h)[c] == w[c] || (!Present(Alloc(w, h)[c]) && !Present(w[c]))
  {
    hide Pool, Alloc;
    var w1 := Alloc(w, h);
    AllocPool(w, h, q);
    HeadEven(w, h, q);
    HeadEven(w1, h, q[1..]);
    if PageOf(c) in q && (c % PAGE_SIZE == 4 || c % PAGE_SIZE == 8) {
      NodeEven(w, h, q, PageOf(c));
      if PageOf(c) in q[1..] {
        NodeEven(w1, h, q[1..], PageOf(c));
      } else {
        assert q == [q[0]] + q[1..];
      }
    }
  }

  lemma NodeEven(w: Image, h: Word, q: seq<Word>, p: Word)
    requires Pool(w, h, q) && p in q
    ensures PageAligned(p) && Plus(p, 4) == p + 4 && Plus(p, 8) == p + 8
    ensures !Present(w[Plus(p, 4)]) && !Present(w[Plus(p, 8)])
  {
    var s := [h] + PageNodes(q);
    Members(w, s);
    InPage(p, 8);
    var i :| 0 <= i < |q| && q[i] == p;
    assert s[i + 1] == p + 4 && p + 4 in s;
    assert IsNode(Next(w, p + 4)) && IsNode(Prev(w, p + 4));
  }

  lemma HeadEven(w: Image, h: Word, q: seq<Word>)
    requires Pool(w, h, q)
    ensures !Present(w[h]) && !Present(w[Plus(h, 4)])
  {
    var s := [h] + PageNodes(q);
    Members(w, s);
    assert s[0] == h;
    assert IsNode(Next(w, h)) && IsNode(Prev(w, h));
  }

  // ---------------------------------------------------------------------------------------------
  // A page that names itself
  // ---------------------------------------------------------------------------------------------

  /** The page whose entry goes to the same index as the kernel's slot. If the slot names the
      directory itself, mapping this page overwrites the slot, which from then on names, as the
      kernel's table, this page. */
  const SELF_PAGE: Word := 0x8020_0000

  /** Memory w' as `kvm_create` has made it from w1 when the pages below c are mapped, as far as the
      kernel's slot and the entry of page p in SELF_PAGE are concerned. */
  predicate SelfState(w1: Image, w': Image, d: Word, data: Word, c: Word, p: Word) {
    var cell := EntryAt(SELF_PAGE, PtIndex(p));
    && Pde(w', d, KERNEL_SLOT) == (if c <= SELF_PAGE then Pde(w1, d, KERNEL_SLOT) else KernelFrame(data, SELF_PAGE))
    && w'[cell] == if p < c && (SELF_PAGE < p || d == SELF_PAGE) then KernelFrame(data, p) else w1[cell]
  }

  lemma SelfIndex(c: Word)
    requires PageAligned(c) && KERNEL_BASE <= c < KERNEL_TOP
    ensures PdIndex(c) == KERNEL_SLOT && (PtIndex(c) == KERNEL_SLOT <==> c == SELF_PAGE)
  {
    hide PageOf, PageAligned, PdIndex, PtIndex;
    PageInKernel(c);
    InPage(c, 0);
    SelfPlace();
    SamePage(SELF_PAGE, c);
  }

  lemma SelfPlace()
    ensures PageAligned(SELF_PAGE) && PdIndex(SELF_PAGE) == KERNEL_SLOT && PtIndex(SELF_PAGE) == KERNEL_SLOT
  {
    hide PdIndex, PtIndex;
  }

  /** The entry for SELF_PAGE, taken as a directory entry. */
  lemma SelfEntry(data: Word)
    ensures var e := KernelFrame(data, SELF_PAGE);
      && Present(e) && !Big(e) && !User(e) && Virt(e - e % PAGE_SIZE) == SELF_PAGE
      && (Writable(e) <==> Rights(data, SELF_PAGE) == RDWR)
  {
    PageEntryIs(SELF_PAGE - KERNEL_BASE, Rights(data, SELF_PAGE));
  }

  lemma SelfStep(w1: Image, h: Word, w: Image, d: Word, data: Word, c: Word, p: Word)
    requires PageAligned(d) && PageAligned(c) && PageAligned(p)
    requires KERNEL_BASE <= c < KERNEL_TOP && KERNEL_BASE <= p < KERNEL_TOP
    requires Present(Pde(w1, d, KERNEL_SLOT)) && TableOf(w1, d, KERNEL_SLOT) == d && SelfState(w1, w, d, data, c, p)
    ensures SelfState(w1, MapPage(w, h, d, c, c - KERNEL_BASE, Rights(data, c)), d, data, c + PAGE_SIZE, p)
  {
    hide PageEntry, Rights, MapPage, PageAligned, PdIndex, PtIndex;
    var t := if c <= SELF_PAGE then d else SELF_PAGE;
    SelfIndex(c);
    SelfIndex(p);
    SelfEntry(data);
    SelfSlot(w1, w, d, data, c, p);
    PresentWrite(w, h, d, c, c - KERNEL_BASE, Rights(data, c));
    SelfCells(d, t, c, p);
  }

  lemma SelfSlot(w1: Image, w: Image, d: Word, data: Word, c: Word, p: Word)
    requires KERNEL_BASE <= p < KERNEL_TOP && KERNEL_BASE <= c < KERNEL_TOP && PdIndex(c) == KERNEL_SLOT
    requires Present(Pde(w1, d, KERNEL_SLOT)) && TableOf(w1, d, KERNEL_SLOT) == d && SelfState(w1, w, d, data, c, p)
    ensures Present(Pde(w, d, KERNEL_SLOT))
    ensures Target(w, d, c) == EntryAt(if c <= SELF_PAGE then d else SELF_PAGE, PtIndex(c))
  {
    hide PageEntry, Rights, KernelFrame;
    SelfEntry(data);
  }

  /** Which cells an entry for page c in table t can hit. */
  lemma SelfCells(d: Word, t: Word, c: Word, p: Word)
    requires PageAligned(d) && PageAligned(c) && PageAligned(p) && t == if c <= SELF_PAGE then d else SELF_PAGE
    requires KERNEL_BASE <= c < KERNEL_TOP && KERNEL_BASE <= p < KERNEL_TOP
    ensures EntryAt(t, PtIndex(c)) == EntryAt(d, KERNEL_SLOT) <==> c == SELF_PAGE
    ensures EntryAt(t, PtIndex(c)) == EntryAt(SELF_PAGE, PtIndex(p)) <==> c == p && (SELF_PAGE < c || d == SELF_PAGE)
    ensures c < p ==> c + PAGE_SIZE <= p
    ensures c < SELF_PAGE ==> c + PAGE_SIZE <= SELF_PAGE
  {
    hide EntryAt, PageAligned, PdIndex, PtIndex;
    SelfIndex(c);
    SelfIndex(p);
    InPage(c, 0);
    SamePage(p, c);
    SelfPlace();
    EntriesDiffer(t, PtIndex(c), d, KERNEL_SLOT);
    EntriesDiffer(t, PtIndex(c), SELF_PAGE, PtIndex(p));
    if c < p { NextPage(c, p); }
    if c < SELF_PAGE { NextPage(c, SELF_PAGE); }
  }

  lemma {:induction false} SelfRange(w1: Image, h: Word, w: Image, d: Word, data: Word, curr: Word, last: Word,
                                    permissions: Word, p: Word)
    requires PageAligned(d) && PageAligned(curr) && PageAligned(last) && PageAligned(p)
    requires KERNEL_BASE <= curr <= last <= KERNEL_TOP && KERNEL_BASE <= p < KERNEL_TOP
    requires Present(Pde(w1, d, KERNEL_SLOT)) && TableOf(w1, d, KERNEL_SLOT) == d && SelfState(w1, w, d, data, curr, p)
    requires forall c: Word :: curr <= c < last ==> Rights(data, c) == permissions
    ensures SelfState(w1, MapRange(w, h, d, curr, last, curr - KERNEL_BASE, permissions), d, data, last, p)
    decreases last - curr
  {
    hide SelfState, MapPage, MapRange, Rights, TableOf, Pde, Present;
    if curr < last {
      var pa: Word := curr - KERNEL_BASE;
      MapRangeUnfold(w, h, d, curr, last, pa, permissions);
      SelfStep(w1, h, w, d, data, curr, p);
      assert Rights(data, curr) == permissions && Plus(pa, PAGE_SIZE) == curr + PAGE_SIZE - KERNEL_BASE;
      var w' := MapPage(w, h, d, curr, pa, permissions);
      SelfRange(w1, h, w', d, data, curr + PAGE_SIZE, last, permissions, p);
    } else {
      LoopDone(w, h, d, curr, last, curr - KERNEL_BASE, permissions);
    }
  }

  lemma SelfSteps(w1: Image, h: Word, d: Word, data: Word, end: Word, p: Word)
    requires Linked(data, end) && PageAligned(d) && PageAligned(p) && KERNEL_BASE <= p < KERNEL_TOP
    requires Present(Pde(w1, d, KERNEL_SLOT)) && TableOf(w1, d, KERNEL_SLOT) == d
    ensures var w4 := Data(d, data, end).Do(Code(d, data).Do(IoSpace(d).Do(w1, h), h), h);
      SelfState(w1, w4, d, data, PageUp(end), p)
  {
    hide MapRange, PageUp, PageDown, PteAddr, TableOf, Pde, Present, SelfState;
    var io, code, rw := IoSpace(d), Code(d, data), Data(d, data, end);
    Ranges(d, data, end);
    var w2 := io.Do(w1, h);
    SelfBegins(w1, d, data, p);
    SelfRange(w1, h, w1, d, data, io.First(), io.Last(), RDWR, p);
    SelfRange(w1, h, w2, d, data, code.First(), code.Last(), RDONLY, p);
    SelfRange(w1, h, code.Do(w2, h), d, data, rw.First(), rw.Last(), RDWR, p);
  }

  lemma SelfBegins(w1: Image, d: Word, data: Word, p: Word)
    requires KERNEL_BASE <= p < KERNEL_TOP
    ensures SelfState(w1, w1, d, data, KERNEL_BASE, p)
  {
  }

  /** When a page that names itself does not keep x from being seen as it should be: SELF_PAGE, which
      becomes the table, has no entry for x past the kernel; below, it lets writes through where x is
      writable, and the entry for x is in it, because it went there or because it had it. */
  predicate SelfHarmless(w: Image, d: Word, data: Word, end: Word, x: Word) {
    var word := w[EntryAt(SELF_PAGE, PtIndex(x))];
    if PageUp(end) <= x then !Present(word)
    else
      && (Rights(data, x) == RDWR ==> Rights(data, SELF_PAGE) == RDWR)
      && (x < SELF_PAGE + PAGE_SIZE && d != SELF_PAGE ==> word == KernelFrame(data, PageOf(x)))
  }

  /** Seen through a table entry, x is as it should be exactly when the entry is the one `kvm_create`
      writes for it and the slot lets writes through where x is writable. */
  lemma EntryView(pde: Word, pte: Word, data: Word, end: Word, x: Word)
    requires PageAligned(data) && KERNEL_BASE <= x < KERNEL_TOP && x < PageUp(end) && !User(pde)
    ensures KERNEL_BASE <= PageOf(x) < KERNEL_TOP && PageAligned(PageOf(x))
            && Rights(data, PageOf(x)) == Rights(data, x)
    ensures SmallPage(pde, pte, x) == KernelView(data, end, x)
       <==> pte == KernelFrame(data, PageOf(x)) && (Rights(data, x) == RDWR ==> Writable(pde))
  {
    hide PageEntry, PageUp, PageOf, Writable;
    FramePlace(data, x);
    FrameView(pde, data, end, x);
    if SmallPage(pde, pte, x) == KernelView(data, end, x) {
      PageEntryIs(PageOf(x) - KERNEL_BASE, Rights(data, x));
      assert pte - pte % 0x1000 == PageOf(x) - KERNEL_BASE;
    }
  }

  /** The case of a page that names itself and is overwritten. */
  lemma CreateSelf(w: Image, h: Word, q: seq<Word>, data: Word, end: Word, x: Word)
    requires Pool(w, h, q) && q != [] && Linked(data, end) && KERNEL_BASE <= x < KERNEL_TOP
    requires Present(Pde(w, q[0], KERNEL_SLOT)) && !SlotSpared(w, q[0], PageUp(end))
    ensures Walk(CreateImage(w, h, data, end), Phys(q[0]), x) == KernelView(data, end, x)
       <==> SelfHarmless(w, q[0], data, end, x)
  {
    hide Pool, PageUp, Alloc, FirstPage, VmMap, Walk, MapRange, KernelView, SmallPage;
    var d, w1, w4 := q[0], Alloc(w, h), CreateImage(w, h, data, end);
    DirectoryWords(w, h, q);
    SameTable(w, w1, d, KERNEL_SLOT);
    PageInKernel(x);
    SelfSteps(w1, h, d, data, end, PageOf(x));
    SelfWalk(w1, w4, d, data, end, x);
    AllocParity(w, h, q, EntryAt(SELF_PAGE, PtIndex(x)));
    PageEntryPresent(Phys(PageOf(x)), Rights(data, PageOf(x)));
  }

  lemma LinkedParts(data: Word, end: Word)
    requires Linked(data, end)
    ensures PageAligned(data) && PageAligned(PageUp(end)) && KERNEL_LINK <= data <= PageUp(end) <= KERNEL_TOP
  {
    hide PageUp;
    Ranges(0, data, end);
    PageUpAligned(end);
  }

  /** The view of x once all pages of the kernel are mapped. */
  lemma SelfWalk(w1: Image, w4: Image, d: Word, data: Word, end: Word, x: Word)
    requires Linked(data, end) && PageAligned(d) && KERNEL_BASE <= x < KERNEL_TOP && SELF_PAGE < PageUp(end)
    requires KERNEL_BASE <= PageOf(x) < KERNEL_TOP && SelfState(w1, w4, d, data, PageUp(end), PageOf(x))
    ensures Walk(w4, Phys(d), x) == KernelView(data, end, x) <==> SelfHarmless(w1, d, data, end, x)
  {
    hide Walk, PageUp, PageEntry, PageOf, KernelFrame, Rights, Writable, User, Linked, PdIndex, PtIndex;
    LinkedParts(data, end);
    PageInKernel(x);
    SamePage(PageOf(x), x);
    SelfPlace();
    InRange(KERNEL_BASE, PageUp(end), x);
    InRange(KERNEL_BASE, SELF_PAGE + PAGE_SIZE, x);
    SelfEntry(data);
    WalkSlot(w4, d, x);
    if x < PageUp(end) { EntryView(KernelFrame(data, SELF_PAGE), TableWord(w4, d, x), data, end, x); }
  }

  lemma EntryOfPage(w: Image, d: Word, x: Word)
    requires KERNEL_BASE <= x < KERNEL_TOP
    ensures TableWord(w, d, x) == TableWord(w, d, PageOf(x)) && PageAligned(PageOf(x))
    ensures KERNEL_BASE <= PageOf(x) < KERNEL_TOP && PdIndex(x) == KERNEL_SLOT
  {
    hide Pde, TableOf;
    PageInKernel(x);
    SamePage(PageOf(x), x);
  }

  lemma PageInKernel(x: Word)
    requires KERNEL_BASE <= x < KERNEL_TOP
    ensures PageAligned(PageOf(x)) && KERNEL_BASE <= PageOf(x) < KERNEL_TOP && PdIndex(x) == KERNEL_SLOT
    ensures x >= KERNEL_LINK ==> PtIndex(x) >= 256
  {
    hide PageOf;
    PageOfAligned(x);
    InRange(KERNEL_BASE, KERNEL_TOP, x);
    KernelIndices(x);
  }

  lemma KernelIndices(x: Word)
    requires KERNEL_BASE <= x < KERNEL_TOP
    ensures x / 0x40_0000 == KERNEL_SLOT && (x >= KERNEL_LINK ==> x / 0x1000 % 1024 >= 256)
  {
    var k := x / 0x1000;
    assert k >= 0x8_0000 && k < 0x8_0400;
  }

  ghost predicate RequestServed(w: Image, h: Word, q: seq<Word>, a: Request) {
    Served(w, h, q, a.d, a.First(), a.Last(), a.paddr, a.permissions)
  }

  /** Each of the three calls finds its slots served. */
  lemma CreateServed(w: Image, h: Word, q: seq<Word>, spaces: Spaces, data: Word, end: Word) returns (r: seq<Word>)
    requires Owned(w, h, q, spaces) && |q| >= 2 && Linked(data, end)
    ensures var d, w1 := q[0], Alloc(w, h);
      var w2 := IoSpace(d).Do(w1, h);
      var w3 := Code(d, data).Do(w2, h);
      && Pool(w, h, q) && IsPage(d) && RequestServed(w1, h, q[1..], IoSpace(d))
      && RequestServed(w2, h, r, Code(d, data)) && RequestServed(w3, h, r, Data(d, data, end))
      && CreateImage(w, h, data, end) == Data(d, data, end).Do(w3, h)
  {
    hide Owned, Pool, Alloc, Ready, MapRange, Served, Missing, PageUp, Pde, Present, TableOf, VmMap, SlotOpen;
    OwnedPool(w, h, q, spaces);
    DirectoryWords(w, h, q);
    if !Present(Pde(w, q[0], KERNEL_SLOT)) {
      CreateServedEmpty(w, h, q, spaces, data, end);
      r := q[2..];
    } else {
      SameTable(w, Alloc(w, h), q[0], KERNEL_SLOT);
      CreateServedStray(Alloc(w, h), h, q[0], q[1..], data, end);
      r := q[1..];
    }
  }

  lemma CreateServedEmpty(w: Image, h: Word, q: seq<Word>, spaces: Spaces, data: Word, end: Word)
    requires CanCreate(w, h, q, spaces) && Linked(data, end)
    ensures var d, w1 := q[0], Alloc(w, h);
      var w2 := IoSpace(d).Do(w1, h);
      && RequestServed(w1, h, q[1..], IoSpace(d)) && RequestServed(w2, h, q[2..], Code(d, data))
      && RequestServed(Code(d, data).Do(w2, h), h, q[2..], Data(d, data, end))
  {
    hide Owned, Ready, MapRange, Served, Missing, CreateImage, SlotOpen, TableOf, Pde, PageUp, PageDown, PteAddr;
    var w1, w2, w3, w4, spaces' := CreateSteps(w, h, q, spaces, data, end);
    var io, code, rw := IoSpace(q[0]), Code(q[0], data), Data(q[0], data, end);
    ReadyServed(w1, h, q[1..], spaces', io.d, io.First(), io.Last(), io.paddr, io.permissions);
    ReadyServed(w2, h, q[2..], spaces', code.d, code.First(), code.Last(), code.paddr, code.permissions);
    ReadyServed(w3, h, q[2..], spaces', rw.d, rw.First(), rw.Last(), rw.paddr, rw.permissions);
  }

  lemma CreateServedStray(w1: Image, h: Word, d: Word, r: seq<Word>, data: Word, end: Word)
    requires Linked(data, end) && Present(Pde(w1, d, KERNEL_SLOT))
    ensures var w2 := IoSpace(d).Do(w1, h);
      && RequestServed(w1, h, r, IoSpace(d)) && RequestServed(w2, h, r, Code(d, data))
      && RequestServed(Code(d, data).Do(w2, h), h, r, Data(d, data, end))
  {
    hide MapRange, Served, PageUp, PageDown, PteAddr, Pde, Present;
    var io, code, rw := IoSpace(d), Code(d, data), Data(d, data, end);
    Ranges(d, data, end);
    var w2 := io.Do(w1, h);
    PresentServed(w1, h, r, d, KERNEL_SLOT, io.First(), io.Last(), io.paddr, io.permissions);
    PresentServed(w2, h, r, d, KERNEL_SLOT, code.First(), code.Last(), code.paddr, code.permissions);
    PresentServed(code.Do(w2, h), h, r, d, KERNEL_SLOT, rw.First(), rw.Last(), rw.paddr, rw.permissions);
  }

  method KvmCreate(m: Ram, h: Word, data: Word, end: Word, ghost q: seq<Word>, ghost spaces: Spaces)
    returns (pagedir: Word)
    requires Owned(m.cells, h, q, spaces) && |q| >= 2 && Linked(data, end)
    modifies m
    ensures m.cells == CreateImage(old(m.cells), h, data, end) && pagedir == q[0]
  {
    hide Owned, Pool, MapRange, Served, CreateImage, TableOf, Pde, PageUp, PageDown, PteAddr;
    ghost var r := CreateServed(m.cells, h, q, spaces, data, end);
    Ranges(q[0], data, end);
    pagedir := Kpalloc(m, h, q);
    assert pagedir != 0;
    var n := VmMapPages(m, h, pagedir, KERNEL_BASE, 0, EXTENDED_MEM, RDWR, q[1..]);
    n := VmMapPages(m, h, pagedir, KERNEL_LINK, EXTENDED_MEM, Minus(Phys(data), EXTENDED_MEM), RDONLY, r);
    n := VmMapPages(m, h, pagedir, data, Phys(data), Minus(end, data), RDWR, r);
  }

  // ---------------------------------------------------------------------------------------------
  // kvm_init
  // ---------------------------------------------------------------------------------------------

  /** The boot directory's entry for a 4 MB page at physical 0: present, writable, PS. */
  const BOOT_ENTRY: Word := 0x83

  /** The state `kvm_init` starts from: an empty registry; the boot directory of arch/i386/paging.c
      and the registry inside the kernel image; and room for two pages after it. */
  ghost predicate BootState(w: Image, h: Word, boot: Word, data: Word, end: Word) {
    && Ring(w, [h]) && KERNEL_BASE <= h && h + 8 <= end
    && Linked(data, end) && PageUp(end) + 2 * PAGE_SIZE <= KERNEL_TOP
    && PageAligned(boot) && KERNEL_BASE <= boot && boot + PAGE_SIZE <= end && Outside(h, boot)
    && (forall i :: 0 <= i < 1024 ==> Pde(w, boot, i) == if i == 0 || i == KERNEL_SLOT then BOOT_ENTRY else 0)
  }

  /** And no present bit where the directory entry of the kernel slot is going to be. */
  ghost predicate BootReady(w: Image, h: Word, boot: Word, data: Word, end: Word) {
    BootState(w, h, boot, data, end) && !Present(Pde(w, PageUp(end), KERNEL_SLOT))
  }

  function FreedPages(end: Word): seq<Word> { PagesFrom(PageUp(end), KERNEL_TOP) }

  /** The page that becomes the directory, the page that becomes its table, and the pages still free. */
  function DirPage(end: Word): Word { PageUp(end) }

  function TablePage(end: Word): Word { Plus(PageUp(end), PAGE_SIZE) }

  function LeftOver(end: Word): seq<Word> { if |FreedPages(end)| < 2 then [] else FreedPages(end)[2..] }

  function FreedImage(w: Image, h: Word, boot: Word, end: Word): Image {
    FreeAll(w[boot := 0], h, FreedPages(end))
  }

  function InitImage(w: Image, h: Word, boot: Word, data: Word, end: Word): Image {
    CreateImage(FreedImage(w, h, boot, end), h, data, end)
  }

  function SlotsBelow(n: nat): (s: set<nat>)
    ensures forall i: nat :: i in s <==> i < n
  {
    if n == 0 then {} else SlotsBelow(n - 1) + {n - 1}
  }

  function BootSpaces(boot: Word): Spaces { map[boot := SlotsBelow(1024)] }

  /** Where freeing the pages ps does not write: it writes to the list and to the first three words of
      those pages. */
  predicate Beside(h: Word, ps: seq<Word>, x: Word) {
    x != h && x != Plus(h, 4) && (x % PAGE_SIZE > 8 || PageOf(x) !in ps)
  }

  /** Freeing a run of pages in a system that has no page tables yet. */
  lemma {:induction false} FreeAllOwned(w: Image, h: Word, q: seq<Word>, spaces: Spaces, ps: seq<Word>)
    requires Owned(w, h, q, spaces) && (forall d, i :: !Tabled(w, spaces, d, i))
    requires forall p :: p in ps ==> IsPage(p) && Outside(h, p) && p !in q && p !in spaces
    requires forall i, j :: 0 <= i < j < |ps| ==> ps[i] != ps[j]
    ensures Owned(FreeAll(w, h, ps), h, q + ps, spaces)
    ensures forall x: Word :: Beside(h, q + ps, x) ==> FreeAll(w, h, ps)[x] == w[x]
    ensures forall d, i :: d in spaces && 0 <= i < 1024 ==> Pde(FreeAll(w, h, ps), d, i) == Pde(w, d, i)
    decreases |ps|
  {
    hide Owned, Free, Tabled, Outside, IsPage, Pde;
    if ps == [] {
      assert q + ps == q;
    } else {
      var p, w1 := ps[0], Free(w, h, ps[0]);
      FreeOneOwned(w, h, q, spaces, p);
      assert forall i :: 0 <= i < |ps| - 1 ==> ps[1..][i] == ps[i + 1];
      FreeAllOwned(w1, h, q + [p], spaces, ps[1..]);
      assert q + [p] + ps[1..] == q + ps;
    }
  }

  lemma FreeOneOwned(w: Image, h: Word, q: seq<Word>, spaces: Spaces, p: Word)
    requires Owned(w, h, q, spaces) && (forall d, i :: !Tabled(w, spaces, d, i))
    requires IsPage(p) && Outside(h, p) && p !in q && p !in spaces
    ensures var w1 := Free(w, h, p);
      && Owned(w1, h, q + [p], spaces) && (forall d, i :: !Tabled(w1, spaces, d, i))
      && (forall x: Word :: Beside(h, q + [p], x) ==> w1[x] == w[x])
      && (forall d, i :: d in spaces && 0 <= i < 1024 ==> Pde(w1, d, i) == Pde(w, d, i))
  {
    var w1 := Free(w, h, p);
    FreePool(w, h, q, p);
    FreeKeepsOwned(w, h, q, spaces, p);
    forall d, i | d in spaces && 0 <= i < 1024 ensures Pde(w1, d, i) == Pde(w, d, i) {
      EntryCell(d, i);
      NotInside(h, d);
      InPage(p, 0);
    }
    forall d, i: nat ensures !Tabled(w1, spaces, d, i) {
      assert !Tabled(w, spaces, d, i);
      assert d in spaces && 0 <= i < 1024 ==> Pde(w1, d, i) == Pde(w, d, i);
    }
  }

  /** After `kpfree_range` the allocator holds every whole page between the kernel's end and 4 MB. */
  lemma BootFreed(w: Image, h: Word, boot: Word, data: Word, end: Word)
    requires BootState(w, h, boot, data, end)
    ensures var w0, w1, ps := w[boot := 0], FreedImage(w, h, boot, end), FreedPages(end);
      && Pool(w0, h, []) && (forall p :: p in ps ==> IsPage(p) && Outside(h, p))
      && Owned(w1, h, ps, BootSpaces(boot)) && ps == [DirPage(end), TablePage(end)] + LeftOver(end)
      && Pde(w1, DirPage(end), KERNEL_SLOT) == Pde(w, DirPage(end), KERNEL_SLOT)
      && (forall i :: 0 <= i < 1024 ==> Pde(w1, boot, i) == if i == KERNEL_SLOT then BOOT_ENTRY else 0)
      && (forall x: Word :: Beside(h, ps, x) ==> w1[x] == w0[x])
  {
    hide Owned, FreeAll, PagesFrom, PageUp, Pool, Ring;
    var w0, w1, ps, first := w[boot := 0], FreedImage(w, h, boot, end), FreedPages(end), PageUp(end);
    BootStart(w, h, boot, data, end);
    BootPages(h, boot, data, end);
    FreeAllOwned(w0, h, [], BootSpaces(boot), ps);
    assert [] + ps == ps && boot in BootSpaces(boot);
    DirectoryWord(w, w1, h, boot, end, first);
  }

  lemma BootCanCreate(w: Image, h: Word, boot: Word, data: Word, end: Word)
    requires BootReady(w, h, boot, data, end)
    ensures BootState(w, h, boot, data, end) && Linked(data, end)
    ensures CanCreate(FreedImage(w, h, boot, end), h, FreedPages(end), BootSpaces(boot))
  {
    hide Owned, FreedImage, FreedPages, LeftOver, Pde, Present, PageUp, BootSpaces;
    BootFreed(w, h, boot, data, end);
  }

  lemma BootPages(h: Word, boot: Word, data: Word, end: Word)
    requires Linked(data, end) && PageUp(end) + 2 * PAGE_SIZE <= KERNEL_TOP
    requires h + 8 <= end && boot + PAGE_SIZE <= end
    ensures var ps := FreedPages(end);
      && (forall p :: p in ps ==> IsPage(p) && Outside(h, p) && p != boot)
      && (forall i, j :: 0 <= i < j < |ps| ==> ps[i] != ps[j])
      && ps == [DirPage(end), TablePage(end)] + LeftOver(end)
      && Outside(h, DirPage(end)) && PageAligned(DirPage(end)) && DirPage(end) != boot
  {
    hide PageUp;
    var first, ps := PageUp(end), FreedPages(end);
    forall p | p in ps ensures IsPage(p) && Outside(h, p) && p != boot {
      PagesFromExact(first, KERNEL_TOP, p);
    }
    PagesFromAscending(first, KERNEL_TOP);
    TwoPages(first);
  }

  lemma DirectoryWord(w: Image, w1: Image, h: Word, boot: Word, end: Word, first: Word)
    requires PageAligned(first) && PageAligned(boot) && first != boot && IsNode(h) && Outside(h, first)
    requires forall x: Word :: Beside(h, FreedPages(end), x) ==> w1[x] == w[boot := 0][x]
    ensures Pde(w1, first, KERNEL_SLOT) == Pde(w, first, KERNEL_SLOT)
  {
    EntryCell(first, KERNEL_SLOT);
    EntryCell(boot, 0);
    NotInside(h, first);
  }

  lemma TwoPages(first: Word)
    requires PageAligned(first) && first + 2 * PAGE_SIZE <= KERNEL_TOP
    ensures PageAligned(first + 2 * PAGE_SIZE)
    ensures PagesFrom(first, KERNEL_TOP) == [first, first + PAGE_SIZE] + PagesFrom(first + 2 * PAGE_SIZE, KERNEL_TOP)
  {
    NextPage(first, KERNEL_TOP);
    var rest := PagesFrom(first + PAGE_SIZE, KERNEL_TOP);
    assert rest == [first + PAGE_SIZE] + PagesFrom(first + 2 * PAGE_SIZE, KERNEL_TOP);
    assert PagesFrom(first, KERNEL_TOP) == [first] + rest;
  }

  lemma IdentityDropped(w: Image, boot: Word)
    requires PageAligned(boot)
    requires forall i :: 0 <= i < 1024 ==> Pde(w, boot, i) == if i == 0 || i == KERNEL_SLOT then BOOT_ENTRY else 0
    ensures var w0 := w[boot := 0];
      forall i :: 0 <= i < 1024 ==> Pde(w0, boot, i) == if i == KERNEL_SLOT then BOOT_ENTRY else 0
  {
    var w0 := w[boot := 0];
    forall i | 0 <= i < 1024 ensures Pde(w0, boot, i) == if i == KERNEL_SLOT then BOOT_ENTRY else 0 {
      EntryCell(boot, i);
      assert Pde(w, boot, i) == if i == 0 || i == KERNEL_SLOT then BOOT_ENTRY else 0;
    }
  }

  /** The boot directory with its identity mapping dropped, and an empty pool. */
  lemma BootStart(w: Image, h: Word, boot: Word, data: Word, end: Word)
    requires BootState(w, h, boot, data, end)
    ensures IsNode(h)
    ensures var w0 := w[boot := 0];
      && Pool(w0, h, []) && Owned(w0, h, [], BootSpaces(boot)) && (forall d, i :: !Tabled(w0, BootSpaces(boot), d, i))
      && (forall i :: 0 <= i < 1024 ==> Pde(w0, boot, i) == if i == KERNEL_SLOT then BOOT_ENTRY else 0)
  {
    hide PageUp, Pde, Owned, Pool;
    IdentityDropped(w, boot);
    EmptyPool(w, h, boot);
    NoTables(w[boot := 0], h, boot);
  }

  lemma EmptyPool(w: Image, h: Word, boot: Word)
    requires Ring(w, [h]) && PageAligned(boot) && Outside(h, boot)
    ensures IsNode(h) && Pool(w[boot := 0], h, [])
  {
    assert [h][0] == h && [h] + PageNodes([]) == [h];
    NotInside(h, boot);
    InPage(boot, 0);
    SameLinks(w, w[boot := 0], [h]);
  }

  lemma NoTables(w: Image, h: Word, boot: Word)
    requires Pool(w, h, []) && PageAligned(boot) && Outside(h, boot)
    requires forall i :: 0 <= i < 1024 ==> Pde(w, boot, i) == if i == KERNEL_SLOT then BOOT_ENTRY else 0
    ensures Owned(w, h, [], BootSpaces(boot)) && (forall d, i :: !Tabled(w, BootSpaces(boot), d, i))
  {
    hide Pool, Pde, SlotsBelow;
    assert Big(BOOT_ENTRY);
  }

  /** The state `kvm_init` leaves behind: its directory is the first page after the kernel image and
      its one table the second; the free pages are all those after them, up to 4 MB. */
  lemma BootOwned(w: Image, h: Word, boot: Word, data: Word, end: Word)
    requires BootReady(w, h, boot, data, end)
    ensures var w', d := InitImage(w, h, boot, data, end), DirPage(end);
      && Owned(w', h, LeftOver(end), BootSpaces(boot)[d := {KERNEL_SLOT}])
      && TableOf(w', d, KERNEL_SLOT) == TablePage(end) && Pde(w', d, 0) == MAGIC
      && (forall i :: 0 <= i < 1024 ==> Pde(w', boot, i) == if i == KERNEL_SLOT then BOOT_ENTRY else 0)
  {
    hide Owned, CreateImage, FreedImage, PageUp, TableOf, BootReady, BootState, LeftOver, PagesFrom, Ready,
         Pde, DirPage, TablePage;
    var w1, ps, d := FreedImage(w, h, boot, end), FreedPages(end), DirPage(end);
    BootCanCreate(w, h, boot, data, end);
    BootLinked(w, h, boot, data, end);
    BootFreed(w, h, boot, data, end);
    var _, _, _, w', spaces' := CreateSteps(w1, h, ps, BootSpaces(boot), data, end);
    assert ps[2..] == LeftOver(end) && boot in BootSpaces(boot);
  }

  lemma BootLinked(w: Image, h: Word, boot: Word, data: Word, end: Word)
    requires BootState(w, h, boot, data, end)
    ensures Linked(data, end) && PageAligned(boot) && PageAligned(DirPage(end)) && DirPage(end) == PageUp(end)
  {
    hide PageUp;
  }

  /** All the pages still free lie beyond the kernel image and the two pages of its page tables. */
  lemma BootFree(w: Image, h: Word, boot: Word, data: Word, end: Word, p: Word)
    requires BootReady(w, h, boot, data, end)
    ensures p in LeftOver(end) <==> PageAligned(p) && TablePage(end) < p < KERNEL_TOP
    ensures end <= DirPage(end) < TablePage(end)
  {
    hide PageUp, Ring, Pde, PagesFrom;
    BootCanCreate(w, h, boot, data, end);
    BootLinked(w, h, boot, data, end);
    TwoPages(PageUp(end));
    PagesFromExact(PageUp(end) + 2 * PAGE_SIZE, KERNEL_TOP, p);
    if PageAligned(p) && TablePage(end) < p { PagesApart(TablePage(end), p); }
  }

  /** The boot theorem. In the kernel's 4 MB the new directory shows exactly KernelView, and wherever
      that is mapped it names the same physical address as the boot directory does. With the identity
      mapping of the low 4 MB gone, the boot directory maps nothing else; the new one, whose first word
      is still the allocator's magic number, faults in the low 4 MB with a reserved bit. */
  lemma BootView(w: Image, h: Word, boot: Word, data: Word, end: Word, x: Word)
    requires BootReady(w, h, boot, data, end)
    ensures var w', d := InitImage(w, h, boot, data, end), DirPage(end);
      && (KERNEL_BASE <= x < KERNEL_TOP ==>
            && Walk(w', Phys(d), x) == KernelView(data, end, x)
            && Walk(w', Phys(boot), x) == Maps(x - KERNEL_BASE, BOOT_ENTRY, true, false))
      && (x < KERNEL_BASE || x >= KERNEL_TOP ==> Walk(w', Phys(boot), x) == NotPresent)
      && (x < 4 * MB ==> Walk(w', Phys(d), x) == ReservedBit)
  {
    hide Owned, CreateImage, KernelView, FreedImage, PageUp, Walk, Pde, DirPage, BootReady, BootState;
    var d, w' := DirPage(end), InitImage(w, h, boot, data, end);
    BootCanCreate(w, h, boot, data, end);
    BootLinked(w, h, boot, data, end);
    BootOwned(w, h, boot, data, end);
    BootWalk(w', boot, x);
    MagicWalk(w', d, x);
    if KERNEL_BASE <= x < KERNEL_TOP {
      BootFreed(w, h, boot, data, end);
      CreateView(FreedImage(w, h, boot, end), h, FreedPages(end), BootSpaces(boot), data, end, x);
    }
  }

  lemma BootWalk(w: Image, boot: Word, x: Word)
    requires PageAligned(boot)
    requires forall i :: 0 <= i < 1024 ==> Pde(w, boot, i) == if i == KERNEL_SLOT then BOOT_ENTRY else 0
    ensures KERNEL_BASE <= x < KERNEL_TOP ==> Walk(w, Phys(boot), x) == Maps(x - KERNEL_BASE, BOOT_ENTRY, true, false)
    ensures x < KERNEL_BASE || x >= KERNEL_TOP ==> Walk(w, Phys(boot), x) == NotPresent
  {
    hide Walk, Pde, BigPage, TableWord;
    WalkIs(w, boot, x);
    assert Pde(w, boot, PdIndex(x)) == if PdIndex(x) == KERNEL_SLOT then BOOT_ENTRY else 0;
    BootEntryMaps(x);
  }

  lemma BootEntryMaps(x: Word)
    ensures PdIndex(x) == KERNEL_SLOT <==> KERNEL_BASE <= x < KERNEL_TOP
    ensures KERNEL_BASE <= x < KERNEL_TOP ==> BigPage(BOOT_ENTRY, x) == Maps(x - KERNEL_BASE, BOOT_ENTRY, true, false)
  {
  }

  lemma MagicReserved(x: Word)
    ensures Present(MAGIC) && Big(MAGIC) && BigPage(MAGIC, x) == ReservedBit
  {
  }

  /** Taken as a directory entry, the magic number is a 4 MB page with reserved bits set. */
  lemma MagicWalk(w: Image, d: Word, x: Word)
    requires PageAligned(d) && Pde(w, d, 0) == MAGIC
    ensures x < 4 * MB ==> Walk(w, Phys(d), x) == ReservedBit
  {
    hide Walk, BigPage, TableWord, SmallPage, Pde, PdIndex, PtIndex;
    WalkIs(w, d, x);
    MagicReserved(x);
  }

  lemma BootServed(w: Image, h: Word, boot: Word, data: Word, end: Word)
    requires BootState(w, h, boot, data, end)
    ensures Linked(data, end) && boot % 4 == 0
    ensures var ps := FreedPages(end);
      && Owned(FreedImage(w, h, boot, end), h, ps, BootSpaces(boot)) && |ps| >= 2 && ps[0] == DirPage(end)
      && Pool(w[boot := 0], h, []) && (forall p :: p in ps ==> IsPage(p) && Outside(h, p))
  {
    hide BootState, Owned, Pool, PageUp, FreedImage, FreedPages, LeftOver, BootSpaces;
    BootLinked(w, h, boot, data, end);
    BootFreed(w, h, boot, data, end);
    Aligned4(boot);
  }

  /** Without knowing what the page past the kernel held: `kvm_init` shows x as it should be seen
      exactly when the word that page held in the kernel's slot was harmless for x. */
  lemma BootExact(w: Image, h: Word, boot: Word, data: Word, end: Word, x: Word)
    requires BootState(w, h, boot, data, end) && KERNEL_BASE <= x < KERNEL_TOP
    ensures Walk(InitImage(w, h, boot, data, end), Phys(DirPage(end)), x) == KernelView(data, end, x)
       <==> Harmless(w, DirPage(end), data, end, x)
  {
    hide BootState, Owned, Pool, Present, PageUp, Pde, Walk, KernelView, CreateImage, FreedImage, FreedPages,
         LeftOver, BootSpaces, Harmless;
    BootLinked(w, h, boot, data, end);
    BootServed(w, h, boot, data, end);
    CreateExact(FreedImage(w, h, boot, end), h, FreedPages(end), BootSpaces(boot), data, end, x);
    FreedHarmless(w, h, boot, data, end, x);
  }

  /** Freeing the pages past the kernel does not change what is harmless. */
  lemma FreedHarmless(w: Image, h: Word, boot: Word, data: Word, end: Word, x: Word)
    requires BootState(w, h, boot, data, end) && KERNEL_BASE <= x < KERNEL_TOP
    ensures Harmless(FreedImage(w, h, boot, end), DirPage(end), data, end, x) == Harmless(w, DirPage(end), data, end, x)
  {
    hide BootState, Owned, Pool, Present, PageUp, Pde, FreedImage, FreedPages, LeftOver, BootSpaces, TableOf,
         EntryAt, Big, Writable;
    var d, w1, t := DirPage(end), FreedImage(w, h, boot, end), TableOf(w, DirPage(end), KERNEL_SLOT);
    BootLinked(w, h, boot, data, end);
    BootFreed(w, h, boot, data, end);
    SameTable(w, w1, d, KERNEL_SLOT);
    PageInKernel(x);
    TableAligned(w, d, KERNEL_SLOT);
    EntryCell(t, PtIndex(x));
    EntryCell(SELF_PAGE, PtIndex(x));
    if PageUp(end) <= x {
      LinkedParts(data, end);
      FreedWord(w, h, boot, data, end, EntryAt(t, PtIndex(x)));
      FreedWord(w, h, boot, data, end, EntryAt(SELF_PAGE, PtIndex(x)));
    } else if !SlotSpared(w, d, PageUp(end)) {
      SelfFreed(w, h, boot, data, end, x);
    }
  }

  /** Freeing the pages past the kernel gives no present bit to, and takes none from, any word but the
      magic numbers and the first word of the boot directory. */
  lemma FreedWord(w: Image, h: Word, boot: Word, data: Word, end: Word, c: Word)
    requires BootState(w, h, boot, data, end) && c != boot && (c % PAGE_SIZE >= 1024 || PageOf(c) < PageUp(end))
    ensures var w1 := FreedImage(w, h, boot, end); w1[c] == w[c] || (!Present(w1[c]) && !Present(w[c]))
  {
    hide BootState, Owned, Pool, FreedImage, LeftOver, BootSpaces, Present, PageUp, PagesFrom;
    var w0, w1 := w[boot := 0], FreedImage(w, h, boot, end);
    BootLinked(w, h, boot, data, end);
    BootFreed(w, h, boot, data, end);
    HeadEven(w0, h, []);
    OwnedPool(w1, h, FreedPages(end), BootSpaces(boot));
    HeadEven(w1, h, FreedPages(end));
    PagesFromExact(PageUp(end), KERNEL_TOP, PageOf(c));
    assert Beside(h, FreedPages(end), c) ==> w1[c] == w0[c];
  }

  /** A word of SELF_PAGE is the entry of its page after the pages are freed exactly when it was before. */
  lemma SelfFreed(w: Image, h: Word, boot: Word, data: Word, end: Word, x: Word)
    requires BootState(w, h, boot, data, end) && KERNEL_BASE <= x < PageUp(end) && SELF_PAGE < PageUp(end)
    requires x < KERNEL_TOP
    ensures SelfHarmless(FreedImage(w, h, boot, end), DirPage(end), data, end, x)
         == SelfHarmless(w, DirPage(end), data, end, x)
  {
    hide BootState, FreedImage, PageUp, PageEntry, Present, EntryAt;
    var c := EntryAt(SELF_PAGE, PtIndex(x));
    PageInKernel(x);
    EntryCell(SELF_PAGE, PtIndex(x));
    PageEntryPresent(Phys(PageOf(x)), Rights(data, PageOf(x)));
    BootLinked(w, h, boot, data, end);
    InPage(boot, 0);
    if c == boot {
      FirstEntry(w, h, boot, data, end, x);
    } else {
      FreedWord(w, h, boot, data, end, c);
    }
  }

  /** Should the boot directory be SELF_PAGE, neither of the two values of its first word is the entry
      of the kernel's first page. */
  lemma FirstEntry(w: Image, h: Word, boot: Word, data: Word, end: Word, x: Word)
    requires BootState(w, h, boot, data, end) && KERNEL_BASE <= x < KERNEL_TOP
    requires boot == SELF_PAGE == EntryAt(SELF_PAGE, PtIndex(x))
    ensures var e := KernelFrame(data, PageOf(x)); w[boot] != e && FreedImage(w, h, boot, end)[boot] != e
  {
    hide BootState, FreedImage, PageEntry, PageOf, PdIndex, PtIndex;
    PageInKernel(x);
    EntryCell(SELF_PAGE, PtIndex(x));
    SamePage(KERNEL_BASE, x);
    BootWords(w, h, boot, data, end);
    PageEntryIs(0, Rights(data, KERNEL_BASE));
  }

  lemma BootWords(w: Image, h: Word, boot: Word, data: Word, end: Word)
    requires BootState(w, h, boot, data, end)
    ensures w[boot] == BOOT_ENTRY && FreedImage(w, h, boot, end)[boot] == 0
  {
    hide FreedImage, PageUp, Owned, Pool, FreedPages, LeftOver, BootSpaces, Ring;
    EntryCell(boot, 0);
    BootFreed(w, h, boot, data, end);
    assert Pde(w, boot, 0) == BOOT_ENTRY && Pde(FreedImage(w, h, boot, end), boot, 0) == 0;
  }

  /** The page that code looking for a page table behind the magic number ends up writing to. */
  const MAGIC_TABLE: Word := 0x5EAD_B000

  /** A request for pages in the low 4 MB of a directory that has the magic number for its first word. */
  predicate Low(d: Word, a: Request) { a.d == d && a.Proper() && a.Last() <= 4 * MB }

  ghost predicate MagicFirst(w: Image, d: Word) { PageAligned(d) && d != MAGIC_TABLE && Pde(w, d, 0) == MAGIC }

  /** Such a request leaves the magic number where it is, and scatters its entries over a page that
      the memory manager has nothing to do with. */
  lemma LowRequest(w: Image, h: Word, d: Word, a: Request, p: Word)
    requires MagicFirst(w, d) && Low(d, a)
    ensures MagicFirst(a.Do(w, h), d)
    ensures forall y: Word :: PageOf(y) != MAGIC_TABLE ==> a.Do(w, h)[y] == w[y]
    ensures PageAligned(p) && a.First() <= p < a.Last() ==>
              a.Do(w, h)[EntryAt(MAGIC_TABLE, PtIndex(p))] == PageEntry(FrameFor(a.First(), a.paddr, p), a.permissions)
  {
    hide PageEntry, MapRange, PageUp, PageDown, PteAddr, TableOf, Pde;
    MagicIsTable(w, d);
    if a.First() <= a.Last() {
      RangeInPlace(w, h, d, 0, a.First(), a.Last(), a.paddr, a.permissions, 0);
      RangeElsewhere(w, h, d, 0, a.First(), a.Last(), a.paddr, a.permissions);
      if PageAligned(p) && a.First() <= p < a.Last() {
        RangeInPlace(w, h, d, 0, a.First(), a.Last(), a.paddr, a.permissions, p);
        SameTable(w, a.Do(w, h), d, 0);
      }
    } else {
      LoopDone(w, h, d, a.First(), a.Last(), a.paddr, a.permissions);
    }
  }

  /** Taken as the entry of a page table, the magic number leads to that page. */
  lemma MagicIsTable(w: Image, d: Word)
    requires Pde(w, d, 0) == MAGIC
    ensures Present(Pde(w, d, 0)) && TableOf(w, d, 0) == MAGIC_TABLE
  {
  }

  /** However many requests are made, the low 4 MB are never mapped. */
  lemma {:induction false} LowRequests(w: Image, h: Word, d: Word, requests: seq<Request>, x: Word)
    requires MagicFirst(w, d) && (forall a :: a in requests ==> Low(d, a))
    ensures MagicFirst(DoAll(w, h, requests), d)
    ensures x < 4 * MB ==> Walk(DoAll(w, h, requests), Phys(d), x) == ReservedBit
    ensures forall y: Word :: PageOf(y) != MAGIC_TABLE ==> DoAll(w, h, requests)[y] == w[y]
    decreases |requests|
  {
    hide Walk, Low, Pde;
    if requests == [] {
      MagicWalk(w, d, x);
    } else {
      LowRequest(w, h, d, requests[0], 0);
      LowRequests(requests[0].Do(w, h), h, d, requests[1..], x);
    }
  }

  /** The directory `kvm_init` builds can never map the low 4 MB: any number of requests to map pages
      there leaves every address of them faulting, and what they write goes to a page that the boot
      directory, under which `kvm_init` runs and returns, does not map at all. */
  lemma BootLow(w: Image, h: Word, boot: Word, data: Word, end: Word, requests: seq<Request>, x: Word)
    requires BootReady(w, h, boot, data, end) && (forall a :: a in requests ==> Low(DirPage(end), a))
    ensures var w', d := InitImage(w, h, boot, data, end), DirPage(end);
      && MagicFirst(w', d)
      && (x < 4 * MB ==> Walk(DoAll(w', h, requests), Phys(d), x) == ReservedBit)
      && (forall y: Word :: PageOf(y) != MAGIC_TABLE ==> DoAll(w', h, requests)[y] == w'[y])
      && (PageOf(x) == MAGIC_TABLE ==> Walk(w', Phys(boot), x) == NotPresent)
  {
    hide Owned, InitImage, Walk, BootReady, BootState, PageUp, TableOf, Pde, Low, Linked;
    var w', d := InitImage(w, h, boot, data, end), DirPage(end);
    BootCanCreate(w, h, boot, data, end);
    BootLinked(w, h, boot, data, end);
    BootOwned(w, h, boot, data, end);
    LinkedParts(data, end);
    LowRequests(w', h, d, requests, x);
    BootWalk(w', boot, x);
  }

  /** A start state in which the page past the kernel holds a 4 MB entry where the kernel's slot goes;
      the rest of memory is zero, but for the registry and the boot directory. */
  function StrayImage(): Image {
    seq(SPACE, i => if i == 0x801A_0000 || i == 0x801A_0004 then 0x801A_0000
                    else if i == 0x8019_0000 || i == 0x8019_0800 || i == 0x8020_0800 then BOOT_ENTRY else 0)
  }

  lemma StrayState()
    ensures BootState(StrayImage(), 0x801A_0000, 0x8019_0000, 0x8018_0000, 0x8020_0000)
    ensures PageUp(0x8020_0000) == 0x8020_0000 && Pde(StrayImage(), 0x8020_0000, KERNEL_SLOT) == BOOT_ENTRY
  {
    var w := StrayImage();
    forall i | 0 <= i < 1024
      ensures Pde(w, 0x8019_0000, i) == if i == 0 || i == KERNEL_SLOT then BOOT_ENTRY else 0
    {
      assert EntryAt(0x8019_0000, i) == 0x8019_0000 + 4 * i;
    }
    assert Ring(w, [0x801A_0000]);
  }

  /** From there `kvm_init` shows no address of the kernel as it should be seen. */
  lemma BootFails(x: Word)
    requires KERNEL_BASE <= x < KERNEL_TOP
    ensures var w := StrayImage();
      && BootState(w, 0x801A_0000, 0x8019_0000, 0x8018_0000, 0x8020_0000)
      && Walk(InitImage(w, 0x801A_0000, 0x8019_0000, 0x8018_0000, 0x8020_0000), Phys(0x8020_0000), x)
         != KernelView(0x8018_0000, 0x8020_0000, x)
  {
    hide BootState, InitImage, Walk, KernelView, StrayImage, Harmless, PageUp;
    StrayState();
    BootExact(StrayImage(), 0x801A_0000, 0x8019_0000, 0x8018_0000, 0x8020_0000, x);
    BigHarms(StrayImage(), 0x8020_0000, 0x8018_0000, 0x8020_0000, x);
  }

  lemma BigHarms(w: Image, d: Word, data: Word, end: Word, x: Word)
    requires Pde(w, d, KERNEL_SLOT) == BOOT_ENTRY && d != KERNEL_BASE
    ensures !Harmless(w, d, data, end, x)
  {
    hide PageUp, Pde, SelfHarmless, TableWord;
    assert TableOf(w, d, KERNEL_SLOT) == KERNEL_BASE && Present(BOOT_ENTRY) && Big(BOOT_ENTRY);
  }

  /** The boot theorem in plain numbers, CR3 holding the physical address of the directory: up to the
      page end lies in, every address of the kernel from 2 GB on reaches the physical address 2 GB
      below it, read-only from 2 GB + 1 MB to data and writable elsewhere, for the kernel only. The
      pages left free are those past the directory and its table, up to 4 MB. */
  lemma BootPlain(w: Image, h: Word, boot: Word, data: Word, end: Word, x: Word)
    requires BootReady(w, h, boot, data, end)
    ensures var w', top := InitImage(w, h, boot, data, end), (end + 0xFFF) / 0x1000 * 0x1000;
      && end <= top == DirPage(end) < 0x8040_0000
      && (0x8000_0000 <= x < top && !(0x8010_0000 <= x < data) ==>
            Walk(w', top - 0x8000_0000, x) == Maps(x - 0x8000_0000, 3, true, false))
      && (0x8010_0000 <= x < data ==> Walk(w', top - 0x8000_0000, x) == Maps(x - 0x8000_0000, 1, false, false))
      && (top <= x < 0x8040_0000 ==> Walk(w', top - 0x8000_0000, x) == NotPresent)
      && (x < 0x40_0000 ==> Walk(w', top - 0x8000_0000, x) == ReservedBit)
      && (0x8000_0000 <= x < 0x8040_0000 ==>
            boot >= 0x8000_0000 && Walk(w', boot - 0x8000_0000, x) == Maps(x - 0x8000_0000, 0x83, true, false))
      && (x in LeftOver(end) <==> x % 0x1000 == 0 && top + 0x1000 < x < 0x8040_0000)
  {
    hide Owned, InitImage, Walk, PageUp, BootReady, BootState, LeftOver, Ring, Pde, DirPage;
    BootCanCreate(w, h, boot, data, end);
    BootLinked(w, h, boot, data, end);
    BootRoom(w, h, boot, data, end);
    BootView(w, h, boot, data, end, x);
    BootFree(w, h, boot, data, end, x);
  }

  lemma BootRoom(w: Image, h: Word, boot: Word, data: Word, end: Word)
    requires BootState(w, h, boot, data, end)
    ensures var top := (end + 0xFFF) / 0x1000 * 0x1000;
      && end <= top == PageUp(end) && data <= top && 0x8010_0000 <= data && top + 0x2000 <= 0x8040_0000
      && TablePage(end) == top + 0x1000 && KERNEL_BASE <= boot
  {
    hide Ring, Pde, PageUp;
    Ranges(0, data, end);
    RoundedUp(end);
  }

  lemma RoundedUp(end: Word)
    requires end < 0xFFFF_F000
    ensures PageUp(end) == (end + 0xFFF) / 0x1000 * 0x1000 >= end
  {
    hide PageUp;
    var p := end / 0x1000;
    assert end == p * 0x1000 + end % 0x1000;
  }

  /** `kvm_create` writes to the registry and to free pages only. */
  lemma CreateMemory(w: Image, h: Word, q: seq<Word>, spaces: Spaces, data: Word, end: Word, x: Word)
    requires CanCreate(w, h, q, spaces) && Linked(data, end) && Elsewhere(h, q, spaces, x)
    ensures CreateImage(w, h, data, end)[x] == w[x]
  {
    hide Owned, Ready, MapRange, Missing, PageUp, Alloc, CreateImage, SlotOpen, Pde, InNoTable, TableOf;
    var d := q[0];
    var w1, w2, w3, w4, spaces' := CreateSteps(w, h, q, spaces, data, end);
    var io, code, rw := IoSpace(d), Code(d, data), Data(d, data, end);
    NewElsewhere(w, w1, h, q, spaces, x);
    MapRangeElsewhere(w1, h, q[1..], spaces', d, io.First(), io.Last(), io.paddr, io.permissions, x);
    MapRangeElsewhere(w2, h, q[2..], spaces', d, code.First(), code.Last(), code.paddr, code.permissions, x);
    MapRangeElsewhere(w3, h, q[2..], spaces', d, rw.First(), rw.Last(), rw.paddr, rw.permissions, x);
  }

  lemma NewElsewhere(w: Image, w1: Image, h: Word, q: seq<Word>, spaces: Spaces, x: Word)
    requires Owned(w, h, q, spaces) && |q| >= 2 && w1 == Alloc(w, h) && Elsewhere(h, q, spaces, x)
    requires !Present(Pde(w1, q[0], KERNEL_SLOT))
    ensures var spaces' := spaces[q[0] := {KERNEL_SLOT}];
      && w1[x] == w[x] && InNoTable(w1, spaces', q[0], x)
      && Elsewhere(h, q[1..], spaces', x) && Elsewhere(h, q[2..], spaces', x)
  {
    hide Alloc, Pde;
    AllocPool(w, h, q);
    assert q[0] in q;
  }

  /** `kvm_init` changes no word of the kernel's memory, or of any other outside the pages it frees, but
      the first of the boot directory and the registry's two. */
  lemma BootMemory(w: Image, h: Word, boot: Word, data: Word, end: Word, x: Word)
    requires BootReady(w, h, boot, data, end) && x != h && x != Plus(h, 4)
    requires x < (end + 0xFFF) / 0x1000 * 0x1000 || x >= 0x8040_0000
    requires x - x % 0x1000 != boot
    ensures InitImage(w, h, boot, data, end)[x] == w[x]
  {
    hide Owned, CreateImage, FreedImage, PageUp, BootReady, BootState, LeftOver, PagesFrom, Pool, Pde, SlotsBelow;
    BootCanCreate(w, h, boot, data, end);
    BootLinked(w, h, boot, data, end);
    BootRoom(w, h, boot, data, end);
    BootFreed(w, h, boot, data, end);
    PagesFromExact(PageUp(end), KERNEL_TOP, PageOf(x));
    InRange(PageUp(end), KERNEL_TOP, x);
    InPage(boot, 0);
    CreateMemory(FreedImage(w, h, boot, end), h, FreedPages(end), BootSpaces(boot), data, end, x);
  }

  /** `kvm_init`: drop the boot directory's identity mapping, free the rest of the first 4 MB, and
      build the kernel's own directory. */
  method KvmInit(m: Ram, h: Word, boot: Word, data: Word, end: Word) returns (kpagedir: Word)
    requires BootState(m.cells, h, boot, data, end)
    modifies m
    ensures m.cells == InitImage(old(m.cells), h, boot, data, end) && kpagedir == DirPage(end)
  {
    hide CreateImage, Owned, PageUp, PagesFrom, Pool, LeftOver, FreeAll, BootSpaces;
    BootServed(m.cells, h, boot, data, end);
    ghost var ps := FreedPages(end);
    m.Store(boot, 0);
    assert [] + ps == ps;
    KpfreeRange(m, h, end, Virt(4 * MB), [], ps);
    kpagedir := KvmCreate(m, h, data, end, ps, BootSpaces(boot));
  }
}

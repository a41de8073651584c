/** kernel/mm/kvm.c: what mapping pages does to memory, and what that means for address translation. */
module Kvm {
  import opened Words
  import opened Bits
  import opened Layout
  import opened Lists
  import opened Pages
  import opened Paging

  const PRESENT: Word := 1
  const RW: Word := 2
  const US: Word := 4

  // ---------------------------------------------------------------------------------------------
  // What the code does to memory
  // ---------------------------------------------------------------------------------------------

  function ZeroPage(w: Image, p: Word): Image {
    seq(SPACE, x requires 0 <= x < SPACE => if PageOf(x) == p && x % 4 == 0 then 0 else w[x])
  }

  function PageEntry(pa: Word, permissions: Word): Word { Or32(Or32(pa, permissions), PRESENT) }

  function TableEntry(page: Word): Word { Or32(Or32(Or32(Phys(page), PRESENT), RW), US) }

  /** Make sure slot i of directory d has a table. */
  function EnsureTable(w: Image, h: Word, d: Word, i: nat): Image
    requires i < 1024
  {
    if And(Pde(w, d, i), PRESENT) != 0 then w
    else
      var page := FirstPage(w, h);
      ZeroPage(Alloc(w, h), page)[EntryAt(d, i) := TableEntry(page)]
  }

  function MapPage(w: Image, h: Word, d: Word, va: Word, pa: Word, permissions: Word): Image {
    var w1 := EnsureTable(w, h, d, PdIndex(va));
    w1[EntryAt(Virt(PteAddr(Pde(w1, d, PdIndex(va)))), PtIndex(va)) := PageEntry(pa, permissions)]
  }

  /** Pages from curr up to last, mapped to consecutive frames from pa on. */
  function MapRange(w: Image, h: Word, d: Word, curr: Word, last: Word, pa: Word, permissions: Word): Image
    requires PageAligned(curr) && PageAligned(last)
    decreases last - curr
  {
    if curr >= last then w
    else
      NextPage(curr, last);
      MapRange(MapPage(w, h, d, curr, pa, permissions), h, d, curr + PAGE_SIZE, last, Plus(pa, PAGE_SIZE), permissions)
  }

  // ---------------------------------------------------------------------------------------------
  // Ownership
  // ---------------------------------------------------------------------------------------------

  /** The directories in use, each with the slots the kernel looks after. */
  type Spaces = map<Word, set<nat>>

  /** Slot i of directory d names a page table. */
  ghost predicate Tabled(w: Image, spaces: Spaces, d: Word, i: nat) {
    d in spaces && i in spaces[d] && i < 1024 && Present(Pde(w, d, i)) && !Big(Pde(w, d, i))
  }

  /** Directories, page tables and free pages are all different pages, and no table is shared. */
  ghost predicate Owned(w: Image, h: Word, q: seq<Word>, spaces: Spaces) {
    && Pool(w, h, q)
    && (forall d :: d in spaces ==> PageAligned(d) && Outside(h, d) && d !in q)
    && (forall d, i | Tabled(w, spaces, d, i) ::
          var t := TableOf(w, d, i); Outside(h, t) && t !in q && t !in spaces)
    && (forall d, i, e, j | Tabled(w, spaces, d, i) && Tabled(w, spaces, e, j) ::
          TableOf(w, d, i) == TableOf(w, e, j) ==> d == e && i == j)
  }

  lemma EntryCell(t: Word, i: nat)
    requires PageAligned(t) && i < 1024
    ensures EntryAt(t, i) == t + 4 * i && EntryAt(t, i) % 4 == 0 && PageOf(EntryAt(t, i)) == t
    ensures EntryAt(t, i) % PAGE_SIZE == 4 * i
  {
    InPage(t, 4 * i);
    Quad(t, i);
  }

  lemma Quad(t: int, i: int)
    requires t % PAGE_SIZE == 0
    ensures (t + 4 * i) % 4 == 0
  {
    assert t == 4 * (t / PAGE_SIZE * 1024);
  }

  lemma TableAligned(w: Image, d: Word, i: nat)
    requires i < 1024
    ensures PageAligned(TableOf(w, d, i)) && TableOf(w, d, i) == Virt(PteAddr(Pde(w, d, i)))
  {
  }

  lemma PoolKeeps(w: Image, w': Image, h: Word, q: seq<Word>)
    requires Pool(w, h, q)
    requires w'[h] == w[h] && w'[Plus(h, 4)] == w[Plus(h, 4)]
    requires forall x: Word :: PageOf(x) in q ==> w'[x] == w[x]
    ensures Pool(w', h, q)
  {
    forall e | e in [h] + PageNodes(q) ensures Next(w, e) == Next(w', e) && Prev(w, e) == Prev(w', e) {
      NodeCells(h, q, e);
      if e != h { InPage(e - 4, 4); InPage(e - 4, 8); }
    }
    SameLinks(w, w', [h] + PageNodes(q));
    forall p | p in q ensures w'[p] == MAGIC { InPage(p, 0); }
  }

  /** Memory outside the directories, the free pages and the registry. */
  predicate Elsewhere(h: Word, q: seq<Word>, spaces: Spaces, x: Word) {
    x != h && x != Plus(h, 4) && PageOf(x) !in q && PageOf(x) !in spaces
  }

  lemma SamePdes(w: Image, w': Image, spaces: Spaces)
    requires forall d :: d in spaces ==> PageAligned(d)
    requires forall x: Word :: PageOf(x) in spaces ==> w'[x] == w[x]
    ensures forall d, i :: d in spaces && 0 <= i < 1024 ==> Pde(w', d, i) == Pde(w, d, i)
  {
    forall d, i | d in spaces && 0 <= i < 1024 ensures Pde(w', d, i) == Pde(w, d, i) {
      EntryCell(d, i);
    }
  }

  lemma OwnedKeeps(w: Image, w': Image, h: Word, q: seq<Word>, r: seq<Word>, spaces: Spaces)
    requires Owned(w, h, q, spaces) && Pool(w', h, r) && forall p :: p in r ==> p in q
    requires forall d, i :: d in spaces && 0 <= i < 1024 ==> Pde(w', d, i) == Pde(w, d, i)
    ensures Owned(w', h, r, spaces)
  {
    forall d, i | Tabled(w', spaces, d, i)
      ensures Tabled(w, spaces, d, i) && TableOf(w', d, i) == TableOf(w, d, i)
    {
      assert Pde(w', d, i) == Pde(w, d, i);
    }
  }

  /** Writing elsewhere leaves every owner what it owns. */
  lemma WriteKeepsOwned(w: Image, h: Word, q: seq<Word>, spaces: Spaces, x: Word, v: Word)
    requires Owned(w, h, q, spaces) && Elsewhere(h, q, spaces, x)
    ensures Owned(w[x := v], h, q, spaces)
    ensures forall d, i :: d in spaces && 0 <= i < 1024 ==> Pde(w[x := v], d, i) == Pde(w, d, i)
  {
    PoolKeeps(w, w[x := v], h, q);
    SamePdes(w, w[x := v], spaces);
    OwnedKeeps(w, w[x := v], h, q, q, spaces);
  }

  lemma TableElsewhere(w: Image, h: Word, q: seq<Word>, spaces: Spaces, d: Word, i: nat, k: nat)
    requires Owned(w, h, q, spaces) && Tabled(w, spaces, d, i) && k < 1024
    ensures Elsewhere(h, q, spaces, EntryAt(TableOf(w, d, i), k))
  {
    TableAligned(w, d, i);
    EntryCell(TableOf(w, d, i), k);
  }

  // ---------------------------------------------------------------------------------------------
  // Mapping one page
  // ---------------------------------------------------------------------------------------------

  /** The flags a slot's entry has, or will have once it needs a table. */
  function SlotFlags(w: Image, d: Word, i: nat): Word
    requires i < 1024
  {
    if Present(Pde(w, d, i)) then Pde(w, d, i) % PAGE_SIZE else PRESENT + RW + US
  }

  /** What the kernel must have ready to give slot i a table. */
  ghost predicate CanMap(w: Image, q: seq<Word>, spaces: Spaces, d: Word, i: nat)
    requires i < 1024
  {
    d in spaces && i in spaces[d] && (if Present(Pde(w, d, i)) then !Big(Pde(w, d, i)) else q != [])
  }

  function Remaining(w: Image, q: seq<Word>, d: Word, i: nat): seq<Word>
    requires i < 1024
  {
    if Present(Pde(w, d, i)) || q == [] then q else q[1..]
  }

  lemma TableEntryIs(page: Word)
    requires PageAligned(page)
    ensures TableEntry(page) == Phys(page) + 7
  {
    hide Or;
    PhysVirt(page, 7);
    var b := Phys(page);
    OrOne(b);
    SmallFlags(0);
    OrSmall(b, 1, 2);
    OrSmall(b, 3, 4);
  }

  lemma SmallFlags(y: nat)
    ensures Or(1, 2) == 3 && Or(3, 4) == 7 && Or(0, y) == y
  {
  }

  lemma OrSmall(b: Word, x: nat, y: nat)
    requires PageAligned(b) && x < PAGE_SIZE && y < PAGE_SIZE
    ensures Or(x, y) < PAGE_SIZE && Or(b + x, y) == b + Or(x, y)
  {
    Powers();
    OrBound(x, y, 12);
    OrLow(b / PAGE_SIZE, x, y, 12, b);
  }

  lemma Parity(b: Word, k: nat)
    requires PageAligned(b)
    ensures (b + k) % 2 == k % 2
  {
    var n := b / PAGE_SIZE;
    assert b == 2 * (2048 * n);
  }

  /** The word written for a page frame: its address, the permissions, and the present bit. */
  lemma PageEntryIs(pa: Word, permissions: Word)
    requires PageAligned(pa) && permissions < PAGE_SIZE
    ensures PageEntry(pa, permissions) == pa + permissions + 1 - permissions % 2
  {
    hide Or, PageAligned;
    InPage(pa, permissions);
    OrSmall(pa, 0, permissions);
    SmallFlags(permissions);
    OrOne(pa + permissions);
    Parity(pa, permissions);
  }

  /** The page that becomes a table: nobody else's, empty once zeroed. */
  lemma FreshTable(w: Image, h: Word, q: seq<Word>, spaces: Spaces)
    requires Owned(w, h, q, spaces) && q != []
    ensures var w1 := ZeroPage(Alloc(w, h), q[0]);
      && FirstPage(w, h) == q[0] && PageAligned(q[0]) && Outside(h, q[0]) && q[0] !in q[1..] && q[0] !in spaces
      && Owned(w1, h, q[1..], spaces) && Elsewhere(h, q[1..], spaces, q[0])
      && (forall d, i | Tabled(w, spaces, d, i) :: TableOf(w, d, i) != q[0])
      && (forall d, i :: d in spaces && 0 <= i < 1024 ==> Pde(w1, d, i) == Pde(w, d, i))
      && (forall x: Word :: Elsewhere(h, q, spaces, x) ==> w1[x] == w[x])
      && (forall k :: 0 <= k < 1024 ==> w1[EntryAt(q[0], k)] == 0)
  {
    hide Alloc, FirstPage;
    var wa, p := Alloc(w, h), q[0];
    var w1 := ZeroPage(wa, p);
    AllocPool(w, h, q);
    assert p in q && PageOf(h) != p && PageOf(Plus(h, 4)) != p by { NotInside(h, p); }
    PoolKeeps(wa, w1, h, q[1..]);
    forall d, i | d in spaces && 0 <= i < 1024 ensures Pde(w1, d, i) == Pde(w, d, i) {
      EntryCell(d, i);
      DirectoryCell(w, h, q, spaces, d, i);
    }
    OwnedKeeps(w, w1, h, q, q[1..], spaces);
    forall k | 0 <= k < 1024 ensures w1[EntryAt(p, k)] == 0 {
      EntryCell(p, k);
    }
    InPage(p, 0);
  }

  lemma NotInside(h: Word, p: Word)
    requires IsNode(h) && PageAligned(p) && Outside(h, p)
    ensures PageOf(h) != p && PageOf(Plus(h, 4)) != p
  {
  }

  lemma DirectoryCell(w: Image, h: Word, q: seq<Word>, spaces: Spaces, d: Word, i: nat)
    requires Owned(w, h, q, spaces) && d in spaces && i < 1024
    ensures !LinkCell(h, q, EntryAt(d, i))
  {
    EntryCell(d, i);
    NotInside(h, d);
  }

  lemma EntriesDiffer(d: Word, i: nat, e: Word, j: nat)
    requires PageAligned(d) && PageAligned(e) && i < 1024 && j < 1024
    ensures EntryAt(d, i) == EntryAt(e, j) <==> d == e && i == j
  {
    EntryCell(d, i);
    EntryCell(e, j);
  }

  lemma TableEntryFields(p: Word)
    requires PageAligned(p)
    ensures var e := TableEntry(p);
      e % PAGE_SIZE == PRESENT + RW + US && Present(e) && !Big(e) && Virt(e - e % PAGE_SIZE) == p
  {
    TableEntryIs(p);
    PhysVirt(p, 7);
    LowSeven(Phys(p));
  }

  lemma LowSeven(b: Word)
    requires PageAligned(b)
    ensures b + 7 < SPACE && (b + 7) % PAGE_SIZE == 7 && Present(b + 7) && !Big(b + 7)
  {
    InPage(b, 7);
    FlagKeeps(b / PAGE_SIZE, 7, 1, 2048);
    FlagKeeps(b / PAGE_SIZE, 7, 0x80, 16);
  }

  lemma WritePde(w: Image, h: Word, q: seq<Word>, spaces: Spaces, d: Word, i: nat, p: Word)
    requires Owned(w, h, q, spaces) && d in spaces && i < 1024 && PageAligned(p)
    ensures var w' := w[EntryAt(d, i) := TableEntry(p)];
      && Pool(w', h, q) && TableOf(w', d, i) == p
      && Present(Pde(w', d, i)) && !Big(Pde(w', d, i)) && Pde(w', d, i) % PAGE_SIZE == PRESENT + RW + US
      && (forall e, j :: e in spaces && 0 <= j < 1024 && (e != d || j != i) ==> Pde(w', e, j) == Pde(w, e, j))
  {
    var w' := w[EntryAt(d, i) := TableEntry(p)];
    TableEntryFields(p);
    EntryCell(d, i);
    NotInside(h, d);
    PoolKeeps(w, w', h, q);
    forall e, j | e in spaces && 0 <= j < 1024 && (e != d || j != i) ensures Pde(w', e, j) == Pde(w, e, j) {
      EntriesDiffer(d, i, e, j);
    }
  }

  /** Pointing an empty slot at a page nobody owns makes that page the slot's table. */
  lemma AdoptTable(w: Image, h: Word, q: seq<Word>, spaces: Spaces, d: Word, i: nat, p: Word)
    requires Owned(w, h, q, spaces) && d in spaces && i < 1024 && i in spaces[d] && !Present(Pde(w, d, i))
    requires PageAligned(p) && Outside(h, p) && p !in q && p !in spaces
    requires forall e, j | Tabled(w, spaces, e, j) :: TableOf(w, e, j) != p
    ensures var w' := w[EntryAt(d, i) := TableEntry(p)]; Owned(w', h, q, spaces) && Tabled(w', spaces, d, i)
  {
    var w' := w[EntryAt(d, i) := TableEntry(p)];
    WritePde(w, h, q, spaces, d, i, p);
    forall e, j | Tabled(w', spaces, e, j)
      ensures if e == d && j == i then TableOf(w', e, j) == p
              else Tabled(w, spaces, e, j) && TableOf(w', e, j) == TableOf(w, e, j)
    {
      assert e != d || j != i ==> Pde(w', e, j) == Pde(w, e, j);
    }
  }

  lemma OwnedAligned(w: Image, h: Word, q: seq<Word>, spaces: Spaces, d: Word)
    requires Owned(w, h, q, spaces) && d in spaces
    ensures PageAligned(d)
  {
  }

  lemma EnsureTableOwned(w: Image, h: Word, q: seq<Word>, spaces: Spaces, d: Word, i: nat)
    requires Owned(w, h, q, spaces) && i < 1024 && CanMap(w, q, spaces, d, i)
    ensures var w1, r := EnsureTable(w, h, d, i), Remaining(w, q, d, i);
      && Owned(w1, h, r, spaces) && Tabled(w1, spaces, d, i)
      && Pde(w1, d, i) % PAGE_SIZE == SlotFlags(w, d, i)
      && (Present(Pde(w, d, i)) ==> w1 == w)
      && (!Present(Pde(w, d, i)) ==> TableOf(w1, d, i) == q[0])
      && (forall e, j :: e in spaces && 0 <= j < 1024 && (e != d || j != i) ==> Pde(w1, e, j) == Pde(w, e, j))
      && (forall x: Word :: Elsewhere(h, q, spaces, x) ==> w1[x] == w[x])
      && (!Present(Pde(w, d, i)) ==> forall k :: 0 <= k < 1024 ==> w1[EntryAt(q[0], k)] == 0)
  {
    hide Owned, ZeroPage, Alloc, TableEntry, FirstPage;
    AndOne(Pde(w, d, i));
    if !Present(Pde(w, d, i)) {
      var p, wz := q[0], ZeroPage(Alloc(w, h), q[0]);
      FreshTable(w, h, q, spaces);
      OwnedAligned(w, h, q, spaces, d);
      forall e, j | Tabled(wz, spaces, e, j) ensures TableOf(wz, e, j) != p {
        assert Pde(wz, e, j) == Pde(w, e, j) && Tabled(w, spaces, e, j);
      }
      WritePde(wz, h, q[1..], spaces, d, i, p);
      AdoptTable(wz, h, q[1..], spaces, d, i, p);
      EntryCell(d, i);
      forall k | 0 <= k < 1024 ensures EntryAt(p, k) != EntryAt(d, i) {
        EntriesDiffer(p, k, d, i);
      }
    }
  }

  lemma SameTranslate(w: Image, w': Image, e: Word, x: Word)
    requires var j := PdIndex(x);
      && Pde(w', e, j) == Pde(w, e, j)
      && var c := EntryAt(TableOf(w, e, j), PtIndex(x));
      Present(Pde(w, e, j)) && !Big(Pde(w, e, j)) ==> w'[c] == w[c]
    ensures Translate(w', e, x) == Translate(w, e, x)
    ensures SlotFlags(w', e, PdIndex(x)) == SlotFlags(w, e, PdIndex(x))
  {
  }

  /** A new, empty table changes no translation. */
  lemma EnsureTableTranslate(w: Image, h: Word, q: seq<Word>, spaces: Spaces, d: Word, i: nat, e: Word, x: Word)
    requires Owned(w, h, q, spaces) && i < 1024 && CanMap(w, q, spaces, d, i)
    requires e in spaces && PdIndex(x) in spaces[e]
    ensures Translate(EnsureTable(w, h, d, i), e, x) == Translate(w, e, x)
    ensures SlotFlags(EnsureTable(w, h, d, i), e, PdIndex(x)) == SlotFlags(w, e, PdIndex(x))
  {
    EnsureTableOwned(w, h, q, spaces, d, i);
    var j, w1 := PdIndex(x), EnsureTable(w, h, d, i);
    if e == d && j == i && !Present(Pde(w, d, i)) {
      assert TableWord(w1, e, x) == 0;
    } else {
      if Tabled(w, spaces, e, j) {
        TableElsewhere(w, h, q, spaces, e, j, PtIndex(x));
      }
      SameTranslate(w, w1, e, x);
    }
  }

  /** Mapping a page keeps every owner what it owns; a slot that had no table takes the next free page. */
  lemma MapPageOwned(w: Image, h: Word, q: seq<Word>, spaces: Spaces, d: Word, va: Word, pa: Word, permissions: Word)
    requires Owned(w, h, q, spaces) && CanMap(w, q, spaces, d, PdIndex(va))
    ensures var w' := MapPage(w, h, d, va, pa, permissions);
      && Owned(w', h, Remaining(w, q, d, PdIndex(va)), spaces) && Tabled(w', spaces, d, PdIndex(va))
      && (forall e, j :: e in spaces && 0 <= j < 1024 ==> Pde(w', e, j) == Pde(EnsureTable(w, h, d, PdIndex(va)), e, j))
  {
    var i, k := PdIndex(va), PtIndex(va);
    EnsureTableOwned(w, h, q, spaces, d, i);
    var w1, r := EnsureTable(w, h, d, i), Remaining(w, q, d, i);
    TableAligned(w1, d, i);
    TableElsewhere(w1, h, r, spaces, d, i, k);
    WriteKeepsOwned(w1, h, r, spaces, EntryAt(TableOf(w1, d, i), k), PageEntry(pa, permissions));
  }

  /** The translation of x when its page is mapped to frame pa: the path is only as permissive as
      both the directory slot and the page entry. */
  function Mapped(slotFlags: Word, pa: Word, permissions: Word, x: Word): Translation
    requires PageAligned(pa) && permissions < PAGE_SIZE
  {
    InPage(pa, x % PAGE_SIZE);
    Maps(pa + x % PAGE_SIZE, permissions + 1 - permissions % 2,
         Writable(slotFlags) && Writable(permissions), User(slotFlags) && User(permissions))
  }

  lemma MappedEntry(pde: Word, pa: Word, permissions: Word, x: Word)
    requires PageAligned(pa) && permissions < PAGE_SIZE
    ensures SmallPage(pde, PageEntry(pa, permissions), x) == Mapped(pde % PAGE_SIZE, pa, permissions, x)
  {
    PageEntryIs(pa, permissions);
    var e, f := PageEntry(pa, permissions), permissions + 1 - permissions % 2;
    InPage(pa, f);
    assert Writable(f) == Writable(permissions) && User(f) == User(permissions);
    LowFlags(e);
    LowFlags(pde);
  }

  lemma LowFlags(e: Word)
    ensures Present(e % PAGE_SIZE) == Present(e) && Writable(e % PAGE_SIZE) == Writable(e)
            && User(e % PAGE_SIZE) == User(e) && Big(e % PAGE_SIZE) == Big(e)
  {
    FlagKeeps(e / PAGE_SIZE, e % PAGE_SIZE, 1, 2048);
    FlagKeeps(e / PAGE_SIZE, e % PAGE_SIZE, 2, 1024);
    FlagKeeps(e / PAGE_SIZE, e % PAGE_SIZE, 4, 512);
    FlagKeeps(e / PAGE_SIZE, e % PAGE_SIZE, 0x80, 16);
  }

  /** The flag worth p in a word made of q pages and k more bytes is the flag worth p in k. */
  lemma FlagKeeps(q: int, k: int, p: int, n: int)
    requires p > 0 && p * n * 2 == PAGE_SIZE
    ensures (PAGE_SIZE * q + k) / p % 2 == k / p % 2
  {
    var z := n * q;
    assert PAGE_SIZE * q == p * (2 * z) by {
      assert (p * n * 2) * q == p * (2 * (n * q));
    }
    DivUnique(PAGE_SIZE * q + k, p, 2 * z + k / p, k % p);
  }

  /** A word written into a table is found by the walks that use that entry and by no other. */
  lemma WriteTranslate(w: Image, h: Word, q: seq<Word>, spaces: Spaces, d: Word, va: Word, v: Word, e: Word, x: Word)
    requires Owned(w, h, q, spaces) && Tabled(w, spaces, d, PdIndex(va)) && PageAligned(va)
    requires e in spaces && PdIndex(x) in spaces[e]
    ensures var w' := w[EntryAt(TableOf(w, d, PdIndex(va)), PtIndex(va)) := v];
      && Translate(w', e, x) == (if e == d && PageOf(x) == va then SmallPage(Pde(w, d, PdIndex(va)), v, x)
                                 else Translate(w, e, x))
      && SlotFlags(w', e, PdIndex(x)) == SlotFlags(w, e, PdIndex(x))
  {
    hide Owned, SmallPage, PageOf;
    var i, j := PdIndex(va), PdIndex(x);
    var c := EntryAt(TableOf(w, d, i), PtIndex(va));
    TableElsewhere(w, h, q, spaces, d, i, PtIndex(va));
    WriteKeepsOwned(w, h, q, spaces, c, v);
    SamePage(va, x);
    if !(e == d && PageOf(x) == va) {
      if Tabled(w, spaces, e, j) { TablesDiffer(w, h, q, spaces, d, i, PtIndex(va), e, j, PtIndex(x)); }
      SameTranslate(w, w[c := v], e, x);
    }
  }

  /** Entries of tables are different words unless slot and index are the same. */
  lemma TablesDiffer(w: Image, h: Word, q: seq<Word>, spaces: Spaces, d: Word, i: nat, k: nat, e: Word, j: nat, n: nat)
    requires Owned(w, h, q, spaces) && Tabled(w, spaces, d, i) && Tabled(w, spaces, e, j) && k < 1024 && n < 1024
    ensures EntryAt(TableOf(w, d, i), k) == EntryAt(TableOf(w, e, j), n) <==> d == e && i == j && k == n
  {
    TableAligned(w, d, i);
    TableAligned(w, e, j);
    EntriesDiffer(TableOf(w, d, i), k, TableOf(w, e, j), n);
  }

  /** Mapping a page maps that page, in that directory, and changes no other translation anywhere. */
  lemma MapPageTranslate(w: Image, h: Word, q: seq<Word>, spaces: Spaces, d: Word, va: Word, pa: Word,
                         permissions: Word, e: Word, x: Word)
    requires Owned(w, h, q, spaces) && CanMap(w, q, spaces, d, PdIndex(va))
    requires PageAligned(va) && PageAligned(pa) && permissions < PAGE_SIZE
    requires e in spaces && PdIndex(x) in spaces[e]
    ensures var w' := MapPage(w, h, d, va, pa, permissions);
      && Translate(w', e, x) == (if e == d && PageOf(x) == va
                                 then Mapped(SlotFlags(w, d, PdIndex(va)), pa, permissions, x)
                                 else Translate(w, e, x))
      && SlotFlags(w', e, PdIndex(x)) == SlotFlags(w, e, PdIndex(x))
  {
    hide Owned, EnsureTable, PageEntry, Translate, SmallPage, Mapped, SlotFlags, TableOf, Pde;
    var i := PdIndex(va);
    var w1, r, v := EnsureTable(w, h, d, i), Remaining(w, q, d, i), PageEntry(pa, permissions);
    EnsureTableOwned(w, h, q, spaces, d, i);
    EnsureTableTranslate(w, h, q, spaces, d, i, e, x);
    TableAligned(w1, d, i);
    WriteTranslate(w1, h, r, spaces, d, va, v, e, x);
    MappedEntry(Pde(w1, d, i), pa, permissions, x);
  }

  lemma SamePage(va: Word, x: Word)
    requires PageAligned(va)
    ensures PageOf(x) == va <==> PdIndex(x) == PdIndex(va) && PtIndex(x) == PtIndex(va)
  {
    Recompose(va);
    Recompose(x);
    if PageOf(x) == va {
      assert x / 0x1000 == va / 0x1000;
      assert va / 0x1000 / 1024 == va / 0x40_0000 && x / 0x1000 / 1024 == x / 0x40_0000;
    }
  }

  // ---------------------------------------------------------------------------------------------
  // Mapping a range of pages
  // ---------------------------------------------------------------------------------------------

  /** How many of the slots lo, ..., hi - 1 have no table yet. */
  function Missing(w: Image, d: Word, lo: nat, hi: nat): (n: nat)
    requires hi <= 1024
    decreases hi - lo
  {
    if lo >= hi then 0 else (if Present(Pde(w, d, lo)) then 0 else 1) + Missing(w, d, lo + 1, hi)
  }

  /** One past the last slot that [curr, last) reaches into. */
  function SlotEnd(curr: Word, last: Word): (hi: nat)
    ensures hi <= 1024
  {
    if curr < last then PdIndex(last - 1) + 1 else PdIndex(curr)
  }

  function TablesNeeded(w: Image, d: Word, curr: Word, last: Word): nat {
    Missing(w, d, PdIndex(curr), SlotEnd(curr, last))
  }

  /** The range [curr, last) of directory d can be mapped: its slots are the kernel's to use, none
      holds a 4 MB page, and there are free pages for the tables still missing. */
  ghost predicate SlotsReady(w: Image, spaces: Spaces, d: Word, lo: nat, hi: nat) {
    d in spaces && forall i :: lo <= i < hi <= 1024 ==>
      i in spaces[d] && (Present(Pde(w, d, i)) ==> !Big(Pde(w, d, i)))
  }

  ghost predicate Ready(w: Image, h: Word, q: seq<Word>, spaces: Spaces, d: Word, curr: Word, last: Word) {
    && Owned(w, h, q, spaces) && PageAligned(curr) && PageAligned(last)
    && SlotsReady(w, spaces, d, PdIndex(curr), SlotEnd(curr, last))
    && TablesNeeded(w, d, curr, last) <= |q|
  }

  lemma {:induction false} MissingSame(w: Image, w': Image, d: Word, lo: nat, hi: nat)
    requires hi <= 1024 && forall i :: lo <= i < hi ==> Pde(w', d, i) == Pde(w, d, i)
    ensures Missing(w', d, lo, hi) == Missing(w, d, lo, hi)
    decreases hi - lo
  {
    if lo < hi { MissingSame(w, w', d, lo + 1, hi); }
  }

  lemma SlotStep(curr: Word, last: Word)
    requires PageAligned(curr) && PageAligned(last) && curr < last
    ensures curr + PAGE_SIZE <= last && PageAligned(curr + PAGE_SIZE)
    ensures PdIndex(curr) < SlotEnd(curr, last)
    ensures curr + PAGE_SIZE < last ==> SlotEnd(curr + PAGE_SIZE, last) == SlotEnd(curr, last)
    ensures curr + PAGE_SIZE < last ==>
              PdIndex(curr + PAGE_SIZE) == PdIndex(curr) || PdIndex(curr + PAGE_SIZE) == PdIndex(curr) + 1
    ensures curr + PAGE_SIZE == last ==> SlotEnd(curr, last) == PdIndex(curr) + 1
  {
    NextPage(curr, last);
    PageNumber(curr);
    PageNumber(last);
    if curr + PAGE_SIZE < last { PageNumber(curr + PAGE_SIZE); }
  }

  lemma PageNumber(p: Word)
    requires PageAligned(p)
    ensures var n := p / PAGE_SIZE;
      p == n * PAGE_SIZE && PdIndex(p) == n / 1024 && (n > 0 ==> (p - 1) / 0x40_0000 == (n - 1) / 1024)
  {
    var n := p / PAGE_SIZE;
    if n > 0 {
      assert p - 1 == (n - 1) * PAGE_SIZE + 0xFFF;
      assert (p - 1) / PAGE_SIZE == n - 1;
      assert (p - 1) / PAGE_SIZE / 1024 == (p - 1) / 0x40_0000;
    }
  }

  lemma ReadyHere(w: Image, h: Word, q: seq<Word>, spaces: Spaces, d: Word, curr: Word, last: Word)
    requires Ready(w, h, q, spaces, d, curr, last) && curr < last
    ensures CanMap(w, q, spaces, d, PdIndex(curr)) && Owned(w, h, q, spaces)
    ensures PageAligned(curr) && PageAligned(last)
    ensures TablesNeeded(w, d, curr, last)
         == (if Present(Pde(w, d, PdIndex(curr))) then 0 else 1) + Missing(w, d, PdIndex(curr) + 1, SlotEnd(curr, last))
  {
    SlotStep(curr, last);
  }

  /** A slot that gets its table leaves the other slots of its directory as they were. */
  lemma SlotsAfter(w: Image, h: Word, q: seq<Word>, spaces: Spaces, d: Word, va: Word, pa: Word, permissions: Word,
                   hi: nat)
    requires Owned(w, h, q, spaces) && CanMap(w, q, spaces, d, PdIndex(va)) && PdIndex(va) < hi <= 1024
    requires SlotsReady(w, spaces, d, PdIndex(va), hi)
    ensures var w' := MapPage(w, h, d, va, pa, permissions);
      && SlotsReady(w', spaces, d, PdIndex(va), hi)
      && Missing(w', d, PdIndex(va), hi) == Missing(w, d, PdIndex(va) + 1, hi) == Missing(w', d, PdIndex(va) + 1, hi)
  {
    var i, w' := PdIndex(va), MapPage(w, h, d, va, pa, permissions);
    EnsureTableOwned(w, h, q, spaces, d, i);
    MapPageOwned(w, h, q, spaces, d, va, pa, permissions);
    forall j | 0 <= j < 1024 && j != i ensures Pde(w', d, j) == Pde(w, d, j) {
      assert Pde(EnsureTable(w, h, d, i), d, j) == Pde(w, d, j);
    }
    MissingSame(w, w', d, i + 1, hi);
  }

  lemma ReadyStep(w: Image, h: Word, q: seq<Word>, spaces: Spaces, d: Word, curr: Word, last: Word, pa: Word,
                  permissions: Word)
    requires Ready(w, h, q, spaces, d, curr, last) && curr < last
    ensures curr + PAGE_SIZE < SPACE
    ensures var w', r := MapPage(w, h, d, curr, pa, permissions), Remaining(w, q, d, PdIndex(curr));
      && Ready(w', h, r, spaces, d, curr + PAGE_SIZE, last)
      && (if Present(Pde(w, d, PdIndex(curr))) then 0 else 1) + TablesNeeded(w', d, curr + PAGE_SIZE, last)
         == TablesNeeded(w, d, curr, last)
  {
    hide Owned, MapPage, Pde, Present, Big;
    var hi := SlotEnd(curr, last);
    var w', next := MapPage(w, h, d, curr, pa, permissions), curr + PAGE_SIZE;
    ReadyHere(w, h, q, spaces, d, curr, last);
    SlotStep(curr, last);
    SlotsAfter(w, h, q, spaces, d, curr, pa, permissions, hi);
    MapPageOwned(w, h, q, spaces, d, curr, pa, permissions);
    assert next < last ==> TablesNeeded(w', d, next, last) == Missing(w', d, PdIndex(curr) + 1, hi);
  }

  lemma MapRangeUnfold(w: Image, h: Word, d: Word, curr: Word, last: Word, pa: Word, permissions: Word)
    requires PageAligned(curr) && PageAligned(last) && curr < last
    ensures curr + PAGE_SIZE <= last && PageAligned(curr + PAGE_SIZE)
    ensures MapRange(w, h, d, curr, last, pa, permissions)
         == MapRange(MapPage(w, h, d, curr, pa, permissions), h, d, curr + PAGE_SIZE, last,
                     Plus(pa, PAGE_SIZE), permissions)
  {
    NextPage(curr, last);
  }

  /** One turn of the loop over a range. */
  lemma RangeTurn(w: Image, h: Word, q: seq<Word>, spaces: Spaces, d: Word, curr: Word, last: Word, pa: Word,
                  permissions: Word)
    requires Ready(w, h, q, spaces, d, curr, last) && curr < last
    ensures PageAligned(curr) && PageAligned(last) && curr + PAGE_SIZE <= last && PageAligned(curr + PAGE_SIZE)
    ensures Owned(w, h, q, spaces) && CanMap(w, q, spaces, d, PdIndex(curr))
    ensures var w', next := MapPage(w, h, d, curr, pa, permissions), curr + PAGE_SIZE;
      var r := Remaining(w, q, d, PdIndex(curr));
      && Ready(w', h, r, spaces, d, next, last)
      && MapRange(w, h, d, curr, last, pa, permissions)
         == MapRange(w', h, d, next, last, Plus(pa, PAGE_SIZE), permissions)
  {
    ReadyHere(w, h, q, spaces, d, curr, last);
    ReadyStep(w, h, q, spaces, d, curr, last, pa, permissions);
    MapRangeUnfold(w, h, d, curr, last, pa, permissions);
  }

  lemma {:induction false} MapRangeOwned(w: Image, h: Word, q: seq<Word>, spaces: Spaces, d: Word, curr: Word,
                                         last: Word, pa: Word, permissions: Word)
    requires Ready(w, h, q, spaces, d, curr, last)
    ensures TablesNeeded(w, d, curr, last) <= |q| && PageAligned(curr) && PageAligned(last)
    ensures Owned(MapRange(w, h, d, curr, last, pa, permissions), h, q[TablesNeeded(w, d, curr, last)..], spaces)
    decreases last - curr
  {
    hide Owned, Ready, MapPage, Missing, MapRange, SlotsReady;
    ReadyAligned(w, h, q, spaces, d, curr, last);
    if curr < last {
      var w', r := MapPage(w, h, d, curr, pa, permissions), Remaining(w, q, d, PdIndex(curr));
      RangeTurn(w, h, q, spaces, d, curr, last, pa, permissions);
      ReadyStep(w, h, q, spaces, d, curr, last, pa, permissions);
      MapRangeOwned(w', h, r, spaces, d, curr + PAGE_SIZE, last, Plus(pa, PAGE_SIZE), permissions);
    } else {
      RangeDone(w, h, q, spaces, d, curr, last, pa, permissions);
    }
  }

  lemma RangeDone(w: Image, h: Word, q: seq<Word>, spaces: Spaces, d: Word, curr: Word, last: Word, pa: Word,
                  permissions: Word)
    requires Ready(w, h, q, spaces, d, curr, last) && curr >= last
    ensures PageAligned(curr) && PageAligned(last) && MapRange(w, h, d, curr, last, pa, permissions) == w
    ensures Owned(w, h, q, spaces) && TablesNeeded(w, d, curr, last) == 0 && q[0..] == q
  {
    hide Owned;
  }

  lemma ReadyAligned(w: Image, h: Word, q: seq<Word>, spaces: Spaces, d: Word, curr: Word, last: Word)
    requires Ready(w, h, q, spaces, d, curr, last)
    ensures PageAligned(curr) && PageAligned(last) && TablesNeeded(w, d, curr, last) <= |q|
  {
    hide Owned;
  }

  /** The frame that page p gets when the range starting at curr is mapped to frames from pa on. */
  function FrameFor(curr: Word, pa: Word, p: Word): (r: Word)
    requires curr <= p
  {
    Plus(pa, p - curr)
  }

  lemma FrameStep(curr: Word, pa: Word, p: Word)
    requires PageAligned(curr) && PageAligned(pa) && PageAligned(p) && curr <= p
    ensures PageAligned(FrameFor(curr, pa, p)) && PageAligned(Plus(pa, PAGE_SIZE))
    ensures curr + PAGE_SIZE <= p ==> FrameFor(curr + PAGE_SIZE, Plus(pa, PAGE_SIZE), p) == FrameFor(curr, pa, p)
  {
    AlignedSum(p, curr);
    AlignedSum(pa, p - curr);
    AlignedSum(pa + (p - curr), SPACE);
    AlignedSum(pa, PAGE_SIZE);
    AlignedSum(pa + PAGE_SIZE, SPACE);
  }

  /** What mapping [curr, last) does to the translation of x. */
  function RangeTranslate(w: Image, d: Word, curr: Word, last: Word, pa: Word, permissions: Word, e: Word,
                          x: Word): Translation
    requires PageAligned(curr) && PageAligned(pa) && permissions < PAGE_SIZE
  {
    var p := PageOf(x);
    if e == d && curr <= p < last then
      FrameStep(curr, pa, p);
      Mapped(SlotFlags(w, d, PdIndex(x)), FrameFor(curr, pa, p), permissions, x)
    else Translate(w, e, x)
  }

  lemma {:induction false} MapRangeTranslate(w: Image, h: Word, q: seq<Word>, spaces: Spaces, d: Word, curr: Word,
                                             last: Word, pa: Word, permissions: Word, e: Word, x: Word)
    requires Ready(w, h, q, spaces, d, curr, last) && PageAligned(pa) && permissions < PAGE_SIZE
    requires e in spaces && PdIndex(x) in spaces[e]
    ensures PageAligned(curr) && PageAligned(last)
    ensures var w' := MapRange(w, h, d, curr, last, pa, permissions);
      && Translate(w', e, x) == RangeTranslate(w, d, curr, last, pa, permissions, e, x)
      && SlotFlags(w', e, PdIndex(x)) == SlotFlags(w, e, PdIndex(x))
    decreases last - curr
  {
    hide Owned, Ready, MapPage, MapRange, Translate, Mapped, CanMap;
    ReadyAligned(w, h, q, spaces, d, curr, last);
    if curr < last {
      var w', r := MapPage(w, h, d, curr, pa, permissions), Remaining(w, q, d, PdIndex(curr));
      RangeTurn(w, h, q, spaces, d, curr, last, pa, permissions);
      MapPageTranslate(w, h, q, spaces, d, curr, pa, permissions, e, x);
      FrameStep(curr, pa, curr);
      MapRangeTranslate(w', h, r, spaces, d, curr + PAGE_SIZE, last, Plus(pa, PAGE_SIZE), permissions, e, x);
      RangeTranslateTurn(w, w', d, curr, last, pa, permissions, e, x);
    } else {
      RangeDone(w, h, q, spaces, d, curr, last, pa, permissions);
    }
  }

  lemma PageOfAligned(x: Word)
    ensures PageAligned(PageOf(x))
  {
  }

  /** Which pages are in the range from curr on, and which in the range from the next page on. */
  lemma RangeSplit(curr: Word, last: Word, p: Word)
    requires PageAligned(curr) && PageAligned(last) && PageAligned(p) && curr < last
    ensures curr + PAGE_SIZE <= last && PageAligned(curr + PAGE_SIZE)
    ensures curr <= p < last <==> p == curr || curr + PAGE_SIZE <= p < last
  {
    NextPage(curr, last);
    if p != curr { PagesApart(curr, p); }
  }

  lemma RangeTranslateTurn(w: Image, w': Image, d: Word, curr: Word, last: Word, pa: Word, permissions: Word, e: Word,
                           x: Word)
    requires PageAligned(curr) && PageAligned(last) && curr < last && PageAligned(pa) && permissions < PAGE_SIZE
    requires Translate(w', e, x) == (if e == d && PageOf(x) == curr
                                     then Mapped(SlotFlags(w, d, PdIndex(curr)), pa, permissions, x)
                                     else Translate(w, e, x))
    requires SlotFlags(w', e, PdIndex(x)) == SlotFlags(w, e, PdIndex(x))
    ensures curr + PAGE_SIZE < SPACE && PageAligned(curr + PAGE_SIZE) && PageAligned(Plus(pa, PAGE_SIZE))
    ensures RangeTranslate(w', d, curr + PAGE_SIZE, last, Plus(pa, PAGE_SIZE), permissions, e, x)
         == RangeTranslate(w, d, curr, last, pa, permissions, e, x)
  {
    hide Mapped, Translate, SlotFlags, PageAligned, PdIndex;
    var p := PageOf(x);
    PageOfAligned(x);
    RangeSplit(curr, last, p);
    FrameStep(curr, pa, curr);
    if p == curr { SamePage(curr, x); }
    if curr <= p { FrameStep(curr, pa, p); }
  }

  // ---------------------------------------------------------------------------------------------
  // What mapping leaves alone
  // ---------------------------------------------------------------------------------------------

  /** Besides the words of free pages and directories, mapping a page writes to the page's entry only. */
  lemma MapPageElsewhere(w: Image, h: Word, q: seq<Word>, spaces: Spaces, d: Word, va: Word, pa: Word,
                         permissions: Word, x: Word)
    requires Owned(w, h, q, spaces) && CanMap(w, q, spaces, d, PdIndex(va)) && Elsewhere(h, q, spaces, x)
    requires Present(Pde(w, d, PdIndex(va))) ==> PageOf(x) != TableOf(w, d, PdIndex(va))
    ensures MapPage(w, h, d, va, pa, permissions)[x] == w[x]
  {
    hide Owned, EnsureTable, PageEntry;
    var i := PdIndex(va);
    var w1 := EnsureTable(w, h, d, i);
    EnsureTableOwned(w, h, q, spaces, d, i);
    TableAligned(w1, d, i);
    EntryCell(TableOf(w1, d, i), PtIndex(va));
  }

  /** x is in no page that directory d has for a table. */
  ghost predicate InNoTable(w: Image, spaces: Spaces, d: Word, x: Word) {
    forall i | Tabled(w, spaces, d, i) :: TableOf(w, d, i) != PageOf(x)
  }

  lemma MapPageTables(w: Image, h: Word, q: seq<Word>, spaces: Spaces, d: Word, va: Word, pa: Word,
                      permissions: Word, x: Word)
    requires Owned(w, h, q, spaces) && CanMap(w, q, spaces, d, PdIndex(va))
    requires Elsewhere(h, q, spaces, x) && InNoTable(w, spaces, d, x)
    ensures InNoTable(MapPage(w, h, d, va, pa, permissions), spaces, d, x)
    ensures Elsewhere(h, Remaining(w, q, d, PdIndex(va)), spaces, x)
  {
    hide Owned, EnsureTable, MapPage;
    var k, w1, w' := PdIndex(va), EnsureTable(w, h, d, PdIndex(va)), MapPage(w, h, d, va, pa, permissions);
    EnsureTableOwned(w, h, q, spaces, d, k);
    MapPageOwned(w, h, q, spaces, d, va, pa, permissions);
    forall i | Tabled(w', spaces, d, i) ensures TableOf(w', d, i) != PageOf(x) {
      assert Pde(w', d, i) == Pde(w1, d, i);
      assert i != k || Present(Pde(w, d, k)) ==> Pde(w1, d, i) == Pde(w, d, i) && Tabled(w, spaces, d, i);
      assert q != [] ==> q[0] in q;
    }
  }

  /** Mapping a range in directory d writes to free pages, directories, and the tables of d only. */
  lemma {:induction false} MapRangeElsewhere(w: Image, h: Word, q: seq<Word>, spaces: Spaces, d: Word, curr: Word,
                                            last: Word, pa: Word, permissions: Word, x: Word)
    requires Ready(w, h, q, spaces, d, curr, last) && Elsewhere(h, q, spaces, x) && InNoTable(w, spaces, d, x)
    ensures PageAligned(curr) && PageAligned(last)
    ensures MapRange(w, h, d, curr, last, pa, permissions)[x] == w[x]
    ensures InNoTable(MapRange(w, h, d, curr, last, pa, permissions), spaces, d, x)
    decreases last - curr
  {
    hide Owned, Ready, MapPage, MapRange, InNoTable, Elsewhere;
    ReadyAligned(w, h, q, spaces, d, curr, last);
    if curr < last {
      var w', r := MapPage(w, h, d, curr, pa, permissions), Remaining(w, q, d, PdIndex(curr));
      RangeTurn(w, h, q, spaces, d, curr, last, pa, permissions);
      MapPageTables(w, h, q, spaces, d, curr, pa, permissions, x);
      NotItsTable(w, q, spaces, d, PdIndex(curr), x);
      MapPageElsewhere(w, h, q, spaces, d, curr, pa, permissions, x);
      MapRangeElsewhere(w', h, r, spaces, d, curr + PAGE_SIZE, last, Plus(pa, PAGE_SIZE), permissions, x);
    } else {
      RangeDone(w, h, q, spaces, d, curr, last, pa, permissions);
    }
  }

  lemma NotItsTable(w: Image, q: seq<Word>, spaces: Spaces, d: Word, i: nat, x: Word)
    requires InNoTable(w, spaces, d, x) && i < 1024 && CanMap(w, q, spaces, d, i)
    ensures Present(Pde(w, d, i)) ==> PageOf(x) != TableOf(w, d, i)
  {
    hide TableOf;
    assert Present(Pde(w, d, i)) ==> Tabled(w, spaces, d, i);
  }

  // ---------------------------------------------------------------------------------------------
  // In plain numbers
  // ---------------------------------------------------------------------------------------------

  /** What ownership says of two directory words that name tables (bit 0 set, bit 7 clear): their
      tables are no free pages and no directories, and the same only if it is the same word. */
  lemma OwnedPlain(w: Image, h: Word, q: seq<Word>, spaces: Spaces, d: Word, i: nat, e: Word, j: nat)
    requires Owned(w, h, q, spaces) && d in spaces && e in spaces && i in spaces[d] && j in spaces[e]
    requires i < 1024 && j < 1024
    ensures PageAligned(d) && d !in q && d + 4 * i < SPACE && e + 4 * j < SPACE
    ensures var u: int, v: int := w[d + 4 * i], w[e + 4 * j];
      var t, r := (u - u % 0x1000 + 0x8000_0000) % 0x1_0000_0000, (v - v % 0x1000 + 0x8000_0000) % 0x1_0000_0000;
      && (u % 2 == 1 && u / 0x80 % 2 == 0 ==> t !in q && t !in spaces)
      && (u % 2 == 1 && u / 0x80 % 2 == 0 && v % 2 == 1 && v / 0x80 % 2 == 0 && t == r ==> d == e && i == j)
  {
    hide Pool, PageAligned;
    OwnedAligned(w, h, q, spaces, d);
    OwnedAligned(w, h, q, spaces, e);
    EntryCell(d, i);
    EntryCell(e, j);
    var u, v := w[d + 4 * i], w[e + 4 * j];
    DirectMap(u - u % 0x1000);
    DirectMap(v - v % 0x1000);
    assert u == Pde(w, d, i) && v == Pde(w, e, j);
    if u % 2 == 1 && u / 0x80 % 2 == 0 { assert Tabled(w, spaces, d, i); }
    if v % 2 == 1 && v / 0x80 % 2 == 0 { assert Tabled(w, spaces, e, j); }
  }
}

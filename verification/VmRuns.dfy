/** Several calls in a row: mappings that do not overlap commute, and every run keeps ownership. */
module VmRuns {
  import opened Words
  import opened Layout
  import opened Pages
  import opened Paging
  import opened Kvm
  import opened KvmCode
  import opened VmLaws

  /** A call of `vm_map_pages` on directory d. */
  datatype Request = Request(d: Word, vaddr: Word, paddr: Word, size: Word, permissions: Word) {
    predicate Proper() { PageAligned(paddr) && permissions < PAGE_SIZE }

    function First(): Word { FirstPageOf(vaddr) }

    function Last(): Word { EndPageOf(vaddr, size) }

    function Do(w: Image, h: Word): Image { VmMap(w, h, d, vaddr, paddr, size, permissions) }

    function Cost(w: Image): nat { CostAt(w, d) }

    /** The cost in a directory e. */
    function CostAt(w: Image, e: Word): nat { TablesNeeded(w, e, First(), Last()) }

    ghost predicate CanDo(w: Image, h: Word, q: seq<Word>, spaces: Spaces) {
      Ready(w, h, q, spaces, d, First(), Last())
    }
  }

  /** One request after the other. */
  function DoAll(w: Image, h: Word, requests: seq<Request>): Image
    decreases |requests|
  {
    if requests == [] then w else DoAll(requests[0].Do(w, h), h, requests[1..])
  }

  // ---------------------------------------------------------------------------------------------
  // Commuting
  // ---------------------------------------------------------------------------------------------

  /** Directories only gain tables. */
  ghost predicate Grown(w: Image, w': Image, spaces: Spaces) {
    forall d, i :: d in spaces && 0 <= i < 1024 && i in spaces[d] ==>
      if Present(Pde(w, d, i)) then Pde(w', d, i) == Pde(w, d, i)
      else !Present(Pde(w', d, i)) || !Big(Pde(w', d, i))
  }

  lemma MapPageGrows(w: Image, h: Word, q: seq<Word>, spaces: Spaces, d: Word, va: Word, pa: Word, permissions: Word)
    requires Owned(w, h, q, spaces) && CanMap(w, q, spaces, d, PdIndex(va))
    ensures Grown(w, MapPage(w, h, d, va, pa, permissions), spaces)
  {
    var w1, w' := EnsureTable(w, h, d, PdIndex(va)), MapPage(w, h, d, va, pa, permissions);
    EnsureTableOwned(w, h, q, spaces, d, PdIndex(va));
    MapPageOwned(w, h, q, spaces, d, va, pa, permissions);
    forall e, j | e in spaces && 0 <= j < 1024 && j in spaces[e]
      ensures if Present(Pde(w, e, j)) then Pde(w', e, j) == Pde(w, e, j)
              else !Present(Pde(w', e, j)) || !Big(Pde(w', e, j))
    {
      assert Pde(w', e, j) == Pde(w1, e, j);
    }
  }

  lemma {:induction false} MapRangeGrows(w: Image, h: Word, q: seq<Word>, spaces: Spaces, d: Word, curr: Word,
                                         last: Word, pa: Word, permissions: Word)
    requires Ready(w, h, q, spaces, d, curr, last)
    ensures PageAligned(curr) && PageAligned(last)
    ensures Grown(w, MapRange(w, h, d, curr, last, pa, permissions), spaces)
    decreases last - curr
  {
    if curr < last {
      var w', r := MapPage(w, h, d, curr, pa, permissions), Remaining(w, q, d, PdIndex(curr));
      RangeTurn(w, h, q, spaces, d, curr, last, pa, permissions);
      MapPageGrows(w, h, q, spaces, d, curr, pa, permissions);
      MapRangeGrows(w', h, r, spaces, d, curr + PAGE_SIZE, last, Plus(pa, PAGE_SIZE), permissions);
    }
  }

  lemma {:induction false} GrownNeedsLess(w: Image, w': Image, spaces: Spaces, d: Word, lo: nat, hi: nat)
    requires Grown(w, w', spaces) && hi <= 1024 && SlotsReady(w, spaces, d, lo, hi)
    ensures SlotsReady(w', spaces, d, lo, hi) && Missing(w', d, lo, hi) <= Missing(w, d, lo, hi)
    decreases hi - lo
  {
    if lo < hi {
      GrownNeedsLess(w, w', spaces, d, lo + 1, hi);
      assert lo in spaces[d];
    }
  }

  // ---------------------------------------------------------------------------------------------
  // The slots a request fills
  // ---------------------------------------------------------------------------------------------

  lemma OtherSlot(w: Image, h: Word, q: seq<Word>, spaces: Spaces, d: Word, va: Word, pa: Word, permissions: Word,
                  e: Word, j: nat)
    requires Owned(w, h, q, spaces) && CanMap(w, q, spaces, d, PdIndex(va))
    requires e in spaces && j < 1024 && (e != d || j != PdIndex(va))
    ensures Pde(MapPage(w, h, d, va, pa, permissions), e, j) == Pde(w, e, j)
  {
    EnsureTableOwned(w, h, q, spaces, d, PdIndex(va));
    MapPageOwned(w, h, q, spaces, d, va, pa, permissions);
    assert Pde(EnsureTable(w, h, d, PdIndex(va)), e, j) == Pde(w, e, j);
  }

  /** Only the slots a range reaches into can get new entries. */
  lemma {:induction false} OtherSlots(w: Image, h: Word, q: seq<Word>, spaces: Spaces, d: Word, curr: Word, last: Word,
                                      pa: Word, permissions: Word, e: Word, j: nat)
    requires Ready(w, h, q, spaces, d, curr, last) && e in spaces && j < 1024
    requires e != d || j < PdIndex(curr) || SlotEnd(curr, last) <= j
    ensures PageAligned(curr) && PageAligned(last)
    ensures Pde(MapRange(w, h, d, curr, last, pa, permissions), e, j) == Pde(w, e, j)
    decreases last - curr
  {
    hide Owned, Ready, EnsureTable;
    ReadyAligned(w, h, q, spaces, d, curr, last);
    if curr < last {
      var w', r := MapPage(w, h, d, curr, pa, permissions), Remaining(w, q, d, PdIndex(curr));
      RangeTurn(w, h, q, spaces, d, curr, last, pa, permissions);
      SlotStep(curr, last);
      OtherSlot(w, h, q, spaces, d, curr, pa, permissions, e, j);
      OtherSlots(w', h, r, spaces, d, curr + PAGE_SIZE, last, Plus(pa, PAGE_SIZE), permissions, e, j);
    }
  }

  /** Slot j is one of those the request reaches into. */
  predicate InReach(a: Request, j: nat) { PdIndex(a.First()) <= j < SlotEnd(a.First(), a.Last()) }

  /** A request gives every slot it reaches into a table and leaves all others alone. */
  lemma RequestSlots(w: Image, h: Word, q: seq<Word>, spaces: Spaces, a: Request, e: Word, j: nat)
    requires a.CanDo(w, h, q, spaces) && PageAligned(a.paddr) && e in spaces && j < 1024
    ensures if e == a.d && InReach(a, j) then Present(Pde(a.Do(w, h), e, j)) else Pde(a.Do(w, h), e, j) == Pde(w, e, j)
  {
    hide Owned, Ready, MapRange, SlotEnd;
    ReadyAligned(w, h, q, spaces, a.d, a.First(), a.Last());
    if e == a.d && InReach(a, j) {
      var p := PageInSlot(a.First(), a.Last(), j);
      RangeInstalls(w, h, q, spaces, a.d, a.First(), a.Last(), a.paddr, a.permissions, p);
    } else {
      OtherSlots(w, h, q, spaces, a.d, a.First(), a.Last(), a.paddr, a.permissions, e, j);
    }
  }

  /** A range has a page in every slot it reaches into. */
  lemma PageInSlot(first: Word, last: Word, j: nat) returns (p: Word)
    requires PageAligned(first) && PageAligned(last) && PdIndex(first) <= j < SlotEnd(first, last)
    ensures PageAligned(p) && first <= p < last && PdIndex(p) == j
  {
    p := if PdIndex(first) == j then first else j * 0x40_0000;
  }

  /** How many of the slots from k on are in reach of either request and have no table. */
  function MissingEither(w: Image, d: Word, a: Request, b: Request, k: nat): nat
    requires k <= 1024
    decreases 1024 - k
  {
    if k == 1024 then 0
    else
      var here := (InReach(a, k) || InReach(b, k)) && !Present(Pde(w, d, k));
      (if here then 1 else 0) + MissingEither(w, d, a, b, k + 1)
  }

  lemma {:induction false} MissingSwap(w: Image, d: Word, a: Request, b: Request, k: nat)
    requires k <= 1024
    ensures MissingEither(w, d, a, b, k) == MissingEither(w, d, b, a, k)
    decreases 1024 - k
  {
    hide InReach;
    if k < 1024 { MissingSwap(w, d, a, b, k + 1); }
  }

  /** Counted over the slots from k on, for one request. */
  lemma {:induction false} MissingOne(w: Image, d: Word, a: Request, k: nat)
    requires k <= 1024
    ensures MissingEither(w, d, a, a, k)
         == if k <= PdIndex(a.First()) then a.CostAt(w, d) else Missing(w, d, k, SlotEnd(a.First(), a.Last()))
    decreases 1024 - k
  {
    if k < 1024 { MissingOne(w, d, a, k + 1); }
  }

  /** Serving one request first leaves exactly the slots of the other that are still missing. */
  lemma {:induction false} MissingSplit(w: Image, w': Image, d: Word, a: Request, b: Request, k: nat)
    requires k <= 1024
    requires forall j :: 0 <= j < 1024 ==>
               if InReach(a, j) then Present(Pde(w', d, j)) else Pde(w', d, j) == Pde(w, d, j)
    ensures MissingEither(w, d, a, b, k) == MissingEither(w, d, a, a, k) + MissingEither(w', d, b, b, k)
    ensures MissingEither(w, d, b, b, k) <= MissingEither(w, d, a, b, k)
    decreases 1024 - k
  {
    hide InReach, Pde;
    if k < 1024 { MissingSplit(w, w', d, a, b, k + 1); }
  }

  /** What two requests cost together does not depend on their order, and neither costs more alone. */
  lemma CostTogether(w: Image, h: Word, q: seq<Word>, spaces: Spaces, a: Request, b: Request)
    requires a.CanDo(w, h, q, spaces) && PageAligned(a.paddr) && b.d in spaces
    ensures var w' := a.Do(w, h);
      && b.Cost(w) <= a.Cost(w) + b.Cost(w')
      && a.Cost(w) + b.Cost(w') == if a.d == b.d then MissingEither(w, a.d, a, b, 0) else a.Cost(w) + b.Cost(w)
  {
    hide Owned, Ready, MapRange, InReach, Pde, Missing, SlotEnd;
    var w' := a.Do(w, h);
    forall j | 0 <= j < 1024
      ensures if b.d == a.d && InReach(a, j) then Present(Pde(w', b.d, j)) else Pde(w', b.d, j) == Pde(w, b.d, j)
    {
      RequestSlots(w, h, q, spaces, a, b.d, j);
    }
    if a.d == b.d {
      MissingSplit(w, w', a.d, a, b, 0);
      MissingOne(w, a.d, a, 0);
      MissingOne(w, a.d, b, 0);
      MissingOne(w', a.d, b, 0);
    } else {
      MissingSame(w, w', b.d, PdIndex(b.First()), SlotEnd(b.First(), b.Last()));
    }
  }

  lemma GrownWasReady(w: Image, w': Image, spaces: Spaces, d: Word, lo: nat, hi: nat)
    requires Grown(w, w', spaces) && hi <= 1024 && SlotsReady(w', spaces, d, lo, hi)
    ensures SlotsReady(w, spaces, d, lo, hi)
  {
  }

  /** If b can be served after a, it can be served before a. */
  lemma CanLead(w: Image, h: Word, q: seq<Word>, spaces: Spaces, a: Request, b: Request)
    requires a.CanDo(w, h, q, spaces) && PageAligned(a.paddr) && PageAligned(b.paddr) && a.Cost(w) <= |q|
    requires b.CanDo(a.Do(w, h), h, q[a.Cost(w)..], spaces)
    ensures b.CanDo(w, h, q, spaces) && b.Cost(w) <= |q|
    ensures a.CanDo(b.Do(w, h), h, q[b.Cost(w)..], spaces)
    ensures a.Cost(w) + b.Cost(a.Do(w, h)) == b.Cost(w) + a.Cost(b.Do(w, h))
  {
    hide Owned, MapRange, Missing, SlotsReady, SlotEnd, MissingEither;
    MapRangeGrows(w, h, q, spaces, a.d, a.First(), a.Last(), a.paddr, a.permissions);
    GrownWasReady(w, a.Do(w, h), spaces, b.d, PdIndex(b.First()), SlotEnd(b.First(), b.Last()));
    CanDoKnown(w, h, q, spaces, a);
    CanDoKnown(a.Do(w, h), h, q[a.Cost(w)..], spaces, b);
    CostTogether(w, h, q, spaces, a, b);
    assert b.CanDo(w, h, q, spaces);
    CostTogether(w, h, q, spaces, b, a);
    if a.d == b.d { MissingSwap(w, a.d, a, b, 0); }
    MapRangeOwned(w, h, q, spaces, b.d, b.First(), b.Last(), b.paddr, b.permissions);
    MapRangeGrows(w, h, q, spaces, b.d, b.First(), b.Last(), b.paddr, b.permissions);
    GrownNeedsLess(w, b.Do(w, h), spaces, a.d, PdIndex(a.First()), SlotEnd(a.First(), a.Last()));
  }

  lemma CanDoKnown(w: Image, h: Word, q: seq<Word>, spaces: Spaces, a: Request)
    requires a.CanDo(w, h, q, spaces)
    ensures a.d in spaces && a.Cost(w) <= |q| && Owned(w, h, q, spaces)
    ensures SlotsReady(w, spaces, a.d, PdIndex(a.First()), SlotEnd(a.First(), a.Last()))
  {
    hide Owned;
  }

  predicate Disjoint(a: Request, b: Request) {
    a.d != b.d || a.Last() <= b.First() || b.Last() <= a.First()
  }

  /** What a request makes of the translation of x. */
  lemma DoTranslate(w: Image, h: Word, q: seq<Word>, spaces: Spaces, a: Request, e: Word, x: Word)
    requires a.CanDo(w, h, q, spaces) && a.Proper() && e in spaces && PdIndex(x) in spaces[e]
    ensures Translate(a.Do(w, h), e, x) == RangeTranslate(w, a.d, a.First(), a.Last(), a.paddr, a.permissions, e, x)
    ensures SlotFlags(a.Do(w, h), e, PdIndex(x)) == SlotFlags(w, e, PdIndex(x))
    ensures PageAligned(e)
  {
    MapRangeTranslate(w, h, q, spaces, a.d, a.First(), a.Last(), a.paddr, a.permissions, e, x);
    ReadyDirectory(w, h, q, spaces, a.d, a.First(), a.Last(), e);
  }

  /** Requests for different pages can change places: if one can be served after the other, then also
      before it, at the same cost in pages, and every address of every directory ends up translated the
      same, although the tables may lie in different pages. */
  lemma RequestsCommute(w: Image, h: Word, q: seq<Word>, spaces: Spaces, a: Request, b: Request, e: Word, x: Word)
    requires a.CanDo(w, h, q, spaces) && a.Cost(w) <= |q| && b.CanDo(a.Do(w, h), h, q[a.Cost(w)..], spaces)
    requires a.Proper() && b.Proper() && Disjoint(a, b)
    requires e in spaces && PdIndex(x) in spaces[e]
    ensures b.CanDo(w, h, q, spaces) && b.Cost(w) <= |q| && a.CanDo(b.Do(w, h), h, q[b.Cost(w)..], spaces)
    ensures a.Cost(w) + b.Cost(a.Do(w, h)) == b.Cost(w) + a.Cost(b.Do(w, h))
    ensures Walk(b.Do(a.Do(w, h), h), Phys(e), x) == Walk(a.Do(b.Do(w, h), h), Phys(e), x)
  {
    hide Owned, Ready, MapRange, Walk, Translate, Missing;
    CanLead(w, h, q, spaces, a, b);
    DoTranslate(w, h, q, spaces, a, e, x);
    DoTranslate(w, h, q, spaces, b, e, x);
    DoTranslate(a.Do(w, h), h, q[a.Cost(w)..], spaces, b, e, x);
    DoTranslate(b.Do(w, h), h, q[b.Cost(w)..], spaces, a, e, x);
    WalkIs(b.Do(a.Do(w, h), h), e, x);
    WalkIs(a.Do(b.Do(w, h), h), e, x);
  }

  // ---------------------------------------------------------------------------------------------
  // Every run
  // ---------------------------------------------------------------------------------------------

  /** What the memory manager is asked for: map pages, hand out a page, take one back, start using
      a page as a directory (with the slots the caller has cleared), or let a client write a word. */
  datatype VmOp =
    | MapPages(request: Request)
    | AllocPage
    | FreePage(page: Word)
    | NewDirectory(page: Word, slots: set<nat>)
    | ClientWrite(a: Word, v: Word)

  ghost predicate NobodyOwns(w: Image, h: Word, q: seq<Word>, spaces: Spaces, p: Word) {
    && PageAligned(p) && Outside(h, p) && p !in q && p !in spaces
    && forall d, i | Tabled(w, spaces, d, i) :: TableOf(w, d, i) != p
  }

  ghost predicate VmLegal(w: Image, h: Word, q: seq<Word>, spaces: Spaces, op: VmOp) {
    match op
    case MapPages(r) => r.CanDo(w, h, q, spaces)
    case AllocPage => q != []
    case FreePage(p) => p != 0 && NobodyOwns(w, h, q, spaces, p)
    case NewDirectory(p, slots) =>
      NobodyOwns(w, h, q, spaces, p) && forall i :: i in slots && i < 1024 ==> !Present(Pde(w, p, i))
    case ClientWrite(a, _) => Elsewhere(h, q, spaces, a)
  }

  function VmStep(w: Image, h: Word, op: VmOp): Image {
    match op
    case MapPages(r) => r.Do(w, h)
    case AllocPage => Alloc(w, h)
    case FreePage(p) => Free(w, h, p)
    case NewDirectory(_, _) => w
    case ClientWrite(a, v) => w[a := v]
  }

  function VmQueue(w: Image, q: seq<Word>, op: VmOp): seq<Word> {
    match op
    case MapPages(r) => if r.Cost(w) <= |q| then q[r.Cost(w)..] else q
    case AllocPage => if q == [] then q else q[1..]
    case FreePage(p) => q + [p]
    case NewDirectory(_, _) => q
    case ClientWrite(_, _) => q
  }

  function VmSpaces(spaces: Spaces, op: VmOp): Spaces {
    if op.NewDirectory? then spaces[op.page := op.slots] else spaces
  }

  ghost predicate VmLegalRun(w: Image, h: Word, q: seq<Word>, spaces: Spaces, ops: seq<VmOp>)
    decreases |ops|
  {
    ops == [] || (VmLegal(w, h, q, spaces, ops[0])
      && VmLegalRun(VmStep(w, h, ops[0]), h, VmQueue(w, q, ops[0]), VmSpaces(spaces, ops[0]), ops[1..]))
  }

  function VmRun(w: Image, h: Word, ops: seq<VmOp>): Image
    decreases |ops|
  {
    if ops == [] then w else VmRun(VmStep(w, h, ops[0]), h, ops[1..])
  }

  lemma AllocKeepsOwned(w: Image, h: Word, q: seq<Word>, spaces: Spaces)
    requires Owned(w, h, q, spaces) && q != []
    ensures Owned(Alloc(w, h), h, q[1..], spaces)
  {
    AllocPool(w, h, q);
    forall d, i | d in spaces && 0 <= i < 1024 ensures Pde(Alloc(w, h), d, i) == Pde(w, d, i) {
      DirectoryCell(w, h, q, spaces, d, i);
    }
    OwnedKeeps(w, Alloc(w, h), h, q, q[1..], spaces);
  }

  lemma FreeKeepsOwned(w: Image, h: Word, q: seq<Word>, spaces: Spaces, p: Word)
    requires Owned(w, h, q, spaces) && p != 0 && NobodyOwns(w, h, q, spaces, p)
    ensures Owned(Free(w, h, p), h, q + [p], spaces)
  {
    var w' := Free(w, h, p);
    FreePool(w, h, q, p);
    forall d, i | d in spaces && 0 <= i < 1024 ensures Pde(w', d, i) == Pde(w, d, i) {
      EntryCell(d, i);
      NotInside(h, d);
      InPage(p, 0);
    }
    forall d, i | Tabled(w', spaces, d, i)
      ensures Tabled(w, spaces, d, i) && TableOf(w', d, i) == TableOf(w, d, i)
    {
      assert Pde(w', d, i) == Pde(w, d, i);
    }
  }

  lemma NewDirectoryOwned(w: Image, h: Word, q: seq<Word>, spaces: Spaces, p: Word, slots: set<nat>)
    requires Owned(w, h, q, spaces) && NobodyOwns(w, h, q, spaces, p)
    requires forall i :: i in slots && i < 1024 ==> !Present(Pde(w, p, i))
    ensures Owned(w, h, q, spaces[p := slots])
  {
    forall d, i | Tabled(w, spaces[p := slots], d, i) ensures Tabled(w, spaces, d, i) {
    }
  }

  function VmRunQueue(w: Image, h: Word, q: seq<Word>, ops: seq<VmOp>): seq<Word>
    decreases |ops|
  {
    if ops == [] then q else VmRunQueue(VmStep(w, h, ops[0]), h, VmQueue(w, q, ops[0]), ops[1..])
  }

  function VmRunSpaces(spaces: Spaces, ops: seq<VmOp>): Spaces
    decreases |ops|
  {
    if ops == [] then spaces else VmRunSpaces(VmSpaces(spaces, ops[0]), ops[1..])
  }

  lemma VmStepOwned(w: Image, h: Word, q: seq<Word>, spaces: Spaces, op: VmOp)
    requires Owned(w, h, q, spaces) && VmLegal(w, h, q, spaces, op)
    ensures Owned(VmStep(w, h, op), h, VmQueue(w, q, op), VmSpaces(spaces, op))
  {
    match op {
      case MapPages(r) => MapRangeOwned(w, h, q, spaces, r.d, r.First(), r.Last(), r.paddr, r.permissions);
      case AllocPage => AllocKeepsOwned(w, h, q, spaces);
      case FreePage(p) => FreeKeepsOwned(w, h, q, spaces, p);
      case NewDirectory(p, slots) => NewDirectoryOwned(w, h, q, spaces, p, slots);
      case ClientWrite(a, v) => WriteKeepsOwned(w, h, q, spaces, a, v);
    }
  }

  /** Whatever is asked for, directories, page tables and free pages stay different pages, and no
      two slots ever share a table. */
  lemma {:induction false} VmRunOwned(w: Image, h: Word, q: seq<Word>, spaces: Spaces, ops: seq<VmOp>)
    requires Owned(w, h, q, spaces) && VmLegalRun(w, h, q, spaces, ops)
    ensures Owned(VmRun(w, h, ops), h, VmRunQueue(w, h, q, ops), VmRunSpaces(spaces, ops))
    decreases |ops|
  {
    if ops != [] {
      VmStepOwned(w, h, q, spaces, ops[0]);
      VmRunOwned(VmStep(w, h, ops[0]), h, VmQueue(w, q, ops[0]), VmSpaces(spaces, ops[0]), ops[1..]);
    }
  }
}

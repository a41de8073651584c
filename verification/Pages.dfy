/** kernel/mm/pages.c: the page allocator. Free pages are kept on a circular list whose links lie
    inside the pages (`struct page`: word 0 a magic number, words 1 and 2 the list node), threaded
    through the registry's list head at address h. */
module Pages {
  import opened Words
  import opened Layout
  import opened Lists
  import opened ListCode

  const MAGIC: Word := 0xDEAD_BEAF

  predicate IsPage(p: Word) { p != 0 && PageAligned(p) }

  /** The node at h is not inside page p. */
  predicate Outside(h: Word, p: Word) { h + 8 <= p || p + PAGE_SIZE <= h }

  function PageOf(x: Word): Word { x - x % PAGE_SIZE }

  lemma InPage(p: Word, k: nat)
    requires PageAligned(p) && k < PAGE_SIZE
    ensures p + k < SPACE && (p + k) % PAGE_SIZE == k && PageOf(p + k) == p
  {
  }

  function PageNodes(q: seq<Word>): (s: seq<Word>)
    ensures |s| == |q|
  {
    seq(|q|, i requires 0 <= i < |q| => Plus(q[i], 4))
  }

  /** Memory w holds the free pages q, first to be handed out first, on the list headed at h. */
  ghost predicate Pool(w: Image, h: Word, q: seq<Word>) {
    && (forall p :: p in q ==> IsPage(p) && Outside(h, p) && w[p] == MAGIC)
    && Ring(w, [h] + PageNodes(q))
  }

  /** The cells that hold the list: the registry's head and the nodes inside the pages of q. */
  predicate LinkCell(h: Word, q: seq<Word>, x: Word) {
    x == h || x == Plus(h, 4) || ((x % PAGE_SIZE == 4 || x % PAGE_SIZE == 8) && PageOf(x) in q)
  }

  ghost predicate OnlyLinkCells(w: Image, w': Image, h: Word, q: seq<Word>) {
    forall x: Word :: !LinkCell(h, q, x) ==> w'[x] == w[x]
  }

  /** The page `kpalloc` finds: NULL if the list is empty. */
  function FirstPage(w: Image, h: Word): Word { if Next(w, h) == h then 0 else Minus(Next(w, h), 4) }

  /** `kpalloc` takes the node of that page off its list, NULL or not. */
  function Alloc(w: Image, h: Word): Image { Delete(w, Plus(FirstPage(w, h), 4)) }

  function Free(w: Image, h: Word, p: Word): Image { AddTail(w[p := MAGIC], Plus(p, 4), h) }

  lemma PoolOrder(w: Image, h: Word, q: seq<Word>)
    requires Pool(w, h, q)
    ensures IsNode(h) && (q != [] ==> h != Next(w, h) == Plus(q[0], 4) && FirstPage(w, h) == q[0])
    ensures q == [] ==> Next(w, h) == h
  {
    var s := [h] + PageNodes(q);
    assert s[0] == h;
    if q != [] {
      assert q[0] in q && s[1] == Plus(q[0], 4);
      InPage(q[0], 4);
    } else {
      assert s == [h];
    }
  }

  lemma PoolDistinct(w: Image, h: Word, q: seq<Word>)
    requires Pool(w, h, q)
    ensures forall i, j :: 0 <= i < j < |q| ==> q[i] != q[j]
  {
    var s := [h] + PageNodes(q);
    forall i, j | 0 <= i < j < |q| ensures q[i] != q[j] {
      assert s[i + 1] == Plus(q[i], 4) && s[j + 1] == Plus(q[j], 4);
      assert Apart(s[i + 1], s[j + 1]);
    }
  }

  /** Where a ring node of the pool is. */
  lemma NodeCells(h: Word, q: seq<Word>, e: Word)
    requires (forall p :: p in q ==> IsPage(p)) && e in [h] + PageNodes(q)
    ensures LinkCell(h, q, e) && LinkCell(h, q, Plus(e, 4))
    ensures e == h || (4 <= e && e - 4 in q && e == Plus(e - 4, 4) && e % PAGE_SIZE == 4)
  {
    if e != h {
      var s := [h] + PageNodes(q);
      var i :| 0 <= i < |s| && s[i] == e;
      var p := q[i - 1];
      assert e == Plus(p, 4) && p in q;
      InPage(p, 4);
      InPage(p, 8);
    }
  }

  lemma NodeOwner(h: Word, q: seq<Word>, e: Word)
    requires (forall p :: p in q ==> IsPage(p)) && e in [h] + PageNodes(q)
    ensures e == h || (4 <= e && e - 4 in q && Plus(e, 4) == e + 4)
  {
    NodeCells(h, q, e);
    if e != h { InPage(e - 4, 8); }
  }

  lemma JoinCells(w: Image, w': Image, h: Word, q: seq<Word>, a: Word, b: Word)
    requires (forall p :: p in q ==> IsPage(p)) && a in [h] + PageNodes(q) && b in [h] + PageNodes(q)
    requires OnlyLinkCells(w, w', h, q)
    ensures OnlyLinkCells(w, Join(w', a, b), h, q)
  {
    NodeCells(h, q, a);
    NodeCells(h, q, b);
  }

  lemma AllocCells(w: Image, h: Word, q: seq<Word>)
    requires Pool(w, h, q) && q != []
    ensures OnlyLinkCells(w, Alloc(w, h), h, q)
  {
    var s, e := [h] + PageNodes(q), Next(w, h);
    PoolOrder(w, h, q);
    assert s[0] == h && s[1] == e;
    assert if |q| > 1 then Next(w, e) == s[2] else Next(w, e) == h;
    assert Prev(w, e) == h && Next(w, e) in s && h in s && e in s;
    JoinCells(w, w, h, q, h, Next(w, e));
    NodeCells(h, q, e);
  }

  /** Links lie outside every page's magic word. */
  lemma MagicCells(w: Image, w': Image, h: Word, q: seq<Word>, p: Word)
    requires OnlyLinkCells(w, w', h, q) && IsPage(p) && Outside(h, p) && IsNode(h)
    ensures w'[p] == w[p]
  {
    assert !LinkCell(h, q, p);
  }

  /** Allocation takes the page that has waited longest, and writes to nothing but links. */
  lemma AllocPool(w: Image, h: Word, q: seq<Word>)
    requires Pool(w, h, q) && q != []
    ensures FirstPage(w, h) == q[0] && q[0] !in q[1..]
    ensures Pool(Alloc(w, h), h, q[1..]) && OnlyLinkCells(w, Alloc(w, h), h, q)
    ensures var p := q[0]; Alloc(w, h)[p] == MAGIC && Alloc(w, h)[Plus(p, 4)] == 0 && Alloc(w, h)[Plus(p, 8)] == 0
  {
    PoolOrder(w, h, q);
    PoolDistinct(w, h, q);
    var e, r := Next(w, h), q[1..];
    var w' := Alloc(w, h);
    assert q[0] in q;
    InPage(q[0], 8);
    assert [h] + PageNodes(q) == [h] + [e] + PageNodes(r);
    DeleteRing(w, [h], e, PageNodes(r));
    AllocCells(w, h, q);
    forall p | p in q ensures w'[p] == MAGIC {
      MagicCells(w, w', h, q, p);
    }
  }

  /** The only memories an empty pool's `kpalloc` leaves alone outside the pool's links: the registry
      itself lies where a page at NULL would have its node, or the words it overwrites are zero. */
  predicate NullHarmless(w: Image, h: Word) {
    h == 4 || (w[4] == 0 && (h == 8 || (w[8] == 0 && w[0] == 0)))
  }

  /** On an empty pool `kpalloc` returns NULL, but not before treating address 4 as the list node of a
      page at NULL and writing through it. It stays within the pool's own links exactly when the pool
      is not empty or what it overwrites around NULL is zero anyway. */
  lemma AllocNeedsPage(w: Image, h: Word, q: seq<Word>)
    requires Pool(w, h, q)
    ensures FirstPage(w, h) == 0 <==> q == []
    ensures OnlyLinkCells(w, Alloc(w, h), h, q) <==> q != [] || NullHarmless(w, h)
  {
    PoolOrder(w, h, q);
    if q != [] {
      AllocCells(w, h, q);
      assert q[0] in q;
    } else {
      AllocNull(w, h);
      assert forall x: Word :: LinkCell(h, q, x) <==> x == h || x == Plus(h, 4);
    }
  }

  lemma AllocNull(w: Image, h: Word)
    requires IsNode(h) && Next(w, h) == h && (h == 4 || h == 8 ==> Prev(w, h) == h)
    ensures (forall x: Word :: x != h && x != Plus(h, 4) ==> Alloc(w, h)[x] == w[x]) <==> NullHarmless(w, h)
  {
    var next, prev, w' := w[4], w[8], Alloc(w, h);
    assert w' == w[prev := next][Plus(next, 4) := prev][4 := 0][8 := 0];
    if !NullHarmless(w, h) {
      if w[4] != 0 {
        assert w'[4] != w[4];
      } else if w[8] != 0 {
        assert w'[8] != w[8];
      } else {
        assert w'[0] != w[0];
      }
    }
  }

  lemma PagesApart(p: Word, q: Word)
    requires PageAligned(p) && PageAligned(q) && p != q
    ensures p + PAGE_SIZE <= q || q + PAGE_SIZE <= p
  {
  }

  lemma PageSpare(h: Word, q: seq<Word>, p: Word)
    requires (forall x :: x in q ==> IsPage(x)) && IsNode(h) && IsPage(p) && Outside(h, p) && p !in q
    ensures Spare(Plus(p, 4), [h] + PageNodes(q)) && Plus(p, 4) == p + 4
    ensures forall e :: e in [h] + PageNodes(q) ==> e != p && Plus(e, 4) != p
  {
    hide PageNodes, IsNode, Outside, IsPage;
    PageNode(p);
    forall e | e in [h] + PageNodes(q) ensures Apart(p + 4, e) && e != p && Plus(e, 4) != p {
      NodeOwner(h, q, e);
      if e != h {
        NodeApart(p, e - 4);
      } else {
        HeadApart(p, h);
      }
    }
  }

  lemma PageNode(p: Word)
    requires IsPage(p)
    ensures IsNode(Plus(p, 4)) && Plus(p, 4) == p + 4
  {
    InPage(p, 8);
    Aligned4(p);
  }

  lemma Aligned4(p: int)
    requires p % PAGE_SIZE == 0
    ensures p % 4 == 0
  {
    assert p == 4 * (1024 * (p / PAGE_SIZE));
  }

  lemma HeadApart(p: Word, h: Word)
    requires IsPage(p) && IsNode(h) && Outside(h, p)
    ensures p + 4 < SPACE && Apart(p + 4, h) && h != p && Plus(h, 4) != p
  {
    InPage(p, 4);
  }

  lemma NodeApart(p: Word, x: Word)
    requires IsPage(p) && IsPage(x) && p != x
    ensures p + 4 < SPACE && x + 8 < SPACE && Apart(p + 4, x + 4) && x + 4 != p && x + 8 != p
  {
    PagesApart(p, x);
    InPage(p, 4);
    InPage(x, 8);
  }

  /** Freeing puts the page at the end of the queue; it writes to links and the page's magic word. */
  lemma FreePool(w: Image, h: Word, q: seq<Word>, p: Word)
    requires Pool(w, h, q) && IsPage(p) && Outside(h, p) && p !in q
    ensures Pool(Free(w, h, p), h, q + [p])
    ensures OnlyLinkCells(w[p := MAGIC], Free(w, h, p), h, q + [p])
  {
    var w1, s, t := w[p := MAGIC], [h] + PageNodes(q), [h] + PageNodes(q + [p]);
    var e, w' := Plus(p, 4), Free(w, h, p);
    PoolOrder(w, h, q);
    PageSpare(h, q, p);
    SameLinks(w, w1, s);
    SpareSeparate(e, s);
    AddTailRing(w1, e, s);
    assert s + [e] == t;
    assert Prev(w1, h) == s[|s| - 1] && t[|s| - 1] == s[|s| - 1] && t[0] == h && t[|s|] == e;
    JoinCells(w1, w1, h, q + [p], Prev(w1, h), e);
    JoinCells(w1, Join(w1, Prev(w1, h), e), h, q + [p], e, h);
    forall x | x in q + [p] ensures w'[x] == MAGIC {
      MagicCells(w1, w', h, q + [p], x);
    }
  }

  lemma SameLinks(w: Image, w1: Image, s: seq<Word>)
    requires Ring(w, s) && forall e :: e in s ==> Next(w, e) == Next(w1, e) && Prev(w, e) == Prev(w1, e)
    ensures Ring(w1, s)
  {
  }

  // ---------------------------------------------------------------------------------------------
  // The code
  // ---------------------------------------------------------------------------------------------

  method Kpalloc(m: Ram, h: Word, ghost q: seq<Word>) returns (page: Word)
    requires Pool(m.cells, h, q) && q != []
    modifies m
    ensures m.cells == Alloc(old(m.cells), h) && page == FirstPage(old(m.cells), h)
    ensures page == q[0] && Pool(m.cells, h, q[1..])
  {
    hide Pool, Ring, Delete, PageNodes, OnlyLinkCells, PageAligned;
    AllocPool(m.cells, h, q);
    KpallocLinks(m.cells, h, q);
    // list_first_entry_or_null
    var pos := m.Load(h);
    page := 0;
    if pos != h {
      page := Minus(pos, 4);
    }
    ListDel(m, [h], Plus(page, 4), PageNodes(q[1..]));
    if page != 0 {
      var magic := m.Load(page);
      assert magic == MAGIC;
    }
  }

  lemma KpallocLinks(w: Image, h: Word, q: seq<Word>)
    requires Pool(w, h, q) && q != []
    ensures IsNode(h) && IsPage(q[0]) && q[0] % 4 == 0 && Next(w, h) == Plus(q[0], 4) == q[0] + 4 != h
    ensures Ring(w, [h] + [Next(w, h)] + PageNodes(q[1..]))
  {
    PoolOrder(w, h, q);
    assert q[0] in q;
    InPage(q[0], 4);
    Aligned4(q[0]);
    assert [h] + PageNodes(q) == [h] + [Next(w, h)] + PageNodes(q[1..]);
  }

  lemma KpfreeLinks(w: Image, h: Word, q: seq<Word>, page: Word)
    requires Pool(w, h, q) && IsPage(page)
    ensures page % 4 == 0
    ensures Ring(w, [h] + PageNodes(q)) && IsNode(h) && forall p :: p in q ==> IsPage(p)
  {
    hide Ring, PageNodes, Outside;
    PoolOrder(w, h, q);
    Aligned4(page);
  }

  method Kpfree(m: Ram, h: Word, page: Word, ghost q: seq<Word>)
    requires Pool(m.cells, h, q) && IsPage(page) && Outside(h, page) && page !in q
    modifies m
    ensures m.cells == Free(old(m.cells), h, page) && Pool(m.cells, h, q + [page])
  {
    hide AddTail, PageNodes, Spare, LinkCell, Pool, Ring, PageAligned;
    assert page != 0 && PageAligned(page);
    FreePool(m.cells, h, q, page);
    KpfreeLinks(m.cells, h, q, page);
    PageSpare(h, q, page);
    SameLinks(m.cells, m.cells[page := MAGIC], [h] + PageNodes(q));
    m.Store(page, MAGIC);
    ListAddTail(m, Plus(page, 4), h, PageNodes(q));
  }

  /** The pages from first up to last, in ascending order. */
  function PagesFrom(first: Word, last: Word): (ps: seq<Word>)
    requires PageAligned(first) && PageAligned(last)
    decreases last - first
  {
    if first >= last then [] else (NextPage(first, last); [first] + PagesFrom(first + PAGE_SIZE, last))
  }

  lemma NextPage(first: Word, last: Word)
    requires PageAligned(first) && PageAligned(last) && first < last
    ensures first + PAGE_SIZE <= last && PageAligned(first + PAGE_SIZE)
  {
  }

  lemma {:induction false} PagesFromExact(first: Word, last: Word, x: Word)
    requires PageAligned(first) && PageAligned(last)
    ensures x in PagesFrom(first, last) <==> PageAligned(x) && first <= x < last
    decreases last - first
  {
    if first < last {
      NextPage(first, last);
      PagesFromExact(first + PAGE_SIZE, last, x);
      if PageAligned(x) && x != first { PagesApart(first, x); }
    }
  }

  lemma {:induction false} PagesFromAscending(first: Word, last: Word)
    requires PageAligned(first) && PageAligned(last)
    ensures var ps := PagesFrom(first, last); forall i, j :: 0 <= i < j < |ps| ==> ps[i] < ps[j]
    decreases last - first
  {
    if first < last {
      NextPage(first, last);
      var rest := PagesFrom(first + PAGE_SIZE, last);
      PagesFromAscending(first + PAGE_SIZE, last);
      var ps := PagesFrom(first, last);
      assert ps == [first] + rest;
      forall i, j | 0 <= i < j < |ps| ensures ps[i] < ps[j] {
        assert ps[j] == rest[j - 1] && rest[j - 1] in rest;
        PagesFromExact(first + PAGE_SIZE, last, ps[j]);
        assert i > 0 ==> ps[i] == rest[i - 1];
      }
    }
  }

  function FreeAll(w: Image, h: Word, ps: seq<Word>): Image
    decreases |ps|
  {
    if ps == [] then w else FreeAll(Free(w, h, ps[0]), h, ps[1..])
  }

  /** Freeing a run of pages queues them in the order given. */
  lemma {:induction false} FreeAllPool(w: Image, h: Word, q: seq<Word>, ps: seq<Word>)
    requires Pool(w, h, q)
    requires forall p :: p in ps ==> IsPage(p) && Outside(h, p) && p !in q
    requires forall i, j :: 0 <= i < j < |ps| ==> ps[i] != ps[j]
    ensures Pool(FreeAll(w, h, ps), h, q + ps)
    ensures forall x: Word :: x != h && x != Plus(h, 4) && PageOf(x) !in q + ps ==> FreeAll(w, h, ps)[x] == w[x]
    decreases |ps|
  {
    hide Pool, Free, Outside;
    if ps == [] {
      assert q + ps == q;
    } else {
      FreePool(w, h, q, ps[0]);
      InPage(ps[0], 0);
      assert forall i :: 0 <= i < |ps| - 1 ==> ps[1..][i] == ps[i + 1];
      FreeAllPool(Free(w, h, ps[0]), h, q + [ps[0]], ps[1..]);
      assert q + [ps[0]] + ps[1..] == q + ps;
    }
  }

  method KpfreeRange(m: Ram, h: Word, start: Word, end: Word, ghost q: seq<Word>, ghost ps: seq<Word>)
    requires Pool(m.cells, h, q) && ps == PagesFrom(PageUp(start), PageUp(end))
    requires forall p :: p in ps ==> IsPage(p) && Outside(h, p) && p !in q
    modifies m
    ensures m.cells == FreeAll(old(m.cells), h, ps) && Pool(m.cells, h, q + ps)
  {
    hide Pool, PageUp, PagesFrom, FreeAll, Free, IsPage, Outside, PageAligned;
    PageUpAligned(start);
    PageUpAligned(end);
    var first, last := PageUp(start), PageUp(end);
    ghost var done: seq<Word> := [];
    PagesFromAscending(first, last);
    var curr: Word := first;
    assert q + done == q && [] + PagesFrom(first, last) == PagesFrom(first, last);
    while curr < last
      invariant PageAligned(curr) && ps == done + PagesFrom(curr, last)
      invariant Pool(m.cells, h, q + done)
      invariant FreeAll(old(m.cells), h, ps) == FreeAll(m.cells, h, PagesFrom(curr, last))
      decreases last - curr
    {
      RangeStep(ps, done, curr, last);
      FreeAllStep(m.cells, h, curr, PagesFrom(curr + PAGE_SIZE, last));
      Kpfree(m, h, curr, q + done);
      Reassociate(q, done, [curr]);
      done := done + [curr];
      curr := curr + PAGE_SIZE;
    }
    RangeOver(m.cells, h, curr, last);
    assert ps == done;
  }

  lemma FreeAllStep(w: Image, h: Word, p: Word, ps: seq<Word>)
    ensures FreeAll(w, h, [p] + ps) == FreeAll(Free(w, h, p), h, ps)
  {
    assert ([p] + ps)[1..] == ps;
  }

  lemma PageUpAligned(a: Word)
    ensures PageAligned(PageUp(a))
  {
    hide PageUp;
  }

  lemma RangeOver(w: Image, h: Word, curr: Word, last: Word)
    requires PageAligned(curr) && PageAligned(last) && curr >= last
    ensures PagesFrom(curr, last) == [] && FreeAll(w, h, []) == w
  {
  }

  lemma RangeStep(ps: seq<Word>, done: seq<Word>, curr: Word, last: Word)
    requires PageAligned(curr) && PageAligned(last) && curr < last && ps == done + PagesFrom(curr, last)
    requires forall i, j :: 0 <= i < j < |ps| ==> ps[i] < ps[j]
    ensures curr + PAGE_SIZE <= last && PageAligned(curr + PAGE_SIZE) && curr in ps && curr !in done
    ensures ps == done + [curr] + PagesFrom(curr + PAGE_SIZE, last)
    ensures PagesFrom(curr, last) == [curr] + PagesFrom(curr + PAGE_SIZE, last)
    ensures PagesFrom(curr, last)[1..] == PagesFrom(curr + PAGE_SIZE, last)
  {
    NextPage(curr, last);
    assert ps[|done|] == curr;
    assert forall i :: 0 <= i < |done| ==> done[i] == ps[i];
  }

  lemma NoPages(curr: Word, last: Word)
    requires PageAligned(curr) && PageAligned(last) && curr >= last
    ensures PagesFrom(curr, last) == []
  {
  }

  /** Which end pages `kpfree_range` frees, for any two addresses: the page `start` lies in if `start`
      is page-aligned and before `end`, the page `end` lies in if `end` is not page-aligned; but an end
      inside the last page of the address space rounds up to 0, and then no page is freed at all. */
  lemma FreeRangeEnds(start: Word, end: Word)
    ensures var ps := PagesFrom(PageUp(start), PageUp(end));
      && (PageOf(start) in ps <==> PageAligned(start) && start < end <= SPACE - PAGE_SIZE)
      && (PageOf(end) in ps <==> !PageAligned(end) && end < SPACE - PAGE_SIZE && PageUp(start) <= PageOf(end))
      && (end > SPACE - PAGE_SIZE ==> ps == [])
  {
    hide PageUp, PagesFrom;
    PageUpAligned(start);
    PageUpAligned(end);
    PagesFromExact(PageUp(start), PageUp(end), PageOf(start));
    PagesFromExact(PageUp(start), PageUp(end), PageOf(end));
    InPage(PageOf(start), 0);
    InPage(PageOf(end), 0);
    if end > SPACE - PAGE_SIZE { NoPages(PageUp(start), PageUp(end)); }
  }

  // ---------------------------------------------------------------------------------------------
  // Every run
  // ---------------------------------------------------------------------------------------------

  /** What the kernel does with the pool: take a page, give one back, or write a word of its own. */
  datatype Op = TakePage | GivePage(page: Word) | WriteWord(a: Word, v: Word)

  /** The rules for clients: take only when there is a page, give back only what is not free, and
      leave free pages and the registry alone. */
  ghost predicate Legal(h: Word, q: seq<Word>, op: Op) {
    match op
    case TakePage => q != []
    case GivePage(p) => IsPage(p) && Outside(h, p) && p !in q
    case WriteWord(a, v) => a != h && a != Plus(h, 4) && PageOf(a) !in q
  }

  function StepImage(w: Image, h: Word, op: Op): Image {
    match op
    case TakePage => Alloc(w, h)
    case GivePage(p) => Free(w, h, p)
    case WriteWord(a, v) => w[a := v]
  }

  function StepQueue(q: seq<Word>, op: Op): seq<Word> {
    match op
    case TakePage => if q == [] then q else q[1..]
    case GivePage(p) => q + [p]
    case WriteWord(_, _) => q
  }

  ghost predicate LegalRun(h: Word, q: seq<Word>, ops: seq<Op>)
    decreases |ops|
  {
    ops == [] || (Legal(h, q, ops[0]) && LegalRun(h, StepQueue(q, ops[0]), ops[1..]))
  }

  function RunImage(w: Image, h: Word, ops: seq<Op>): Image
    decreases |ops|
  {
    if ops == [] then w else RunImage(StepImage(w, h, ops[0]), h, ops[1..])
  }

  /** The pages `kpalloc` returns along the run, as it reads them from memory. */
  function Taken(w: Image, h: Word, ops: seq<Op>): seq<Word>
    decreases |ops|
  {
    if ops == [] then []
    else (if ops[0].TakePage? then [FirstPage(w, h)] else []) + Taken(StepImage(w, h, ops[0]), h, ops[1..])
  }

  /** The pages given back along the run. */
  function Given(ops: seq<Op>): seq<Word>
    decreases |ops|
  {
    if ops == [] then [] else (if ops[0].GivePage? then [ops[0].page] else []) + Given(ops[1..])
  }

  /** `kpalloc` finds the magic number every time. */
  ghost predicate MagicSeen(w: Image, h: Word, ops: seq<Op>)
    decreases |ops|
  {
    ops == [] || ((ops[0].TakePage? ==> StepImage(w, h, ops[0])[FirstPage(w, h)] == MAGIC)
      && MagicSeen(StepImage(w, h, ops[0]), h, ops[1..]))
  }

  lemma StepPool(w: Image, h: Word, q: seq<Word>, op: Op)
    requires Pool(w, h, q) && Legal(h, q, op)
    ensures Pool(StepImage(w, h, op), h, StepQueue(q, op))
    ensures op.TakePage? ==> FirstPage(w, h) == q[0] && StepImage(w, h, op)[q[0]] == MAGIC
  {
    match op
    case TakePage => AllocPool(w, h, q);
    case GivePage(p) => FreePool(w, h, q, p);
    case WriteWord(a, v) =>
      var s := [h] + PageNodes(q);
      forall e | e in s ensures e != a && Plus(e, 4) != a {
        NodeCells(h, q, e);
        if e != h { InPage(e - 4, 4); InPage(e - 4, 8); }
      }
      SameLinks(w, w[a := v], s);
  }

  /** The allocator is a first-in first-out queue that neither loses nor invents pages: over every
      legal run, the pages taken followed by the pages still free are the pages free at the start
      followed by the pages given back. */
  lemma {:induction false} FifoRun(w: Image, h: Word, q: seq<Word>, ops: seq<Op>) returns (q': seq<Word>)
    requires Pool(w, h, q) && LegalRun(h, q, ops)
    ensures Pool(RunImage(w, h, ops), h, q')
    ensures Taken(w, h, ops) + q' == q + Given(ops)
    ensures MagicSeen(w, h, ops)
    decreases |ops|
  {
    if ops == [] {
      q' := q;
    } else {
      StepPool(w, h, q, ops[0]);
      var w1, q1 := StepImage(w, h, ops[0]), StepQueue(q, ops[0]);
      q' := FifoRun(w1, h, q1, ops[1..]);
      var t, g := Taken(w1, h, ops[1..]), Given(ops[1..]);
      FifoStep(q, ops[0], t, g, q');
    }
  }

  lemma FifoStep(q: seq<Word>, op: Op, t: seq<Word>, g: seq<Word>, q': seq<Word>)
    requires t + q' == StepQueue(q, op) + g && (op.TakePage? ==> q != [])
    ensures (if op.TakePage? then [q[0]] else []) + t + q' == q + ((if op.GivePage? then [op.page] else []) + g)
  {
    match op
    case TakePage => FifoTake(q, t, g, q');
    case GivePage(p) =>
      Reassociate([], t, q');
      Reassociate(q, [p], g);
      assert [] + (t + q') == t + q';
    case WriteWord(_, _) =>
      Reassociate([], t, q');
      assert [] + (t + q') == t + q' && [] + g == g;
  }

  lemma FifoTake(q: seq<Word>, t: seq<Word>, g: seq<Word>, q': seq<Word>)
    requires q != [] && t + q' == q[1..] + g
    ensures [q[0]] + t + q' == q + ([] + g)
  {
    Reassociate([q[0]], t, q');
    Reassociate([q[0]], q[1..], g);
    assert [q[0]] + q[1..] == q && [] + g == g;
  }

  lemma Reassociate(a: seq<Word>, b: seq<Word>, c: seq<Word>)
    ensures a + b + c == a + (b + c)
  {
  }

  /** The pages handed out and not given back since. */
  function HeldAfter(w: Image, h: Word, held: set<Word>, ops: seq<Op>): set<Word>
    decreases |ops|
  {
    if ops == [] then held
    else
      var held' := match ops[0]
        case TakePage => held + {FirstPage(w, h)}
        case GivePage(p) => held - {p}
        case WriteWord(_, _) => held;
      HeldAfter(StepImage(w, h, ops[0]), h, held', ops[1..])
  }

  function QueueAfter(q: seq<Word>, ops: seq<Op>): seq<Word>
    decreases |ops|
  {
    if ops == [] then q else QueueAfter(StepQueue(q, ops[0]), ops[1..])
  }

  /** At every point the free pages and the held pages partition all pages ever in the pool. */
  lemma {:induction false} PartitionRun(w: Image, h: Word, q: seq<Word>, held: set<Word>, ops: seq<Op>)
    requires Pool(w, h, q) && LegalRun(h, q, ops) && (forall p :: p in q ==> p !in held)
    ensures Pool(RunImage(w, h, ops), h, QueueAfter(q, ops))
    ensures var q', held' := QueueAfter(q, ops), HeldAfter(w, h, held, ops);
      forall p :: !(p in q' && p in held') && (p in q' || p in held' <==> p in q || p in held || p in Given(ops))
    decreases |ops|
  {
    hide Pool, Alloc, Free, FirstPage;
    if ops != [] {
      StepPool(w, h, q, ops[0]);
      var w1, q1 := StepImage(w, h, ops[0]), StepQueue(q, ops[0]);
      match ops[0] {
        case TakePage =>
          TakeFirst(w, h, q);
          PartitionRun(w1, h, q1, held + {q[0]}, ops[1..]);
        case GivePage(p) => PartitionRun(w1, h, q1, held - {p}, ops[1..]);
        case WriteWord(_, _) => PartitionRun(w1, h, q1, held, ops[1..]);
      }
    }
  }

  lemma TakeFirst(w: Image, h: Word, q: seq<Word>)
    requires Pool(w, h, q) && q != []
    ensures q[0] !in q[1..] && forall p :: p in q <==> p == q[0] || p in q[1..]
  {
    PoolDistinct(w, h, q);
    assert q == [q[0]] + q[1..];
  }

  // ---------------------------------------------------------------------------------------------
  // In plain numbers
  // ---------------------------------------------------------------------------------------------

  /** The words of the pool: every free page starts with the magic number and two links, to the second
      word of the page after it and of the page before it, the registry at h closing the circle. */
  lemma PoolCells(w: Image, h: Word, q: seq<Word>, i: nat)
    requires Pool(w, h, q)
    ensures h <= 0xFFFF_FFF8 && w[h] == (if q == [] then h else Plus(q[0], 4))
    ensures w[h + 4] == if q == [] then h else Plus(q[|q| - 1], 4)
    ensures i < |q| ==>
      && 0 < q[i] <= 0xFFFF_F000 && q[i] % 0x1000 == 0 && w[q[i]] == 0xDEAD_BEAF
      && w[q[i] + 4] == (if i == |q| - 1 then h else Plus(q[i + 1], 4))
      && w[q[i] + 8] == (if i == 0 then h else Plus(q[i - 1], 4))
  {
    hide Ring;
    var s := [h] + PageNodes(q);
    RingCells(w, s);
    NodeIs(h, q, 0);
    NodeIs(h, q, |q|);
    var n := |s| - 1;
    assert w[s[n]] == s[0] && w[s[0] + 4] == s[n];
    if q != [] {
      NodeIs(h, q, 1);
      assert w[s[0]] == s[1];
    }
    if i < |q| { PoolCell(w, h, q, i); }
  }

  lemma PoolCell(w: Image, h: Word, q: seq<Word>, i: nat)
    requires Pool(w, h, q) && i < |q|
    ensures 0 < q[i] <= 0xFFFF_F000 && q[i] % 0x1000 == 0 && w[q[i]] == 0xDEAD_BEAF
    ensures w[q[i] + 4] == if i == |q| - 1 then h else Plus(q[i + 1], 4)
    ensures w[q[i] + 8] == if i == 0 then h else Plus(q[i - 1], 4)
  {
    hide Ring;
    var s := [h] + PageNodes(q);
    RingCells(w, s);
    assert q[i] in q;
    InPage(q[i], 8);
    NodeIs(h, q, i);
    NodeIs(h, q, i + 1);
    var j := if i + 1 == |s| - 1 then 0 else i + 2;
    NodeIs(h, q, j);
    assert w[s[i + 1]] == s[j];
    assert w[s[i]] == s[i + 1] && w[s[i + 1] + 4] == s[i];
  }

  lemma NodeIs(h: Word, q: seq<Word>, i: nat)
    requires i <= |q|
    ensures ([h] + PageNodes(q))[i] == if i == 0 then h else Plus(q[i - 1], 4)
  {
  }

  /** What `kpfree_range` frees: the page addresses between start and end. */
  lemma FreeRangePlain(start: Word, end: Word, x: Word)
    requires start <= 0xFFFF_F000 && end <= 0xFFFF_F000
    ensures x in PagesFrom(PageUp(start), PageUp(end)) <==> x % 0x1000 == 0 && start <= x < end
  {
    hide PageUp, PagesFrom;
    PageUpAligned(start);
    PageUpAligned(end);
    PagesFromExact(PageUp(start), PageUp(end), x);
    if x % 0x1000 == 0 {
      RoundsAbove(start, x);
      RoundsAbove(end, x);
    }
  }

  /** Rounding up does not pass an aligned address. */
  lemma RoundsAbove(a: Word, x: Word)
    requires a <= 0xFFFF_F000 && x % 0x1000 == 0
    ensures PageUp(a) <= x <==> a <= x
  {
    hide PageUp;
    if a % 0x1000 != 0 && a <= x { PagesApartFrom(a, x); }
  }

  lemma PagesApartFrom(a: int, x: int)
    requires x % 0x1000 == 0 && a % 0x1000 != 0 && a <= x
    ensures a - a % 0x1000 + 0x1000 <= x
  {
  }
}

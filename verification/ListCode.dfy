/** The functions of utils/include/list.h, statement by statement, on the memory they edit.
    Ghost parameters name the ring the pointers belong to. */
module ListCode {
  import opened Words
  import opened Lists

  /** `node` is a node that overlaps none of s. */
  ghost predicate Spare(node: Word, s: seq<Word>) {
    IsNode(node) && forall p :: p in s ==> Apart(node, p)
  }

  lemma SpareSeparate(node: Word, s: seq<Word>)
    requires Separate(s) && Spare(node, s)
    ensures Separate([node] + s)
  {
  }

  method InitListHead(m: Ram, list: Word)
    requires IsNode(list)
    modifies m
    ensures m.cells == Init(old(m.cells), list) && Ring(m.cells, [list])
  {
    m.Store(list, list);
    m.Store(list + 4, list);
  }

  /** `__list_add` */
  method InsertBetween(m: Ram, node: Word, prev: Word, next: Word)
    requires IsNode(node) && IsNode(prev) && IsNode(next)
    requires Apart(node, prev) && Apart(node, next) && (prev == next || Apart(prev, next))
    modifies m
    ensures m.cells == Link(old(m.cells), node, prev, next)
  {
    m.Store(next + 4, node);
    m.Store(node, next);
    m.Store(node + 4, prev);
    m.Store(prev, node);
  }

  /** `list_add`, given any entry of a ring as the head */
  method ListAddAfter(m: Ram, node: Word, p: Word, ghost s: seq<Word>)
    requires Ring(m.cells, s) && p in s && Spare(node, s)
    modifies m
    ensures m.cells == AddHead(old(m.cells), node, p)
  {
    Members(m.cells, s);
    assert Next(m.cells, p) in s;
    var next := m.Load(p);
    InsertBetween(m, node, p, next);
  }

  method ListAdd(m: Ram, node: Word, head: Word, ghost s: seq<Word>)
    requires Ring(m.cells, [head] + s) && Spare(node, [head] + s)
    modifies m
    ensures m.cells == AddHead(old(m.cells), node, head) && Ring(m.cells, [head, node] + s)
  {
    SpareSeparate(node, [head] + s);
    AddHeadRing(m.cells, node, head, s);
    assert head in [head] + s;
    ListAddAfter(m, node, head, [head] + s);
  }

  method ListAddTail(m: Ram, node: Word, head: Word, ghost s: seq<Word>)
    requires Ring(m.cells, [head] + s) && Spare(node, [head] + s)
    modifies m
    ensures m.cells == AddTail(old(m.cells), node, head) && Ring(m.cells, [head] + s + [node])
  {
    SpareSeparate(node, [head] + s);
    AddTailRing(m.cells, node, [head] + s);
    Members(m.cells, [head] + s);
    var prev := m.Load(head + 4);
    InsertBetween(m, node, prev, head);
  }

  /** `__list_del` and `__list_del_entry` */
  method UnlinkEntry(m: Ram, e: Word, ghost s: seq<Word>)
    requires Ring(m.cells, s) && e in s
    modifies m
    ensures m.cells == Unlink(old(m.cells), e)
  {
    Members(m.cells, s);
    assert Next(m.cells, e) in s && Prev(m.cells, e) in s;
    var prev := m.Load(e + 4);
    var next := m.Load(e);
    m.Store(next + 4, prev);
    m.Store(prev, next);
  }

  method ListDel(m: Ram, ghost a: seq<Word>, e: Word, ghost b: seq<Word>)
    requires Ring(m.cells, a + [e] + b)
    modifies m
    ensures m.cells == Delete(old(m.cells), e) && (a + b != [] ==> Ring(m.cells, a + b))
  {
    if a + b != [] { DeleteRing(m.cells, a, e, b); }
    Members(m.cells, a + [e] + b);
    UnlinkEntry(m, e, a + [e] + b);
    m.Store(e, 0);
    m.Store(e + 4, 0);
  }

  method ListReplace(m: Ram, was: Word, now: Word, ghost s: seq<Word>)
    requires Ring(m.cells, [was] + s) && Spare(now, [was] + s)
    modifies m
    ensures m.cells == Replace(old(m.cells), was, now) && Ring(m.cells, [now] + s)
  {
    SpareSeparate(now, [was] + s);
    ReplaceRing(m.cells, was, now, s);
    Members(m.cells, [was] + s);
    var next := m.Load(was);
    m.Store(now, next);
    next := m.Load(now);
    m.Store(next + 4, now);
    var prev := m.Load(was + 4);
    m.Store(now + 4, prev);
    prev := m.Load(now + 4);
    m.Store(prev, now);
  }

  method ListSwap(m: Ram, e1: Word, e2: Word, ghost a: seq<Word>, ghost b: seq<Word>)
    requires Ring(m.cells, [e1] + a + [e2] + b) || TwoRings(m.cells, e1, a, e2, b)
    modifies m
    ensures m.cells == Swap(old(m.cells), e1, e2)
    ensures old(Ring(m.cells, [e1] + a + [e2] + b)) ==> Ring(m.cells, [e2] + a + [e1] + b)
    ensures old(TwoRings(m.cells, e1, a, e2, b)) ==>
              if b == [] then Ring(m.cells, [e2, e1] + a) else Ring(m.cells, [e2] + a) && Ring(m.cells, b + [e1])
  {
    hide Ring, TwoRings, Delete, Replace, AddHead;
    ghost var before, rest, after := SwapBegins(m.cells, e1, a, e2, b);
    var pos := m.Load(e2 + 4);
    ListDel(m, before, e2, b);
    ListReplace(m, e1, e2, rest);
    if pos == e1 {
      pos := e2;
    }
    ListAddAfter(m, e1, pos, after);
  }

  /** The rings that the steps of `list_swap` work on, in one ring or two: what precedes e2 in its
      ring, what follows e1 once e2 is gone, and the ring that e1 goes back into. */
  lemma SwapBegins(w: Image, e1: Word, a: seq<Word>, e2: Word, b: seq<Word>)
    returns (before: seq<Word>, rest: seq<Word>, after: seq<Word>)
    requires Ring(w, [e1] + a + [e2] + b) || TwoRings(w, e1, a, e2, b)
    ensures var w1, w2 := Delete(w, e2), Replace(Delete(w, e2), e1, e2);
      var pos := if Prev(w, e2) == e1 then e2 else Prev(w, e2);
      && IsNode(e2) && Ring(w, before + [e2] + b)
      && Ring(w1, [e1] + rest) && Spare(e2, [e1] + rest)
      && Ring(w2, after) && Spare(e1, after) && pos in after
    ensures Ring(w, [e1] + a + [e2] + b) ==> Ring(Swap(w, e1, e2), [e2] + a + [e1] + b)
    ensures TwoRings(w, e1, a, e2, b) ==>
              var w' := Swap(w, e1, e2);
              if b == [] then Ring(w', [e2, e1] + a) else Ring(w', [e2] + a) && Ring(w', b + [e1])
  {
    hide Ring, Swap, Delete, Replace, Separate, TwoRings;
    if TwoRings(w, e1, a, e2, b) { SwapAcross(w, e1, a, e2, b); }
    if Ring(w, [e1] + a + [e2] + b) {
      before, rest, after := [e1] + a, a + b, [e2] + (a + b);
      SwapRing(w, e1, a, e2, b);
      SwapOneRing(w, e1, a, e2, b);
    } else {
      before, rest, after := [], a, if b == [] then [e2] + a else b;
      SwapTwoRings(w, e1, a, e2, b);
    }
  }

  lemma SwapTwoRings(w: Image, e1: Word, a: seq<Word>, e2: Word, b: seq<Word>)
    requires TwoRings(w, e1, a, e2, b)
    ensures var after, w1 := if b == [] then [e2] + a else b, Delete(w, e2);
      && IsNode(e2) && Ring(w, [] + [e2] + b) && Ring(w1, [e1] + a) && Spare(e2, [e1] + a)
      && Ring(Replace(w1, e1, e2), after) && Spare(e1, after) && Prev(w, e2) in after && Prev(w, e2) != e1
  {
    hide Ring, Separate, Delete, Replace;
    SwapMovesIn(w, e1, a, e2, b);
    assert [] + [e2] + b == [e2] + b;
    SeparateSpare(e2, [e1] + a);
    SeparateSpare(e1, [e2] + a);
    SeparateSpare(e1, b);
  }

  lemma SeparateSpare(node: Word, s: seq<Word>)
    requires Separate([node] + s)
    ensures Spare(node, s)
  {
    SeparateParts([node], s);
    assert ([node] + s)[0] == node && [node][0] == node;
  }

  lemma SwapOneRing(w: Image, e1: Word, a: seq<Word>, e2: Word, b: seq<Word>)
    requires Ring(w, [e1] + a + [e2] + b)
    ensures var w1, after := Delete(w, e2), [e2] + (a + b);
      && IsNode(e2) && Ring(w1, [e1] + (a + b)) && Spare(e2, [e1] + (a + b))
      && Ring(Replace(w1, e1, e2), after) && Spare(e1, after)
      && (Prev(w, e2) == e1 || Prev(w, e2) in after)
  {
    hide Ring, Separate, Delete, Replace;
    var s := [e1] + a + [e2] + b;
    RingSeparate(w, s);
    assert [e1] + a + b == [e1] + (a + b) && [e2] + a + b == [e2] + (a + b);
    DeleteRing(w, [e1] + a, e2, b);
    SwapTakesPlace(w, e1, a, e2, b);
    SeparateAmong(s, [e2] + ([e1] + (a + b)));
    SeparateSpare(e2, [e1] + (a + b));
    SeparateSpare(e1, [e2] + (a + b));
    assert a != [] ==> ([e1] + a)[|a|] == a[|a| - 1];
  }

  method ListMoveTail(m: Ram, e: Word, head: Word, ghost s: seq<Word>, ghost t: seq<Word>)
    requires Ring(m.cells, [e] + s) && MoveTarget(m.cells, e, s, head, t)
    modifies m
    ensures m.cells == MoveTail(old(m.cells), e, head) && Ring(m.cells, [head] + t + [e])
    ensures s != [] && head !in s ==> Ring(m.cells, s)
  {
    hide Chain, MoveTarget;
    MoveTailRings(m.cells, e, s, head, t);
    SeparateParts([e], [head] + t);
    assert e in [e] + s && head in [head] + t;
    UnlinkEntry(m, e, [e] + s);
    Members(m.cells, [head] + t);
    assert Prev(m.cells, head) in [head] + t;
    var prev := m.Load(head + 4);
    InsertBetween(m, e, prev, head);
  }

  method ListBulkMoveTail(m: Ram, head: Word, first: Word, last: Word,
                          ghost a: seq<Word>, ghost s: seq<Word>, ghost b: seq<Word>)
    requires Ring(m.cells, a + s + b) && a != [] && s != []
    requires head == a[0] && first == s[0] && last == s[|s| - 1]
    modifies m
    ensures m.cells == BulkMoveTail(old(m.cells), head, first, last)
    ensures Ring(m.cells, a + b + s)
  {
    hide Ring;
    BulkMoveTailRing(m.cells, a, s, b);
    BulkMovePointers(m.cells, a, s, b);
    ghost var w1 := Join(m.cells, Prev(m.cells, first), Next(m.cells, last));
    var prev := m.Load(first + 4);
    var next := m.Load(last);
    m.Store(prev, next);
    next := m.Load(last);
    prev := m.Load(first + 4);
    m.Store(next + 4, prev);
    prev := m.Load(head + 4);
    m.Store(prev, first);
    prev := m.Load(head + 4);
    m.Store(first + 4, prev);
    assert m.cells == Join(w1, Prev(w1, head), first);
    m.Store(last, head);
    m.Store(head + 4, last);
  }

  /** The nodes `list_bulk_move_tail` writes to, and that its writes do not disturb its reads. */
  lemma BulkMovePointers(w: Image, a: seq<Word>, s: seq<Word>, b: seq<Word>)
    requires Ring(w, a + s + b) && a != [] && s != []
    ensures var head, first, last := a[0], s[0], s[|s| - 1];
      var prev, next := Prev(w, first), Next(w, last);
      var tail := Prev(Join(w, prev, next), head);
      && IsNode(head) && IsNode(first) && IsNode(last) && IsNode(prev) && IsNode(next) && IsNode(tail)
      && prev != last && prev != first + 4 && tail != head + 4
  {
    var r := a + s + b;
    BulkMoveSplit(w, a, s, b);
    Members(w, r);
    assert a[0] in r && s[0] in r && s[|s| - 1] in r && a[|a| - 1] in r && (b + a)[0] in r;
    assert (a + b)[|a + b| - 1] in r;
    assert a[0] in a + b && a[|a| - 1] in a + b && (b + a)[0] in a + b && (a + b)[|a + b| - 1] in a + b;
    assert s[0] in s && s[|s| - 1] in s;
  }

  lemma BulkMoveSplit(w: Image, a: seq<Word>, s: seq<Word>, b: seq<Word>)
    requires Ring(w, a + s + b) && a != [] && s != []
    ensures Prev(w, s[0]) == a[|a| - 1] && Next(w, s[|s| - 1]) == (b + a)[0]
    ensures Prev(Join(w, Prev(w, s[0]), Next(w, s[|s| - 1])), a[0]) == (a + b)[|a + b| - 1]
    ensures forall p, q :: p in a + b && q in s ==> p != q
  {
    var r := a + s + b;
    assert r[0] == a[0] && r[|a| - 1] == a[|a| - 1] && r[|a|] == s[0] && r[|a + s| - 1] == s[|s| - 1];
    assert b != [] ==> r[|a + s|] == b[0] && r[|r| - 1] == b[|b| - 1];
    SeparateAmong(r, (a + b) + s);
    SeparateParts(a + b, s);
    SeparateParts(a, b);
  }

  lemma RotateTarget(w: Image, head: Word, s: seq<Word>)
    requires Ring(w, [head] + s)
    ensures IsNode(head)
    ensures s != [] ==> MoveTarget(w, s[0], s[1..] + [head], head, s[1..])
  {
    assert ([head] + s)[0] == head;
    if s != [] {
      var r := s[1..] + [head];
      assert r[|s| - 1] == head && s[1..] == r[|s|..] + r[..|s| - 1];
    }
  }

  method ListRotateLeft(m: Ram, head: Word, ghost s: seq<Word>)
    requires Ring(m.cells, [head] + s)
    modifies m
    ensures m.cells == RotateLeft(old(m.cells), head)
    ensures Ring(m.cells, if s == [] then [head] else [head] + (s[1..] + [s[0]]))
  {
    hide Ring, MoveTarget;
    RingEnds(m.cells, head, s);
    RotateTarget(m.cells, head, s);
    var first := m.Load(head);
    if first != head {
      assert [head, first] + s[1..] == [head] + s;
      RotateLeftRing(m.cells, head, first, s[1..]);
      assert [first] + (s[1..] + [head]) == s + [head];
      TurnTo(m.cells, [head], s);
      ListMoveTail(m, first, head, s[1..] + [head], s[1..]);
    } else {
      assert [head] + s == [head];
    }
  }

  method ListRotateToFront(m: Ram, list: Word, head: Word, ghost a: seq<Word>, ghost b: seq<Word>)
    requires Ring(m.cells, [head] + (a + b)) && b != [] && list == b[0]
    modifies m
    ensures m.cells == RotateToFront(old(m.cells), list, head)
    ensures Ring(m.cells, [head] + (b + a))
  {
    RotateToFrontRing(m.cells, head, a, b);
    assert (a + b)[|a|] == list;
    ListMoveTail(m, head, list, a + b, b[1..] + a);
  }

  /** The nodes a cut writes to: the entries up to `entry` go, `next` is the first that stays. */
  ghost predicate CutPlace(w: Image, list: Word, head: Word, entry: Word, next: Word) {
    var first := Next(w, head);
    && IsNode(list) && IsNode(head) && IsNode(first) && IsNode(entry) && IsNode(next)
    && Apart(list, head) && Apart(list, first) && Apart(list, entry) && Apart(list, next)
    && Apart(first, head) && Apart(entry, head) && Apart(first, next) && Apart(entry, next)
    && (first == entry || Apart(first, entry)) && (next == head || Apart(next, head))
    && Prev(w, next) == entry && Next(w, entry) == next
  }

  lemma CutNodes(w: Image, list: Word, head: Word, entry: Word, next: Word)
    requires CutPlace(w, list, head, entry, next)
    ensures IsNode(list) && IsNode(head) && IsNode(Next(w, head)) && IsNode(entry) && IsNode(next)
    ensures list + 4 != entry && next + 4 != list && next != Next(w, head)
  {
  }

  lemma StoresCommute(w: Image, x: Word, v: Word, y: Word, u: Word)
    requires x != y
    ensures w[x := v][y := u] == w[y := u][x := v]
  {
  }

  /** `__list_cut_position` */
  method CutEntries(m: Ram, list: Word, head: Word, entry: Word)
    requires CutPlace(m.cells, list, head, entry, Next(m.cells, entry))
    modifies m
    ensures m.cells == old(var w := m.cells;
      Join(Join(Join(w, list, Next(w, head)), entry, list), head, Next(w, entry)))
  {
    hide CutPlace, Apart;
    CutNodes(m.cells, list, head, entry, Next(m.cells, entry));
    var newFirst := m.Load(entry);
    var first := m.Load(head);
    m.Store(list, first);
    first := m.Load(list);
    m.Store(first + 4, list);
    StoresCommute(m.cells, list + 4, entry, entry, list);
    m.Store(list + 4, entry);
    m.Store(entry, list);
    m.Store(head, newFirst);
    m.Store(newFirst + 4, head);
  }

  method ListCutPosition(m: Ram, list: Word, head: Word, entry: Word, ghost a: seq<Word>, ghost b: seq<Word>)
    requires Ring(m.cells, [head] + a + b) && Spare(list, [head] + a + b)
    requires entry == ([head] + a)[|a|]
    modifies m
    ensures m.cells == CutPosition(old(m.cells), list, head, entry)
    ensures a + b != [] ==> Ring(m.cells, [list] + a) && Ring(m.cells, [head] + b)
  {
    hide Ring;
    CutBegins(m.cells, list, head, a, b);
    var first := m.Load(head);
    var last := m.Load(head + 4);
    if first == head {
      return;
    }
    if first == last && entry != head && entry != first {
      return;
    }
    if entry == head {
      InitListHead(m, list);
    } else {
      CutEntries(m, list, head, entry);
    }
  }

  /** `list_cut_before`, when there is something before entry */
  method CutEntriesBefore(m: Ram, list: Word, head: Word, entry: Word)
    requires CutPlace(m.cells, list, head, Prev(m.cells, entry), entry) && Next(m.cells, head) != entry
    modifies m
    ensures m.cells == CutBefore(old(m.cells), list, head, entry)
  {
    hide CutPlace, Apart;
    CutNodes(m.cells, list, head, Prev(m.cells, entry), entry);
    var first := m.Load(head);
    m.Store(list, first);
    first := m.Load(list);
    m.Store(first + 4, list);
    var last := m.Load(entry + 4);
    StoresCommute(m.cells, list + 4, last, last, list);
    m.Store(list + 4, last);
    last := m.Load(list + 4);
    m.Store(last, list);
    m.Store(head, entry);
    m.Store(entry + 4, head);
  }

  method ListCutBefore(m: Ram, list: Word, head: Word, entry: Word, ghost a: seq<Word>, ghost b: seq<Word>)
    requires Ring(m.cells, [head] + a + b) && Spare(list, [head] + a + b)
    requires entry == (b + [head])[0]
    modifies m
    ensures m.cells == CutBefore(old(m.cells), list, head, entry)
    ensures Ring(m.cells, [list] + a) && Ring(m.cells, [head] + b)
  {
    hide Ring;
    CutBegins(m.cells, list, head, a, b);
    var first := m.Load(head);
    if first == entry {
      InitListHead(m, list);
      return;
    }
    CutEntriesBefore(m, list, head, entry);
  }

  /** Where the pointers lead when the entries a are about to be cut from the ring, and how both
      forms of the cut come out. */
  lemma CutBegins(w: Image, list: Word, head: Word, a: seq<Word>, b: seq<Word>)
    requires Ring(w, [head] + a + b) && Spare(list, [head] + a + b)
    ensures IsNode(head) && Empty(w, head) == (a + b == [])
    ensures var entry, next := ([head] + a)[|a|], (b + [head])[0];
      && (entry == head <==> a == []) && (Next(w, head) == next <==> a == [])
      && (a != [] ==> CutPlace(w, list, head, entry, next) && (Singular(w, head) ==> entry == Next(w, head)))
    ensures var w' := CutPosition(w, list, head, ([head] + a)[|a|]);
      a + b != [] ==> Ring(w', [list] + a) && Ring(w', [head] + b)
    ensures var w' := CutBefore(w, list, head, (b + [head])[0]);
      Ring(w', [list] + a) && Ring(w', [head] + b)
  {
    hide Ring, CutPosition, CutBefore, CutPlace, Singular;
    var s := [head] + a + b;
    RingSeparate(w, s);
    SpareSeparate(list, s);
    assert s == [head] + (a + b) && s[0] == head;
    RingEnds(w, head, a + b);
    if a != [] {
      CutRings(w, list, head, a, b);
      CutPointers(w, head, a, b);
      CutPlaced(w, list, head, a, b);
    } else {
      assert a + b == b && [list] + a == [list] && s == [head] + b && [head] + a == [head];
      CutNone(w, list, head, b);
      CutFirst(w, list, head, b);
    }
  }

  lemma CutPlaced(w: Image, list: Word, head: Word, a: seq<Word>, b: seq<Word>)
    requires Ring(w, [head] + a + b) && Spare(list, [head] + a + b) && a != []
    ensures CutPlace(w, list, head, a[|a| - 1], (b + [head])[0])
  {
    hide Ring, Separate;
    var s := [head] + a + b;
    RingSeparate(w, s);
    Members(w, s);
    CutPointers(w, head, a, b);
    CutApart(s, head, a, b);
    assert head in s;
  }

  /** With nothing before the cut, both forms make an empty list. */
  lemma CutFirst(w: Image, list: Word, head: Word, b: seq<Word>)
    requires Ring(w, [head] + b)
    ensures b != [] ==> CutPosition(w, list, head, head) == Init(w, list)
    ensures CutBefore(w, list, head, (b + [head])[0]) == Init(w, list)
  {
    hide Ring;
    RingEnds(w, head, b);
  }

  lemma CutApart(s: seq<Word>, head: Word, a: seq<Word>, b: seq<Word>)
    requires s == [head] + a + b && Separate(s) && a != []
    ensures Apart(a[0], head) && Apart(a[|a| - 1], head)
    ensures var next := (b + [head])[0]; next in s && Apart(a[0], next) && Apart(a[|a| - 1], next)
    ensures a[0] in s && a[|a| - 1] in s
  {
    SeparateAmong(s, a + (b + [head]));
    SeparateParts(a, b + [head]);
    assert (b + [head])[|b|] == head;
  }

  lemma CutNone(w: Image, list: Word, head: Word, b: seq<Word>)
    requires Ring(w, [head] + b) && Spare(list, [head] + b)
    ensures Ring(Init(w, list), [list]) && Ring(Init(w, list), [head] + b)
  {
    assert ([head] + b)[0] == head;
    RingEnds(w, head, b);
    JoinKeeps(w, list, list, [head] + b);
  }

  method ListSplice(m: Ram, list: Word, head: Word, ghost a: seq<Word>, ghost b: seq<Word>)
    requires Ring(m.cells, [list] + a) && Ring(m.cells, [head] + b)
    requires Separate(([list] + a) + ([head] + b))
    modifies m
    ensures m.cells == Splice(old(m.cells), list, head)
    ensures Ring(m.cells, [head] + a + b)
  {
    hide Ring, Separate;
    SpliceRing(m.cells, list, a, head, b);
    SplicePlace(m.cells, list, a, head, b);
    var first := m.Load(list);
    if first != list {
      var next := m.Load(head);
      var last := m.Load(list + 4);
      m.Store(first + 4, head);
      m.Store(head, first);
      m.Store(last, next);
      m.Store(next + 4, last);
    }
  }

  /** The nodes a splice writes to. */
  lemma SplicePlace(w: Image, list: Word, a: seq<Word>, head: Word, b: seq<Word>)
    requires Ring(w, [list] + a) && Ring(w, [head] + b) && Separate(([list] + a) + ([head] + b))
    ensures var first, last, next := Next(w, list), Prev(w, list), Next(w, head);
      && IsNode(list) && IsNode(first) && IsNode(last) && IsNode(head) && IsNode(next)
      && first + 4 != head
  {
    SeparateParts([list] + a, [head] + b);
    Members(w, [list] + a);
    Members(w, [head] + b);
    assert list in [list] + a && head in [head] + b;
    assert Next(w, list) in [list] + a && Prev(w, list) in [list] + a && Next(w, head) in [head] + b;
  }
}

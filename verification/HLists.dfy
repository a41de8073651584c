/** The hlists of utils/include/list.h: a one-word head and nodes that point back not at a node but at
    the word that points at them. A `struct hlist_node` at p keeps `next` in cell p and `pprev` in
    cell p + 4; a `struct hlist_head` at h is the single cell h. `*pprev` is the cell at address
    pprev, and the address of a node's `next` word is the node's own. */
module HLists {
  import opened Words
  import opened Lists

  /** The one-word head at h and the node at p do not overlap. */
  predicate Clear(h: Word, p: Word) { h + 4 <= p || p + 8 <= h }

  predicate IsHead(h: Word) { h % 4 == 0 && 0 < h }

  /** A head followed by nodes, none overlapping another. */
  ghost predicate Laid(s: seq<Word>) {
    && s != [] && IsHead(s[0])
    && (forall i :: 1 <= i < |s| ==> IsNode(s[i]) && Clear(s[0], s[i]))
    && (forall i, j :: 1 <= i < j < |s| ==> Apart(s[i], s[j]))
  }

  /** s is a well-formed hlist: its head, then its nodes. Each node's pprev is the location that
      holds the pointer to it, and the last `next` is NULL. */
  ghost predicate HList(w: Image, s: seq<Word>) {
    Laid(s) && Chain(w, s) && Next(w, s[|s| - 1]) == 0
  }

  /** Let the word at loc point at node n, or hold NULL if n is 0. */
  function Point(w: Image, loc: Word, n: Word): Image {
    if n == 0 then w[loc := 0] else w[loc := n][Plus(n, 4) := loc]
  }

  function Insert(w: Image, n: Word, loc: Word): Image { Point(Point(w, n, w[loc]), loc, n) }

  function Remove(w: Image, n: Word): Image { Point(w, w[Plus(n, 4)], w[n])[n := 0][Plus(n, 4) := 0] }

  function MoveList(w: Image, from: Word, to: Word): Image { Point(w, to, w[from])[from := 0] }

  lemma LaidParts(s: seq<Word>, a: seq<Word>, b: seq<Word>)
    requires Laid(s) && s == a + b && a != []
    ensures Laid(a)
    ensures forall i, j :: 0 <= i < |a| && 0 <= j < |b| ==>
      IsNode(b[j]) && (if i == 0 then Clear(a[i], b[j]) else Apart(a[i], b[j]))
    ensures forall i, j :: 0 <= i < j < |b| ==> Apart(b[i], b[j])
  {
    assert forall i :: 0 <= i < |a| ==> a[i] == s[i];
    assert forall j :: 0 <= j < |b| ==> b[j] == s[|a| + j];
  }

  /** Two chains become one when the last word of the first is pointed at the start of the second. */
  lemma PointChains(w: Image, a: seq<Word>, b: seq<Word>)
    requires a != [] && Laid(a + b) && Chain(w, a) && Chain(w, b)
    requires b == [] || Next(w, b[|b| - 1]) == 0
    ensures HList(Point(w, a[|a| - 1], if b == [] then 0 else b[0]), a + b)
  {
    var s, loc, n := a + b, a[|a| - 1], if b == [] then 0 else b[0];
    var w' := Point(w, loc, n);
    LaidParts(s, a, b);
    forall i, j | 0 <= i && j == i + 1 && j < |s| ensures Next(w', s[i]) == s[j] && Prev(w', s[j]) == s[i] {
      if j < |a| {
        assert s[i] == a[i] && s[j] == a[j];
      } else if j > |a| {
        assert s[i] == b[i - |a|] && s[j] == b[j - |a|];
      }
    }
    assert b != [] ==> s[|s| - 1] == b[|b| - 1];
  }

  lemma ChainParts(w: Image, a: seq<Word>, b: seq<Word>)
    requires Chain(w, a + b)
    ensures Chain(w, a) && Chain(w, b)
  {
    Cut(w, a, b);
  }

  lemma LaidAround(a: seq<Word>, n: Word, b: seq<Word>)
    requires Laid(a + [n] + b) && a != []
    ensures IsNode(n) && Laid(a)
    ensures forall i :: 0 <= i < |a| ==> if i == 0 then Clear(a[i], n) else Apart(a[i], n)
    ensures forall j :: 0 <= j < |b| ==> IsNode(b[j]) && Apart(n, b[j])
    ensures forall i, j :: 0 <= i < |a| && 0 <= j < |b| ==> if i == 0 then Clear(a[i], b[j]) else Apart(a[i], b[j])
    ensures forall i, j :: 0 <= i < j < |b| ==> Apart(b[i], b[j])
  {
    var s := a + [n] + b;
    assert s[|a|] == n;
    assert forall i :: 0 <= i < |a| ==> a[i] == s[i];
    assert forall j :: 0 <= j < |b| ==> b[j] == s[|a| + 1 + j];
  }

  /** Inserting a node after any location of an hlist: after the head, or behind one of its nodes. */
  lemma InsertHList(w: Image, a: seq<Word>, b: seq<Word>, n: Word)
    requires HList(w, a + b) && a != [] && Laid(a + [n] + b)
    ensures HList(Insert(w, n, a[|a| - 1]), a + [n] + b)
  {
    var s, loc := a + b, a[|a| - 1];
    ChainParts(w, a, b);
    assert s[|a| - 1] == loc && Next(w, loc) == if b == [] then 0 else b[0] by {
      assert b != [] ==> s[|a|] == b[0];
    }
    assert b != [] ==> Next(w, b[|b| - 1]) == 0 by { assert b != [] ==> s[|s| - 1] == b[|b| - 1]; }
    LaidAround(a, n, b);
    var w1 := Point(w, n, w[loc]);
    NodeChain(w, n, b);
    PointKeeps(w, n, b, a);
    assert a + [n] + b == a + ([n] + b);
    PointChains(w1, a, [n] + b);
  }

  /** Pointing a loose node at a chain. */
  lemma NodeChain(w: Image, n: Word, b: seq<Word>)
    requires Chain(w, b) && IsNode(n) && (b == [] || Next(w, b[|b| - 1]) == 0)
    requires forall j :: 0 <= j < |b| ==> IsNode(b[j]) && Apart(n, b[j])
    requires forall i, j :: 0 <= i < j < |b| ==> Apart(b[i], b[j])
    ensures var w1 := Point(w, n, if b == [] then 0 else b[0]);
      Chain(w1, [n] + b) && Next(w1, ([n] + b)[|b|]) == 0
  {
  }

  lemma PointKeeps(w: Image, n: Word, b: seq<Word>, a: seq<Word>)
    requires Chain(w, a) && IsNode(n) && Laid(a)
    requires forall i :: 0 <= i < |a| ==> if i == 0 then Clear(a[i], n) else Apart(a[i], n)
    requires forall i, j :: 0 <= i < |a| && 0 <= j < |b| ==>
      IsNode(b[j]) && (if i == 0 then Clear(a[i], b[j]) else Apart(a[i], b[j]))
    ensures Chain(Point(w, n, if b == [] then 0 else b[0]), a)
  {
  }

  /** Deleting a node closes the gap it leaves. */
  lemma RemoveHList(w: Image, a: seq<Word>, n: Word, b: seq<Word>)
    requires HList(w, a + [n] + b) && a != []
    ensures HList(Remove(w, n), a + b)
    ensures Next(Remove(w, n), n) == 0 && Prev(Remove(w, n), n) == 0
  {
    var s, loc, next := a + [n] + b, a[|a| - 1], if b == [] then 0 else b[0];
    assert s[|a| - 1] == loc && s[|a|] == n;
    assert b != [] ==> s[|a| + 1] == b[0] && s[|s| - 1] == b[|b| - 1];
    ChainParts(w, a + [n], b);
    ChainParts(w, a, [n]);
    LaidParts(s, a + [n], b);
    LaidParts(a + [n], a, [n]);
    LaidWithout(a, n, b);
    PointChains(w, a, b);
    ClearedNode(Point(w, loc, next), a, n, b);
  }

  lemma LaidWithout(a: seq<Word>, n: Word, b: seq<Word>)
    requires Laid(a + [n] + b) && a != []
    ensures Laid(a + b) && IsNode(n)
    ensures forall i :: 0 <= i < |a + b| ==> if i == 0 then Clear((a + b)[i], n) else Apart((a + b)[i], n)
  {
    var s, t := a + [n] + b, a + b;
    assert forall i :: 0 <= i < |t| ==> t[i] == s[if i < |a| then i else i + 1];
    assert s[|a|] == n;
  }

  lemma ClearedNode(w: Image, a: seq<Word>, n: Word, b: seq<Word>)
    requires HList(w, a + b) && IsNode(n)
    requires forall i :: 0 <= i < |a + b| ==> if i == 0 then Clear((a + b)[i], n) else Apart((a + b)[i], n)
    ensures HList(w[n := 0][Plus(n, 4) := 0], a + b)
  {
  }

  /** Moving a whole list to another head leaves the old head empty. */
  lemma MoveHList(w: Image, from: Word, to: Word, s: seq<Word>)
    requires HList(w, [from] + s) && Laid([to] + s) && from != to
    ensures HList(MoveList(w, from, to), [to] + s) && HList(MoveList(w, from, to), [from])
  {
    var fs := [from] + s;
    assert fs[0] == from && (s != [] ==> fs[1] == s[0] && fs[|s|] == s[|s| - 1]);
    ChainParts(w, [from], s);
    PointChains(w, [to], s);
    LaidParts(fs, [from], s);
  }

  // ---------------------------------------------------------------------------------------------
  // The code
  // ---------------------------------------------------------------------------------------------

  /** Where the words lie that inserting n between a and b writes to. */
  lemma InsertPlace(w: Image, a: seq<Word>, b: seq<Word>, n: Word)
    requires HList(w, a + b) && a != [] && Laid(a + [n] + b)
    ensures var loc, next := a[|a| - 1], w[a[|a| - 1]];
      && loc % 4 == 0 && n % 4 == 0 && 0 < n <= SPACE - 8 && loc != n && loc != n + 4
      && (next != 0 ==> IsNode(next) && Apart(n, next) && loc != next + 4 && w[Plus(next, 4)] == loc)
      && next == (if b == [] then 0 else b[0])
  {
    var s := a + b;
    LaidAround(a, n, b);
    assert s[|a| - 1] == a[|a| - 1] && (b != [] ==> s[|a|] == b[0]);
  }

  method HlistAddHead(m: Ram, n: Word, h: Word, ghost s: seq<Word>)
    requires HList(m.cells, [h] + s) && Laid([h] + [n] + s)
    modifies m
    ensures m.cells == Insert(old(m.cells), n, h) && HList(m.cells, [h] + [n] + s)
  {
    InsertHList(m.cells, [h], s, n);
    InsertPlace(m.cells, [h], s, n);
    var first := m.Load(h);
    m.Store(n, first);
    if first != 0 {
      m.Store(first + 4, n);
    }
    m.Store(h, n);
    m.Store(n + 4, h);
  }

  method HlistAddBefore(m: Ram, n: Word, next: Word, ghost a: seq<Word>, ghost b: seq<Word>)
    requires HList(m.cells, a + ([next] + b)) && a != [] && Laid(a + [n] + ([next] + b))
    modifies m
    ensures m.cells == Insert(old(m.cells), n, old(m.cells[Plus(next, 4)])) && HList(m.cells, a + [n] + ([next] + b))
  {
    InsertHList(m.cells, a, [next] + b, n);
    InsertPlace(m.cells, a, [next] + b, n);
    NextIsNode(a, n, next, b);
    var pprev := m.Load(next + 4);
    m.Store(n + 4, pprev);
    m.Store(n, next);
    m.Store(next + 4, n);
    pprev := m.Load(n + 4);
    m.Store(pprev, n);
  }

  lemma NextIsNode(a: seq<Word>, n: Word, next: Word, b: seq<Word>)
    requires Laid(a + [n] + ([next] + b)) && a != []
    ensures IsNode(next)
  {
    assert (a + [n] + ([next] + b))[|a| + 1] == next;
  }

  method HlistAddBehind(m: Ram, n: Word, prev: Word, ghost a: seq<Word>, ghost b: seq<Word>)
    requires HList(m.cells, (a + [prev]) + b) && a != [] && Laid((a + [prev]) + [n] + b)
    modifies m
    ensures m.cells == Insert(old(m.cells), n, prev) && HList(m.cells, (a + [prev]) + [n] + b)
  {
    hide HList, Laid;
    InsertHList(m.cells, a + [prev], b, n);
    InsertPlace(m.cells, a + [prev], b, n);
    var next := m.Load(prev);
    m.Store(n, next);
    m.Store(prev, n);
    m.Store(n + 4, prev);
    next := m.Load(n);
    if next != 0 {
      m.Store(next + 4, n);
    }
  }

  method HlistDel(m: Ram, n: Word, ghost a: seq<Word>, ghost b: seq<Word>)
    requires HList(m.cells, a + [n] + b) && a != []
    modifies m
    ensures m.cells == Remove(old(m.cells), n) && HList(m.cells, a + b)
  {
    RemoveHList(m.cells, a, n, b);
    RemovePlace(m.cells, a, n, b);
    var next := m.Load(n);
    var pprev := m.Load(n + 4);
    m.Store(pprev, next);
    if next != 0 {
      m.Store(next + 4, pprev);
    }
    m.Store(n, 0);
    m.Store(n + 4, 0);
  }

  lemma RemovePlace(w: Image, a: seq<Word>, n: Word, b: seq<Word>)
    requires HList(w, a + [n] + b) && a != []
    ensures IsNode(n) && w[Plus(n, 4)] % 4 == 0 && w[Plus(n, 4)] == a[|a| - 1]
    ensures w[n] != 0 ==> IsNode(w[n])
  {
    var s := a + [n] + b;
    assert s[|a|] == n && s[|a| - 1] == a[|a| - 1];
    assert b != [] ==> s[|a| + 1] == b[0];
  }

  method HlistMoveList(m: Ram, from: Word, to: Word, ghost s: seq<Word>)
    requires HList(m.cells, [from] + s) && Laid([to] + s) && from != to
    modifies m
    ensures m.cells == MoveList(old(m.cells), from, to)
    ensures HList(m.cells, [to] + s) && HList(m.cells, [from])
  {
    MoveHList(m.cells, from, to, s);
    MovePlace(m.cells, from, to, s);
    var first := m.Load(from);
    m.Store(to, first);
    first := m.Load(to);
    if first != 0 {
      m.Store(first + 4, to);
    }
    m.Store(from, 0);
  }

  lemma MovePlace(w: Image, from: Word, to: Word, s: seq<Word>)
    requires HList(w, [from] + s) && Laid([to] + s)
    ensures from % 4 == 0 && to % 4 == 0 && (w[from] != 0 ==> IsNode(w[from]) && Clear(to, w[from]))
  {
    assert ([from] + s)[0] == from && ([to] + s)[0] == to;
    assert s != [] ==> ([from] + s)[1] == s[0] && ([to] + s)[1] == s[0];
  }

  /** The words of an hlist: the head's, and two for each node. */
  predicate IsHCell(s: seq<Word>, x: Word)
    requires s != []
  {
    x in s || Minus(x, 4) in s[1..]
  }

  lemma PointElsewhere(w: Image, loc: Word, n: Word, s: seq<Word>, x: Word)
    requires s != [] && loc in s && (n == 0 || n in s[1..]) && !IsHCell(s, x)
    ensures Point(w, loc, n)[x] == w[x]
  {
    assert Minus(Plus(n, 4), 4) == n;
  }

  /** Inserting a node writes to its words and the list's only. */
  lemma InsertElsewhere(w: Image, a: seq<Word>, b: seq<Word>, n: Word, x: Word)
    requires HList(w, a + b) && a != [] && !IsHCell(a + [n] + b, x)
    ensures Insert(w, n, a[|a| - 1])[x] == w[x]
  {
    var s, t, loc := a + b, a + [n] + b, a[|a| - 1];
    assert s[|a| - 1] == loc && Next(w, loc) == if b == [] then 0 else b[0] by {
      assert b != [] ==> s[|a|] == b[0];
    }
    assert t[|a| - 1] == loc && t[|a|] == n && (b != [] ==> t[|a| + 1] == b[0]);
    assert t[1..][|a| - 1] == n && (b != [] ==> t[1..][|a|] == b[0]);
    PointElsewhere(w, n, w[loc], t, x);
    PointElsewhere(Point(w, n, w[loc]), loc, n, t, x);
  }

  /** Deleting a node writes to the list's words only. */
  lemma RemoveElsewhere(w: Image, a: seq<Word>, n: Word, b: seq<Word>, x: Word)
    requires HList(w, a + [n] + b) && a != [] && !IsHCell(a + [n] + b, x)
    ensures Remove(w, n)[x] == w[x]
  {
    var t, loc := a + [n] + b, a[|a| - 1];
    assert t[|a| - 1] == loc && t[|a|] == n && (b != [] ==> t[|a| + 1] == b[0]);
    assert t[1..][|a| - 1] == n && (b != [] ==> t[1..][|a|] == b[0]);
    assert Prev(w, n) == loc && Next(w, n) == if b == [] then 0 else b[0];
    PointElsewhere(w, loc, w[n], t, x);
    assert Minus(Plus(n, 4), 4) == n;
  }

  /** Moving a list writes to the two heads and its first node's second word only. */
  lemma MoveElsewhere(w: Image, from: Word, to: Word, s: seq<Word>, x: Word)
    requires HList(w, [from] + s) && x != from && x != to && (s != [] ==> x != Plus(s[0], 4))
    ensures MoveList(w, from, to)[x] == w[x]
  {
    var fs := [from] + s;
    assert fs[0] == from && (s != [] ==> fs[1] == s[0] && Next(w, fs[0]) == fs[1]);
  }

  // ---------------------------------------------------------------------------------------------
  // In plain numbers
  // ---------------------------------------------------------------------------------------------

  /** The cells of an hlist: the head's word and every node's first word hold the address of the next
      node, 0 at the end, and every node's second word the address of the word that points at it. */
  lemma HListCells(w: Image, s: seq<Word>)
    requires HList(w, s)
    ensures forall i, j :: 0 <= i && j == i + 1 && j < |s| ==>
            s[j] <= 0xFFFF_FFF8 && w[s[i]] == s[j] && w[s[j] + 4] == s[i]
    ensures w[s[|s| - 1]] == 0
  {
    forall i, j | 0 <= i && j == i + 1 && j < |s|
      ensures s[j] <= 0xFFFF_FFF8 && w[s[i]] == s[j] && w[s[j] + 4] == s[i]
    {
      assert IsNode(s[j]) && Next(w, s[i]) == s[j] && Prev(w, s[j]) == s[i];
    }
  }
}

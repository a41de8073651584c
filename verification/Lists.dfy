/** utils/include/list.h: circular doubly linked lists whose links live in memory words.
    A `struct list_head` at address p keeps `next` in cell p and `prev` in cell p + 4. */
module Lists {
  import opened Words

  function Next(w: Image, p: Word): Word { w[p] }

  function Prev(w: Image, p: Word): Word { w[Plus(p, 4)] }

  predicate IsNode(p: Word) { 0 < p && p + 8 <= SPACE && p % 4 == 0 }

  predicate Apart(p: Word, q: Word) { p + 8 <= q || q + 8 <= p }

  /** Node addresses whose two cells never overlap; in particular they are all different. */
  ghost predicate Separate(s: seq<Word>) {
    && (forall i :: 0 <= i < |s| ==> IsNode(s[i]))
    && (forall i, j :: 0 <= i < j < |s| ==> Apart(s[i], s[j]))
  }

  /** Each node of `s` and its successor in `s` point at each other. */
  ghost predicate Chain(w: Image, s: seq<Word>) {
    forall i, j :: 0 <= i && j == i + 1 && j < |s| ==> Next(w, s[i]) == s[j] && Prev(w, s[j]) == s[i]
  }

  /** `s` is a well-formed circular list, read from s[0] along `next`. */
  ghost predicate Ring(w: Image, s: seq<Word>) {
    |s| > 0 && Separate(s) && Chain(w, s) && Next(w, s[|s| - 1]) == s[0] && Prev(w, s[0]) == s[|s| - 1]
  }

  /** Make `b` follow `a`. */
  function Join(w: Image, a: Word, b: Word): Image {
    w[a := b][Plus(b, 4) := a]
  }

  lemma JoinKeeps(w: Image, a: Word, b: Word, s: seq<Word>)
    requires Separate(s) && Chain(w, s) && IsNode(a) && IsNode(b)
    requires forall i :: 0 <= i < |s| ==> Apart(a, s[i]) || (i == |s| - 1 && a == s[i])
    requires forall i :: 0 <= i < |s| ==> Apart(b, s[i]) || (i == 0 && b == s[i])
    ensures Chain(Join(w, a, b), s)
  {
  }

  lemma SeparateParts(s: seq<Word>, t: seq<Word>)
    requires Separate(s + t)
    ensures Separate(s) && Separate(t)
    ensures forall i, j :: 0 <= i < |s| && 0 <= j < |t| ==> Apart(s[i], t[j])
  {
    var st := s + t;
    assert forall i :: 0 <= i < |s| ==> s[i] == st[i];
    assert forall j :: 0 <= j < |t| ==> t[j] == st[|s| + j];
  }

  lemma {:induction false} SeparateOnce(s: seq<Word>, p: Word)
    requires Separate(s)
    ensures multiset(s)[p] <= 1
  {
    if s != [] {
      var n := |s| - 1;
      assert s == s[..n] + [s[n]];
      SeparateParts(s[..n], [s[n]]);
      SeparateOnce(s[..n], p);
      assert s[n] !in s[..n];
    }
  }

  /** Separation survives reordering and dropping nodes. */
  lemma SeparateAmong(s: seq<Word>, t: seq<Word>)
    requires Separate(s) && multiset(t) <= multiset(s)
    ensures Separate(t)
  {
    forall i | 0 <= i < |t| ensures IsNode(t[i]) {
      assert t[i] in multiset(t) && t[i] in multiset(s);
    }
    forall i, j | 0 <= i < j < |t| ensures Apart(t[i], t[j]) {
      assert t[i] in multiset(t) && t[j] in multiset(t);
      assert t[i] in multiset(s) && t[j] in multiset(s);
      if t[i] == t[j] {
        assert t == t[..j] + t[j..];
        assert t[i] in t[..j] && t[j] in t[j..];
        SeparateOnce(s, t[i]);
      }
    }
  }

  lemma JoinChains(w: Image, s: seq<Word>, t: seq<Word>)
    requires s != [] && t != [] && Separate(s + t) && Chain(w, s) && Chain(w, t)
    ensures Chain(Join(w, s[|s| - 1], t[0]), s + t)
  {
    SeparateParts(s, t);
    var w' := Join(w, s[|s| - 1], t[0]);
    JoinKeeps(w, s[|s| - 1], t[0], s);
    JoinKeeps(w, s[|s| - 1], t[0], t);
    var st := s + t;
    forall i, j | 0 <= i && j == i + 1 && j < |st|
      ensures Next(w', st[i]) == st[j] && Prev(w', st[j]) == st[i]
    {
      if j < |s| {
        assert st[i] == s[i] && st[j] == s[j];
      } else if j > |s| {
        assert st[i] == t[i - |s|] && st[j] == t[j - |s|];
      }
    }
  }

  lemma Close(w: Image, s: seq<Word>)
    requires s != [] && Separate(s) && Chain(w, s)
    ensures Ring(Join(w, s[|s| - 1], s[0]), s)
  {
    JoinKeeps(w, s[|s| - 1], s[0], s);
  }

  lemma Turn(w: Image, s: seq<Word>, k: nat)
    requires Ring(w, s) && k <= |s|
    ensures Ring(w, s[k..] + s[..k])
  {
  }

  lemma Cut(w: Image, s: seq<Word>, t: seq<Word>)
    requires Chain(w, s + t)
    ensures Chain(w, s) && Chain(w, t)
  {
    var st := s + t;
    assert forall i :: 0 <= i < |s| ==> s[i] == st[i];
    assert forall j :: 0 <= j < |t| ==> t[j] == st[|s| + j];
  }

  /** A node set as list code sees it: the pointers of a ring lead to nodes of that ring. */
  ghost predicate Closed(w: Image, s: seq<Word>) {
    && (forall p :: p in s ==> IsNode(p) && Next(w, p) in s && Prev(w, p) in s)
    && (forall p, q :: p in s && q in s ==> p == q || Apart(p, q))
  }

  lemma Members(w: Image, s: seq<Word>)
    requires Ring(w, s)
    ensures Closed(w, s)
  {
    forall p | p in s ensures Next(w, p) in s && Prev(w, p) in s {
      var i :| 0 <= i < |s| && s[i] == p;
      var n, b := if i + 1 < |s| then i + 1 else 0, if i > 0 then i - 1 else |s| - 1;
      assert Next(w, p) == s[n] && Prev(w, p) == s[b];
    }
  }

  // ---------------------------------------------------------------------------------------------
  // What each list operation does to memory
  // ---------------------------------------------------------------------------------------------

  function Init(w: Image, p: Word): Image { Join(w, p, p) }

  function Link(w: Image, node: Word, prev: Word, next: Word): Image {
    Join(Join(w, prev, node), node, next)
  }

  function AddHead(w: Image, node: Word, head: Word): Image { Link(w, node, head, Next(w, head)) }

  function AddTail(w: Image, node: Word, head: Word): Image { Link(w, node, Prev(w, head), head) }

  function Unlink(w: Image, e: Word): Image { Join(w, Prev(w, e), Next(w, e)) }

  function Delete(w: Image, e: Word): Image { Unlink(w, e)[e := 0][Plus(e, 4) := 0] }

  function Replace(w: Image, was: Word, now: Word): Image {
    var w1 := Join(w, now, Next(w, was));
    Join(w1, Prev(w1, was), now)
  }

  function Swap(w: Image, e1: Word, e2: Word): Image {
    var pos := Prev(w, e2);
    AddHead(Replace(Delete(w, e2), e1, e2), e1, if pos == e1 then e2 else pos)
  }

  function MoveTail(w: Image, e: Word, head: Word): Image { AddTail(Unlink(w, e), e, head) }

  function BulkMoveTail(w: Image, head: Word, first: Word, last: Word): Image {
    var w1 := Join(w, Prev(w, first), Next(w, last));
    Join(Join(w1, Prev(w1, head), first), last, head)
  }

  function RotateLeft(w: Image, head: Word): Image {
    if Next(w, head) == head then w else MoveTail(w, Next(w, head), head)
  }

  function RotateToFront(w: Image, e: Word, head: Word): Image { MoveTail(w, head, e) }

  predicate Empty(w: Image, head: Word) { Next(w, head) == head }

  predicate Singular(w: Image, head: Word) { !Empty(w, head) && Next(w, head) == Prev(w, head) }

  function CutPosition(w: Image, list: Word, head: Word, entry: Word): Image {
    if Empty(w, head) || (Singular(w, head) && entry != head && entry != Next(w, head)) then w
    else if entry == head then Init(w, list)
    else Join(Join(Join(w, list, Next(w, head)), entry, list), head, Next(w, entry))
  }

  function CutBefore(w: Image, list: Word, head: Word, entry: Word): Image {
    if Next(w, head) == entry then Init(w, list)
    else Join(Join(Join(w, list, Next(w, head)), Prev(w, entry), list), head, entry)
  }

  function Splice(w: Image, list: Word, head: Word): Image {
    if Empty(w, list) then w
    else Join(Join(w, head, Next(w, list)), Prev(w, list), Next(w, head))
  }

  // ---------------------------------------------------------------------------------------------
  // What that means for the list
  // ---------------------------------------------------------------------------------------------

  /** Hooking a detached chain m in between the last and the first node of a ring. */
  lemma InsertRing(w: Image, s: seq<Word>, m: seq<Word>)
    requires Ring(w, s) && Chain(w, m) && m != [] && Separate(s + m)
    ensures Ring(Join(Join(w, s[|s| - 1], m[0]), m[|m| - 1], s[0]), s + m)
  {
    SeparateParts(s, m);
    JoinChains(w, s, m);
    Close(Join(w, s[|s| - 1], m[0]), s + m);
  }

  lemma LinkRing(w: Image, node: Word, s: seq<Word>)
    requires Ring(w, s) && Separate([node] + s)
    ensures Ring(Link(w, node, s[|s| - 1], s[0]), s + [node])
  {
    SeparateAmong([node] + s, s + [node]);
    InsertRing(w, s, [node]);
  }

  lemma RingSeparate(w: Image, s: seq<Word>)
    requires Ring(w, s)
    ensures Separate(s)
  {
    hide Separate;
  }

  lemma UnlinkRing(w: Image, e: Word, s: seq<Word>)
    requires Ring(w, [e] + s) && s != []
    ensures Ring(Unlink(w, e), s)
  {
    Cut(w, [e], s);
    SeparateParts([e], s);
    assert ([e] + s)[1] == s[0] && ([e] + s)[|s|] == s[|s| - 1];
    Close(w, s);
  }

  lemma TurnTo(w: Image, a: seq<Word>, b: seq<Word>)
    requires Ring(w, a + b)
    ensures Ring(w, b + a)
  {
    Turn(w, a + b, |a|);
    assert (a + b)[|a|..] == b && (a + b)[..|a|] == a;
  }

  lemma DeleteRing(w: Image, a: seq<Word>, e: Word, b: seq<Word>)
    requires Ring(w, a + [e] + b) && a + b != []
    ensures Ring(Delete(w, e), a + b)
    ensures Next(Delete(w, e), e) == 0 && Prev(Delete(w, e), e) == 0
  {
    hide Ring, Separate, Unlink;
    assert a + [e] + b == a + ([e] + b);
    TurnTo(w, a, [e] + b);
    assert [e] + b + a == [e] + (b + a);
    UnlinkRing(w, e, b + a);
    RingSeparate(w, [e] + (b + a));
    ClearApart(Unlink(w, e), e, b + a);
    TurnTo(Delete(w, e), b, a);
  }

  lemma ClearApart(w: Image, e: Word, s: seq<Word>)
    requires Ring(w, s) && Separate([e] + s)
    ensures var w' := w[e := 0][Plus(e, 4) := 0]; Ring(w', s) && Next(w', e) == 0 && Prev(w', e) == 0
  {
    SeparateParts([e], s);
    assert [e][0] == e && forall j :: 0 <= j < |s| ==> Apart([e][0], s[j]);
  }

  lemma AddTailRing(w: Image, node: Word, s: seq<Word>)
    requires Ring(w, s) && Separate([node] + s)
    ensures Ring(AddTail(w, node, s[0]), s + [node])
  {
    LinkRing(w, node, s);
  }

  lemma AddHeadRing(w: Image, node: Word, head: Word, s: seq<Word>)
    requires Ring(w, [head] + s) && Separate([node] + ([head] + s))
    ensures Ring(AddHead(w, node, head), [head, node] + s)
  {
    TurnTo(w, [head], s);
    var r := s + [head];
    SeparateParts([node], [head] + s);
    assert r[0] == ([head] + s)[if s == [] then 0 else 1];
    assert forall i :: 0 <= i < |s| ==> r[i] == ([head] + s)[i + 1];
    assert Separate([node] + r);
    LinkRing(w, node, r);
    TurnTo(AddHead(w, node, head), s, [head, node]) by {
      assert s + [head] + [node] == s + [head, node];
    }
  }

  lemma ReplaceRing(w: Image, was: Word, now: Word, s: seq<Word>)
    requires Ring(w, [was] + s) && Separate([now] + ([was] + s))
    ensures Ring(Replace(w, was, now), [now] + s)
  {
    hide Ring, Chain, Separate;
    ReplaceStart(w, was, now, s);
    if s == [] {
      assert [now] + s == [now];
      Close(Join(w, now, Next(w, was)), [now]);
    } else {
      JoinChains(w, [now], s);
      Close(Join(w, now, Next(w, was)), [now] + s);
    }
  }

  lemma ReplaceStart(w: Image, was: Word, now: Word, s: seq<Word>)
    requires Ring(w, [was] + s) && Separate([now] + ([was] + s))
    ensures Separate([now] + s) && Chain(w, s) && Chain(w, [now]) && Chain(Join(w, now, Next(w, was)), [now])
    ensures Next(w, was) == (s + [was])[0]
    ensures Prev(Join(w, now, Next(w, was)), was) == ([now] + s)[|s|]
  {
    var ws := [was] + s;
    SeparateAmong([now] + ws, [now] + s);
    SeparateParts([now], ws);
    SeparateParts([was], s);
    RingEnds(w, was, s);
    assert ws[0] == was && ws[|s|] == (if s == [] then was else s[|s| - 1]);
  }

  /** `list_add` after any entry p of a ring, not only after its head. */
  lemma AddAfterRing(w: Image, node: Word, a: seq<Word>, p: Word, b: seq<Word>)
    requires Ring(w, a + [p] + b) && Separate([node] + (a + [p] + b))
    ensures Ring(AddHead(w, node, p), a + [p, node] + b)
  {
    assert a + [p] + b == a + ([p] + b);
    TurnTo(w, a, [p] + b);
    assert [p] + b + a == [p] + (b + a);
    SeparateAmong([node] + (a + [p] + b), [node] + ([p] + (b + a)));
    AddHeadRing(w, node, p, b + a);
    assert [p, node] + (b + a) == ([p, node] + b) + a;
    TurnTo(AddHead(w, node, p), [p, node] + b, a);
    assert a + ([p, node] + b) == a + [p, node] + b;
  }

  /** The first two steps of `list_swap`: e2 leaves, then takes the place of e1. */
  lemma SwapTakesPlace(w: Image, e1: Word, a: seq<Word>, e2: Word, b: seq<Word>)
    requires Ring(w, [e1] + a + [e2] + b)
    ensures Ring(Replace(Delete(w, e2), e1, e2), [e2] + a + b)
    ensures Separate([e1] + ([e2] + a + b))
    ensures Prev(w, e2) == ([e1] + a)[|a|] && e1 !in a
  {
    hide Delete, Replace;
    var s := [e1] + a + [e2] + b;
    SwapEnds(w, e1, a, e2, b);
    hide Ring, Separate;
    DeleteRing(w, [e1] + a, e2, b);
    assert [e1] + a + b == [e1] + (a + b);
    SeparateAmong(s, [e2] + ([e1] + (a + b)));
    ReplaceRing(Delete(w, e2), e1, e2, a + b);
    assert [e2] + (a + b) == [e2] + a + b;
    SeparateAmong(s, [e1] + ([e2] + a + b));
  }

  lemma SwapEnds(w: Image, e1: Word, a: seq<Word>, e2: Word, b: seq<Word>)
    requires Ring(w, [e1] + a + [e2] + b)
    ensures Prev(w, e2) == ([e1] + a)[|a|] && e1 !in a
    ensures Separate([e1] + a + [e2] + b)
  {
    var s := [e1] + a + [e2] + b;
    assert s[|a| + 1] == e2 && s[|a|] == ([e1] + a)[|a|] && s[0] == e1;
    assert forall i :: 0 <= i < |a| ==> a[i] == s[i + 1];
  }

  lemma SwapRing(w: Image, e1: Word, a: seq<Word>, e2: Word, b: seq<Word>)
    requires Ring(w, [e1] + a + [e2] + b)
    ensures Ring(Swap(w, e1, e2), [e2] + a + [e1] + b)
  {
    hide Ring, Separate, Delete, Replace, AddHead;
    var w2 := Replace(Delete(w, e2), e1, e2);
    var front, p := ([e2] + a)[..|a|], ([e2] + a)[|a|];
    SwapTakesPlace(w, e1, a, e2, b);
    assert [e2] + a == front + [p];
    SeparateAmong([e1] + ([e2] + a + b), [e1] + (front + [p] + b));
    AddAfterRing(w2, e1, front, p, b);
    assert front + [p, e1] + b == [e2] + a + [e1] + b;
    assert p == if Prev(w, e2) == e1 then e2 else Prev(w, e2) by {
      assert a != [] ==> p == a[|a| - 1] == ([e1] + a)[|a|];
    }
  }

  /** Two different entries of one ring trade places, whichever of the two is given first and
      however close they are. */
  lemma SwapExchanges(w: Image, x: seq<Word>, e1: Word, a: seq<Word>, e2: Word, y: seq<Word>)
    requires Ring(w, x + ([e1] + a + [e2] + y))
    ensures Ring(Swap(w, e1, e2), x + ([e2] + a + [e1] + y))
    ensures Ring(Swap(w, e2, e1), x + ([e2] + a + [e1] + y))
  {
    TurnTo(w, x, [e1] + a + [e2] + y);
    SwapForward(w, x, e1, a, e2, y);
    SwapBackward(w, x, e1, a, e2, y);
  }

  lemma SwapForward(w: Image, x: seq<Word>, e1: Word, a: seq<Word>, e2: Word, y: seq<Word>)
    requires Ring(w, [e1] + a + [e2] + y + x)
    ensures Ring(Swap(w, e1, e2), x + ([e2] + a + [e1] + y))
  {
    hide Ring, Swap;
    assert [e1] + a + [e2] + y + x == [e1] + a + [e2] + (y + x);
    SwapRing(w, e1, a, e2, y + x);
    assert [e2] + a + [e1] + (y + x) == ([e2] + a + [e1] + y) + x;
    TurnTo(Swap(w, e1, e2), [e2] + a + [e1] + y, x);
  }

  lemma SwapBackward(w: Image, x: seq<Word>, e1: Word, a: seq<Word>, e2: Word, y: seq<Word>)
    requires Ring(w, [e1] + a + [e2] + y + x)
    ensures Ring(Swap(w, e2, e1), x + ([e2] + a + [e1] + y))
  {
    hide Ring, Swap;
    var back := [e2] + y + x;
    assert [e1] + a + [e2] + y + x == ([e1] + a) + back;
    TurnTo(w, [e1] + a, back);
    assert back + ([e1] + a) == [e2] + (y + x) + [e1] + a;
    SwapRing(w, e2, y + x, e1, a);
    assert [e1] + (y + x) + [e2] + a == ([e1] + y) + (x + ([e2] + a));
    TurnTo(Swap(w, e2, e1), [e1] + y, x + ([e2] + a));
    assert x + ([e2] + a) + ([e1] + y) == x + ([e2] + a + [e1] + y);
  }

  /** Two entries of different rings trade places too, provided that e2 is not alone in its ring; if it
      is, e1 joins it in the ring they then share. */
  lemma SwapAcross(w: Image, e1: Word, a: seq<Word>, e2: Word, b: seq<Word>)
    requires TwoRings(w, e1, a, e2, b)
    ensures b != [] ==> Ring(Swap(w, e1, e2), [e2] + a) && Ring(Swap(w, e1, e2), b + [e1])
    ensures b == [] ==> Ring(Swap(w, e1, e2), [e2, e1] + a)
  {
    hide Ring, Separate, Delete, Replace, AddHead;
    var w2 := Replace(Delete(w, e2), e1, e2);
    SwapMovesIn(w, e1, a, e2, b);
    if b != [] {
      var n := |b| - 1;
      assert b == b[..n] + [b[n]] + [] && b[..n] + [b[n], e1] + [] == b + [e1];
      AddAfterRing(w2, e1, b[..n], b[n], []);
      SeparateAmong([e1] + (b + ([e2] + a)), ([e2] + a) + (b + [e1]));
      AddLastBeside(w2, e1, b, [e2] + a);
    } else {
      assert [e2] + a == [] + [e2] + a && [] + [e2, e1] + a == [e2, e1] + a;
      AddAfterRing(w2, e1, [], e2, a);
    }
  }

  ghost predicate TwoRings(w: Image, e1: Word, a: seq<Word>, e2: Word, b: seq<Word>) {
    Ring(w, [e1] + a) && Ring(w, [e2] + b) && Separate(([e1] + a) + ([e2] + b))
  }

  /** The nodes of two rings in the orders in which `list_swap` arranges them. */
  lemma SeparateAcross(e1: Word, a: seq<Word>, e2: Word, b: seq<Word>)
    requires Separate(([e1] + a) + ([e2] + b))
    ensures Separate([e2] + ([e1] + a)) && Separate(([e2] + b) + ([e1] + a))
    ensures Separate([e1] + ([e2] + a)) && Separate([e1] + b)
    ensures Separate([e1] + (b + ([e2] + a))) && Separate(b + ([e1] + [e2] + a))
    ensures forall x :: x in [e2] + b ==> x != e1
  {
    hide Separate;
    var s := ([e1] + a) + ([e2] + b);
    SeparateAmong(s, ([e2] + b) + ([e1] + a));
    SeparateAmong(s, [e1] + (b + ([e2] + a)));
    SeparateAmong(s, b + ([e1] + [e2] + a));
    Strangers([e1] + a, [e2] + b);
    assert e1 in [e1] + a;
    SeparateEnds([e1], b, [e2] + a);
    assert ([e2] + b) + ([e1] + a) == [e2] + (b + ([e1] + a));
    SeparateEnds([e2], b, [e1] + a);
  }

  lemma SeparateEnds(s: seq<Word>, t: seq<Word>, u: seq<Word>)
    requires Separate(s + (t + u))
    ensures Separate(s + t) && Separate(s + u)
  {
    hide Separate;
    SeparateAmong(s + (t + u), s + t);
    SeparateAmong(s + (t + u), s + u);
  }

  /** The first two steps of `list_swap` across rings. */
  lemma SwapMovesIn(w: Image, e1: Word, a: seq<Word>, e2: Word, b: seq<Word>)
    requires TwoRings(w, e1, a, e2, b)
    ensures var w2 := Replace(Delete(w, e2), e1, e2);
      Ring(Delete(w, e2), [e1] + a) && Ring(w2, [e2] + a) && (b != [] ==> Ring(Delete(w, e2), b) && Ring(w2, b))
    ensures Prev(w, e2) == ([e2] + b)[|b|] != e1
    ensures Separate([e1] + (b + ([e2] + a))) && Separate([e1] + ([e2] + a)) && Separate([e1] + b)
    ensures Separate([e2] + ([e1] + a))
  {
    hide Ring, Separate, Chain, Replace, Unlink, Join;
    SeparateAcross(e1, a, e2, b);
    RingEnds(w, e2, b);
    assert ([e2] + b)[|b|] in [e2] + b;
    UnlinkBeside(w, e2, b, [e1] + a);
    ClearApart(Unlink(w, e2), e2, [e1] + a);
    ReplaceRing(Delete(w, e2), e1, e2, a);
    if b != [] {
      assert [] + [e2] + b == [e2] + b && [] + b == b;
      DeleteRing(w, [], e2, b);
      ReplaceBeside(Delete(w, e2), e1, e2, a, b);
    }
  }

  lemma ReplaceBeside(w: Image, was: Word, now: Word, s: seq<Word>, other: seq<Word>)
    requires Ring(w, [was] + s) && Ring(w, other) && Separate([now] + ([was] + s))
    requires Separate(other + ([was] + [now] + s))
    ensures Ring(Replace(w, was, now), other)
  {
    hide Ring, Chain;
    var r := [was] + [now] + s;
    ReplaceStart(w, was, now, s);
    SeparateParts(other, r);
    assert r[0] == was && r[1] == now && (s != [] ==> r[2] == s[0] && r[|r| - 1] == s[|s| - 1]);
    var w1 := Join(w, now, Next(w, was));
    JoinBeside(w, now, Next(w, was), other);
    JoinBeside(w1, Prev(w1, was), now, other);
  }

  lemma AddLastBeside(w: Image, node: Word, s: seq<Word>, other: seq<Word>)
    requires Ring(w, s) && Ring(w, other) && Separate(other + (s + [node]))
    ensures Ring(AddHead(w, node, s[|s| - 1]), other)
  {
    hide Chain;
    var r := s + [node];
    SeparateParts(other, r);
    assert r[|s|] == node && r[|s| - 1] == s[|s| - 1] && r[0] == s[0] == Next(w, s[|s| - 1]);
    JoinBeside(w, s[|s| - 1], node, other);
    JoinBeside(Join(w, s[|s| - 1], node), node, s[0], other);
  }

  /** A++S++B becomes A++B++S; the head is in A. S may already be at the tail (B empty) and may be
      every entry there is (A is the head alone). */
  lemma BulkMoveTailRing(w: Image, a: seq<Word>, m: seq<Word>, b: seq<Word>)
    requires Ring(w, a + m + b) && a != [] && m != []
    ensures Ring(BulkMoveTail(w, a[0], m[0], m[|m| - 1]), a + b + m)
  {
    hide Ring, Separate, Chain;
    var s := a + m + b;
    RingSeparate(w, s);
    assert s == a + (m + b);
    TurnTo(w, a, m + b);
    assert m + b + a == m + (b + a);
    BulkMoveDetach(w, m, b + a);
    var w1 := Join(w, Prev(w, m[0]), Next(w, m[|m| - 1]));
    TurnTo(w1, b, a);
    SeparateAmong(s, a + b + m);
    InsertRing(w1, a + b, m);
  }

  lemma BulkMoveDetach(w: Image, m: seq<Word>, r: seq<Word>)
    requires Ring(w, m + r) && m != [] && r != []
    ensures var w1 := Join(w, Prev(w, m[0]), Next(w, m[|m| - 1])); Ring(w1, r) && Chain(w1, m)
  {
    var s := m + r;
    assert s[|m| - 1] == m[|m| - 1] && s[|m|] == r[0] && s[|s| - 1] == r[|r| - 1];
    SeparateParts(m, r);
    Cut(w, m, r);
    Close(w, r);
    JoinKeeps(w, r[|r| - 1], r[0], m);
  }

  // ---------------------------------------------------------------------------------------------
  // Cutting and splicing
  // ---------------------------------------------------------------------------------------------

  /** Cutting after the last entry of a: list takes the prefix a, head keeps the suffix b. */
  lemma CutRings(w: Image, list: Word, head: Word, a: seq<Word>, b: seq<Word>)
    requires Ring(w, [head] + a + b) && Separate([list] + ([head] + a + b)) && a != []
    ensures var w' := CutPosition(w, list, head, a[|a| - 1]);
      Ring(w', [list] + a) && Ring(w', [head] + b)
    ensures CutBefore(w, list, head, (b + [head])[0]) == CutPosition(w, list, head, a[|a| - 1])
  {
    var s, t := [head] + a + b, b + [head];
    SeparateAmong([list] + s, ([list] + a) + t);
    CutPointers(w, head, a, b);
    CutChains(w, list, a, t);
    SeparateParts([list] + a, t);
    var w2 := Join(Join(w, list, a[0]), a[|a| - 1], list);
    Close(w2, t);
    RingBeside(w2, [list] + a, t);
    TurnTo(Join(w2, head, t[0]), b, [head]);
  }

  lemma CutPointers(w: Image, head: Word, a: seq<Word>, b: seq<Word>)
    requires Ring(w, [head] + a + b) && a != []
    ensures Chain(w, a) && Chain(w, b + [head])
    ensures Next(w, head) == a[0] && Next(w, a[|a| - 1]) == (b + [head])[0]
    ensures Prev(w, (b + [head])[0]) == a[|a| - 1]
    ensures head != a[0] && head != a[|a| - 1] && a[0] != (b + [head])[0]
    ensures Singular(w, head) ==> a[|a| - 1] == Next(w, head)
  {
    var s := [head] + a + b;
    assert s[0] == head && s[1] == a[0] && s[|a|] == a[|a| - 1];
    assert b != [] ==> s[|a| + 1] == b[0] && s[|s| - 1] == b[|b| - 1];
    assert s == [head] + (a + b);
    TurnTo(w, [head], a + b);
    assert a + b + [head] == a + (b + [head]);
    Cut(w, a, b + [head]);
  }

  lemma CutChains(w: Image, list: Word, a: seq<Word>, t: seq<Word>)
    requires Chain(w, a) && Chain(w, t) && a != [] && Separate(([list] + a) + t)
    ensures var w2 := Join(Join(w, list, a[0]), a[|a| - 1], list); Ring(w2, [list] + a) && Chain(w2, t)
  {
    SeparateParts([list] + a, t);
    SeparateParts([list], a);
    assert ([list] + a)[0] == list && ([list] + a)[1] == a[0] && ([list] + a)[|a|] == a[|a| - 1];
    JoinChains(w, [list], a);
    JoinKeeps(w, list, a[0], t);
    Close(Join(w, list, a[0]), [list] + a);
    JoinKeeps(Join(w, list, a[0]), a[|a| - 1], list, t);
  }

  lemma RingBeside(w: Image, s: seq<Word>, t: seq<Word>)
    requires Ring(w, s) && Separate(s + t) && t != []
    ensures Ring(Join(w, t[|t| - 1], t[0]), s)
  {
    SeparateParts(s, t);
    JoinKeeps(w, t[|t| - 1], t[0], s);
  }

  /** Splicing the entries of list in right after head. */
  lemma SpliceRing(w: Image, list: Word, a: seq<Word>, head: Word, b: seq<Word>)
    requires Ring(w, [list] + a) && Ring(w, [head] + b) && Separate(([list] + a) + ([head] + b))
    ensures a == [] ==> Splice(w, list, head) == w
    ensures Ring(Splice(w, list, head), [head] + a + b)
  {
    RingEnds(w, list, a);
    if a == [] {
      assert [head] + a + b == [head] + b;
    } else {
      SeparateAmong(([list] + a) + ([head] + b), (b + [head]) + a);
      SpliceChain(w, a, head, b);
      assert ([list] + a)[|a|] == a[|a| - 1];
    }
  }

  lemma SpliceChain(w: Image, a: seq<Word>, head: Word, b: seq<Word>)
    requires Chain(w, a) && Ring(w, [head] + b) && Separate((b + [head]) + a) && a != []
    ensures Ring(Join(Join(w, head, a[0]), a[|a| - 1], Next(w, head)), [head] + a + b)
  {
    RingEnds(w, head, b);
    TurnTo(w, [head], b);
    InsertRing(w, b + [head], a);
    var w' := Join(Join(w, head, a[0]), a[|a| - 1], Next(w, head));
    assert (b + [head]) + a == b + ([head] + a);
    TurnTo(w', b, [head] + a);
  }

  lemma RingEnds(w: Image, head: Word, s: seq<Word>)
    requires Ring(w, [head] + s)
    ensures Chain(w, s) && Empty(w, head) == (s == [])
    ensures Next(w, head) == (s + [head])[0] && Prev(w, head) == ([head] + s)[|s|]
  {
    assert ([head] + s)[0] == head && (s != [] ==> ([head] + s)[1] == s[0]);
    Cut(w, [head], s);
  }

  // ---------------------------------------------------------------------------------------------
  // What stays the same
  // ---------------------------------------------------------------------------------------------

  predicate IsCell(s: seq<Word>, x: Word) { x in s || Minus(x, 4) in s }

  ghost predicate SameElsewhere(w: Image, w': Image, s: seq<Word>) {
    forall x: Word :: !IsCell(s, x) ==> w'[x] == w[x]
  }

  lemma JoinElsewhere(w: Image, w': Image, a: Word, b: Word, s: seq<Word>)
    requires SameElsewhere(w, w', s) && a in s && b in s
    ensures SameElsewhere(w, Join(w', a, b), s)
  {
    assert IsCell(s, a) && IsCell(s, Plus(b, 4));
  }

  /** A ring fixes every one of its cells. */
  lemma RingFixes(w: Image, w': Image, s: seq<Word>)
    requires Ring(w, s) && Ring(w', s)
    ensures forall x: Word :: IsCell(s, x) ==> w[x] == w'[x]
  {
    forall i | 0 <= i < |s| ensures Next(w, s[i]) == Next(w', s[i]) && Prev(w, s[i]) == Prev(w', s[i]) {
      assert i + 1 < |s| ==> Next(w, s[i]) == s[i + 1] == Next(w', s[i]);
      assert i > 0 ==> Prev(w, s[i]) == s[i - 1] == Prev(w', s[i]);
    }
  }

  /** Splicing back what was cut off restores the list, and memory, except for the spare head. */
  lemma CutThenSplice(w: Image, list: Word, head: Word, a: seq<Word>, b: seq<Word>)
    requires Ring(w, [head] + a + b) && Separate([list] + ([head] + a + b)) && a != []
    ensures var w' := Splice(CutPosition(w, list, head, a[|a| - 1]), list, head);
      Ring(w', [head] + a + b) && SameElsewhere(w, w', [list])
  {
    hide Ring, Separate, Chain, SameElsewhere, CutPosition;
    var s := [head] + a + b;
    var w1 := CutPosition(w, list, head, a[|a| - 1]);
    var w' := Splice(w1, list, head);
    CutRings(w, list, head, a, b);
    SeparateAmong([list] + s, ([list] + a) + ([head] + b));
    SpliceRing(w1, list, a, head, b);
    CutMembers(list, head, a, b);
    CutPointers(w, head, a, b);
    CutElsewhere(w, list, head, a[|a| - 1], [list] + s);
    RingEnds(w1, list, a);
    RingEnds(w1, head, b);
    JoinElsewhere(w, w1, head, a[0], [list] + s);
    JoinElsewhere(w, Join(w1, head, a[0]), a[|a| - 1], (b + [head])[0], [list] + s);
    RingRestores(w, w', list, s);
  }

  lemma CutMembers(list: Word, head: Word, a: seq<Word>, b: seq<Word>)
    requires a != []
    ensures var s := [list] + ([head] + a + b);
      list in s && head in s && a[0] in s && a[|a| - 1] in s && (b + [head])[0] in s
  {
    assert b != [] ==> b[0] in b;
  }

  lemma RingRestores(w: Image, w': Image, list: Word, s: seq<Word>)
    requires Ring(w, s) && Ring(w', s) && SameElsewhere(w, w', [list] + s)
    ensures SameElsewhere(w, w', [list])
  {
    RingFixes(w, w', s);
  }

  lemma CutElsewhere(w: Image, list: Word, head: Word, entry: Word, s: seq<Word>)
    requires list in s && head in s && entry in s && Next(w, head) in s && Next(w, entry) in s
    ensures SameElsewhere(w, CutPosition(w, list, head, entry), s)
  {
    JoinElsewhere(w, w, list, list, s);
    JoinElsewhere(w, w, list, Next(w, head), s);
    JoinElsewhere(w, Join(w, list, Next(w, head)), entry, list, s);
    JoinElsewhere(w, Join(Join(w, list, Next(w, head)), entry, list), head, Next(w, entry), s);
  }

  /** Cutting at the head itself cuts nothing, and splicing that nothing back changes nothing. */
  lemma CutAtHead(w: Image, list: Word, head: Word, s: seq<Word>)
    requires Ring(w, [head] + s) && s != [] && Separate([list] + ([head] + s))
    ensures var w' := CutPosition(w, list, head, head);
      w' == Init(w, list) && Ring(w', [list]) && Ring(w', [head] + s) && Splice(w', list, head) == w'
  {
    SeparateParts([list], [head] + s);
    RingEnds(w, head, s);
    var w' := Init(w, list);
    assert [list][0] == list;
    JoinKeeps(w, list, list, [head] + s);
  }

  // ---------------------------------------------------------------------------------------------
  // Rotating
  // ---------------------------------------------------------------------------------------------

  lemma RotateLeftRing(w: Image, head: Word, e: Word, s: seq<Word>)
    requires Ring(w, [head, e] + s)
    ensures Ring(RotateLeft(w, head), [head] + (s + [e]))
    ensures SameElsewhere(w, RotateLeft(w, head), [head, e] + s)
  {
    var r := [head, e] + s;
    assert r[0] == head && r[1] == e;
    assert r == [head] + ([e] + s);
    TurnTo(w, [head], [e] + s);
    assert [e] + s + [head] == [e] + (s + [head]);
    UnlinkRing(w, e, s + [head]);
    MoveTailRing(w, e, s, head);
    assert Prev(w, e) == head && Next(w, e) == (s + [head])[0];
    MoveTailElsewhere(w, e, head, r);
  }

  lemma MoveTailRing(w: Image, e: Word, s: seq<Word>, head: Word)
    requires Ring(Unlink(w, e), s + [head]) && Separate([e] + (s + [head]))
    ensures Ring(MoveTail(w, e, head), [head] + (s + [e])) && Prev(Unlink(w, e), head) == ([head] + s)[|s|]
  {
    TurnTo(Unlink(w, e), s, [head]);
    SeparateAmong([e] + (s + [head]), [e] + ([head] + s));
    AddTailRing(Unlink(w, e), e, [head] + s);
    assert [head] + s + [e] == [head] + (s + [e]);
  }

  /** e, in a ring with the nodes s, can go to the end of the list headed at head, which apart from e
      has the entries t: either that list is the same ring, or the two rings have nothing in common. */
  ghost predicate MoveTarget(w: Image, e: Word, s: seq<Word>, head: Word, t: seq<Word>) {
    || (exists k :: 0 <= k < |s| && s[k] == head && t == s[k + 1..] + s[..k])
    || (Ring(w, [head] + t) && Separate(([e] + s) + ([head] + t)))
  }

  /** `list_move_tail`: the entry becomes the last one of head's list, and a list it was taken from
      keeps its other nodes. */
  lemma MoveTailRings(w: Image, e: Word, s: seq<Word>, head: Word, t: seq<Word>)
    requires Ring(w, [e] + s) && MoveTarget(w, e, s, head, t)
    ensures Ring(MoveTail(w, e, head), [head] + t + [e])
    ensures s != [] && head !in s ==> Ring(MoveTail(w, e, head), s)
    ensures Ring(Unlink(w, e), [head] + t) && Separate([e] + ([head] + t))
  {
    hide Ring, Separate, Chain;
    if head in s {
      OneRing(w, e, s, head, t);
      var k :| 0 <= k < |s| && s[k] == head && t == s[k + 1..] + s[..k];
      MoveTailWithin(w, e, s, k);
    } else {
      MoveTailAcross(w, e, s, head, t);
    }
  }

  lemma OneRing(w: Image, e: Word, s: seq<Word>, head: Word, t: seq<Word>)
    requires MoveTarget(w, e, s, head, t) && head in s
    ensures exists k :: 0 <= k < |s| && s[k] == head && t == s[k + 1..] + s[..k]
  {
    assert head in [e] + s && head in [head] + t;
    if Separate(([e] + s) + ([head] + t)) {
      Strangers([e] + s, [head] + t);
      assert false;
    }
  }

  lemma Strangers(a: seq<Word>, b: seq<Word>)
    requires Separate(a + b)
    ensures forall x :: x in a ==> x !in b
  {
    SeparateParts(a, b);
  }

  lemma MoveTailWithin(w: Image, e: Word, s: seq<Word>, k: nat)
    requires Ring(w, [e] + s) && k < |s|
    ensures var t := s[k + 1..] + s[..k];
      && Ring(Unlink(w, e), [s[k]] + t) && Separate([e] + ([s[k]] + t))
      && Ring(MoveTail(w, e, s[k]), [s[k]] + t + [e])
  {
    hide Ring, Separate, Unlink;
    var t := s[k + 1..] + s[..k];
    UnlinkRing(w, e, s);
    assert s == s[..k] + ([s[k]] + s[k + 1..]);
    TurnTo(Unlink(w, e), s[..k], [s[k]] + s[k + 1..]);
    assert [s[k]] + s[k + 1..] + s[..k] == [s[k]] + t;
    RingSeparate(w, [e] + s);
    assert multiset(s) == multiset(s[..k]) + multiset([s[k]] + s[k + 1..]);
    SeparateAmong([e] + s, [e] + ([s[k]] + t));
    AddTailRing(Unlink(w, e), e, [s[k]] + t);
  }

  lemma MoveTailAcross(w: Image, e: Word, s: seq<Word>, head: Word, t: seq<Word>)
    requires Ring(w, [e] + s) && Ring(w, [head] + t) && Separate(([e] + s) + ([head] + t))
    ensures Ring(Unlink(w, e), [head] + t) && Separate([e] + ([head] + t))
    ensures Ring(MoveTail(w, e, head), [head] + t + [e])
    ensures s != [] ==> Ring(MoveTail(w, e, head), s)
  {
    hide Chain;
    var own, other := [e] + s, [head] + t;
    SeparateAmong(own + other, [e] + other);
    RingEnds(w, e, s);
    UnlinkBeside(w, e, s, other);
    AddTailRing(Unlink(w, e), e, other);
    assert other[0] == head;
    if s != [] {
      UnlinkRing(w, e, s);
      SeparateAmong(own + other, s + (other + [e]));
      RingEnds(Unlink(w, e), head, t);
      AddTailBeside(Unlink(w, e), s, head, t, e);
    }
  }

  /** Taking a node out of its ring leaves a ring that has nothing to do with it alone. */
  lemma UnlinkBeside(w: Image, e: Word, s: seq<Word>, other: seq<Word>)
    requires Ring(w, [e] + s) && Ring(w, other) && Separate(([e] + s) + other)
    ensures Ring(Unlink(w, e), other)
  {
    RingEnds(w, e, s);
    SeparateParts([e] + s, other);
    Members(w, [e] + s);
    assert e in [e] + s;
    JoinBeside(w, Prev(w, e), Next(w, e), other);
  }

  lemma JoinBeside(w: Image, a: Word, b: Word, s: seq<Word>)
    requires Ring(w, s) && IsNode(a) && IsNode(b) && forall p :: p in s ==> Apart(a, p) && Apart(b, p)
    ensures Ring(Join(w, a, b), s)
  {
    JoinKeeps(w, a, b, s);
  }

  lemma AddTailBeside(w: Image, s: seq<Word>, head: Word, t: seq<Word>, e: Word)
    requires Ring(w, s) && Ring(w, [head] + t) && Separate(s + (([head] + t) + [e]))
    ensures Ring(AddTail(w, e, head), s)
  {
    var r := ([head] + t) + [e];
    SeparateParts(s, r);
    RingEnds(w, head, t);
    assert r[0] == head && r[|t|] == Prev(w, head) && r[|t| + 1] == e;
    JoinBeside(w, Prev(w, head), e, s);
    JoinBeside(Join(w, Prev(w, head), e), e, head, s);
  }

  lemma MoveTailElsewhere(w: Image, e: Word, head: Word, s: seq<Word>)
    requires e in s && head in s && Prev(w, e) in s && Next(w, e) in s && Prev(Unlink(w, e), head) in s
    ensures SameElsewhere(w, MoveTail(w, e, head), s)
  {
    var w1 := Unlink(w, e);
    JoinElsewhere(w, w, Prev(w, e), Next(w, e), s);
    JoinElsewhere(w, w1, Prev(w1, head), e, s);
    JoinElsewhere(w, Join(w1, Prev(w1, head), e), e, head, s);
  }

  /** `list_rotate_left`, k times over. */
  function RotateLeftTimes(w: Image, head: Word, k: nat): Image
    decreases k
  {
    if k == 0 then w else RotateLeftTimes(RotateLeft(w, head), head, k - 1)
  }

  lemma RotateNone(w: Image, head: Word, b: seq<Word>)
    ensures RotateLeftTimes(w, head, 0) == w && SameElsewhere(w, w, [head] + b)
  {
  }

  lemma {:induction false} RotateLeftTimesRing(w: Image, head: Word, a: seq<Word>, b: seq<Word>)
    requires Ring(w, [head] + (a + b))
    ensures Ring(RotateLeftTimes(w, head, |a|), [head] + (b + a))
    ensures SameElsewhere(w, RotateLeftTimes(w, head, |a|), [head] + (a + b))
    decreases |a|
  {
    hide Ring, SameElsewhere, RotateLeft;
    if a == [] {
      RotateNone(w, head, b);
      assert [head] + (a + b) == [head] + (b + a) == [head] + b;
    } else {
      var w1, c := RotateLeft(w, head), b + [a[0]];
      RotateOnce(w, head, a, b);
      RotateLeftTimesRing(w1, head, a[1..], c);
      assert c + a[1..] == b + a by { assert a == [a[0]] + a[1..]; }
      ElsewhereChain(w, w1, RotateLeftTimes(w1, head, |a| - 1), [head] + (a + b), [head] + (a[1..] + c));
    }
  }

  lemma ElsewhereChain(w: Image, w1: Image, w2: Image, s: seq<Word>, t: seq<Word>)
    requires SameElsewhere(w, w1, s) && SameElsewhere(w1, w2, t) && forall x :: x in t <==> x in s
    ensures SameElsewhere(w, w2, s)
  {
    forall x: Word | !IsCell(s, x) ensures w2[x] == w[x] {
      assert !IsCell(t, x);
    }
  }

  lemma RotateOnce(w: Image, head: Word, a: seq<Word>, b: seq<Word>)
    requires Ring(w, [head] + (a + b)) && a != []
    ensures Ring(RotateLeft(w, head), [head] + (a[1..] + (b + [a[0]])))
    ensures SameElsewhere(w, RotateLeft(w, head), [head] + (a + b))
    ensures forall x :: x in [head] + (a[1..] + (b + [a[0]])) <==> x in [head] + (a + b)
  {
    assert [head, a[0]] + (a[1..] + b) == [head] + (a + b);
    RotateLeftRing(w, head, a[0], a[1..] + b);
    assert a[1..] + b + [a[0]] == a[1..] + (b + [a[0]]);
    assert a == [a[0]] + a[1..];
  }

  lemma RotateToFrontRing(w: Image, head: Word, a: seq<Word>, b: seq<Word>)
    requires Ring(w, [head] + (a + b)) && b != []
    ensures Ring(RotateToFront(w, b[0], head), [head] + (b + a))
    ensures SameElsewhere(w, RotateToFront(w, b[0], head), [head] + (a + b))
  {
    var s := [head] + (a + b);
    var w1 := Unlink(w, head);
    UnlinkRing(w, head, a + b);
    TurnTo(w1, a, b);
    SeparateAmong(s, [head] + (b + a));
    AddTailRing(w1, head, b + a);
    TurnTo(AddTail(w1, head, b[0]), b + a, [head]);
    RingEnds(w, head, a + b);
    assert Prev(w1, b[0]) == (b + a)[|b + a| - 1] && forall x :: x in b + a ==> x in s;
    assert Next(w, head) == (a + b)[0] && Prev(w, head) == (a + b)[|a + b| - 1];
    MoveTailElsewhere(w, head, b[0], s);
  }

  /** Bringing the entry at position k to the front is k rotations to the left, cell for cell. */
  lemma RotateToFrontIsRotations(w: Image, head: Word, a: seq<Word>, b: seq<Word>)
    requires Ring(w, [head] + (a + b)) && b != []
    ensures RotateToFront(w, b[0], head) == RotateLeftTimes(w, head, |a|)
  {
    RotateToFrontRing(w, head, a, b);
    RotateLeftTimesRing(w, head, a, b);
    SameImage(w, RotateToFront(w, b[0], head), RotateLeftTimes(w, head, |a|), [head] + (a + b), [head] + (b + a));
  }

  /** Rotating a list of n entries n times gives memory back exactly as it was. */
  lemma FullRotation(w: Image, head: Word, s: seq<Word>)
    requires Ring(w, [head] + s)
    ensures RotateLeftTimes(w, head, |s|) == w
  {
    assert [head] + s == [head] + (s + []) == [head] + ([] + s);
    RotateLeftTimesRing(w, head, s, []);
    SameImage(w, w, RotateLeftTimes(w, head, |s|), [head] + s, [head] + s);
  }

  lemma SameImage(w: Image, w1: Image, w2: Image, s: seq<Word>, t: seq<Word>)
    requires SameElsewhere(w, w1, s) && SameElsewhere(w, w2, s) && Ring(w1, t) && Ring(w2, t)
    requires multiset(s) == multiset(t)
    ensures w1 == w2
  {
    RingFixes(w1, w2, t);
    forall x: Word ensures w1[x] == w2[x] {
      assert x in s <==> x in multiset(s);
      assert x in t <==> x in multiset(t);
      assert Minus(x, 4) in s <==> Minus(x, 4) in multiset(s);
      assert Minus(x, 4) in t <==> Minus(x, 4) in multiset(t);
      assert IsCell(s, x) == IsCell(t, x);
    }
    assert forall i :: 0 <= i < |w1| ==> w1[i] == w2[i];
  }

  /** Adding an entry writes to its own words and to the list's. */
  lemma AddElsewhere(w: Image, node: Word, head: Word, s: seq<Word>)
    requires Ring(w, s) && head in s
    ensures SameElsewhere(w, AddHead(w, node, head), [node] + s) && SameElsewhere(w, AddTail(w, node, head), [node] + s)
  {
    hide Ring, SameElsewhere, Join;
    Members(w, s);
    var t, next, prev := [node] + s, Next(w, head), Prev(w, head);
    assert node in t && head in t && next in t && prev in t;
    SameHere(w, t);
    JoinElsewhere(w, w, head, node, t);
    JoinElsewhere(w, Join(w, head, node), node, next, t);
    JoinElsewhere(w, w, prev, node, t);
    JoinElsewhere(w, Join(w, prev, node), node, head, t);
  }

  lemma SameHere(w: Image, s: seq<Word>)
    ensures SameElsewhere(w, w, s)
  {
  }

  /** Deleting an entry writes to the list's words only. */
  lemma DeleteElsewhere(w: Image, e: Word, s: seq<Word>)
    requires Ring(w, s) && e in s
    ensures SameElsewhere(w, Delete(w, e), s)
  {
    Members(w, s);
    JoinElsewhere(w, w, Prev(w, e), Next(w, e), s);
    assert IsCell(s, e) && IsCell(s, Plus(e, 4));
  }

  /** Replacing an entry writes to its own words, the new entry's, and the list's. */
  lemma ReplaceElsewhere(w: Image, was: Word, now: Word, s: seq<Word>)
    requires Ring(w, [was] + s) && Separate([now] + ([was] + s))
    ensures SameElsewhere(w, Replace(w, was, now), [now] + ([was] + s))
  {
    hide Ring, Separate, Chain, SameElsewhere, Join;
    var t := [now] + ([was] + s);
    var w1 := Join(w, now, Next(w, was));
    ReplaceStart(w, was, now, s);
    assert now in t && Next(w, was) in t && Prev(w1, was) in t by {
      assert (s + [was])[0] in t && ([now] + s)[|s|] in t;
    }
    SameHere(w, t);
    JoinElsewhere(w, w, now, Next(w, was), t);
    JoinElsewhere(w, w1, Prev(w1, was), now, t);
  }

  /** Swapping two entries, of one ring or of two, writes to the words of their rings only. */
  lemma SwapElsewhere(w: Image, e1: Word, a: seq<Word>, e2: Word, b: seq<Word>)
    requires Ring(w, [e1] + a + [e2] + b) || TwoRings(w, e1, a, e2, b)
    ensures SameElsewhere(w, Swap(w, e1, e2), [e1] + a + [e2] + b)
  {
    hide Ring, Separate, TwoRings, SameElsewhere, Delete, Replace, AddHead;
    var t, w1, w2 := [e1] + a + [e2] + b, Delete(w, e2), Replace(Delete(w, e2), e1, e2);
    var pos := if Prev(w, e2) == e1 then e2 else Prev(w, e2);
    if Ring(w, t) {
      SwapTakesPlace(w, e1, a, e2, b);
      DeleteElsewhere(w, e2, t);
      assert [e1] + a + b == [e1] + (a + b) && [e2] + a + b == [e2] + (a + b);
      RingSeparate(w, t);
      DeleteRing(w, [e1] + a, e2, b);
      SeparateAmong(t, [e2] + ([e1] + (a + b)));
      ReplaceElsewhere(w1, e1, e2, a + b);
      SwapPlace(e1, a, e2, b);
      AddElsewhere(w2, e1, pos, [e2] + (a + b));
      ElsewhereChain(w, w1, w2, t, [e2] + ([e1] + (a + b)));
      ElsewhereChain(w, w2, Swap(w, e1, e2), t, [e1] + ([e2] + (a + b)));
    } else {
      SwapMovesIn(w, e1, a, e2, b);
      TwoRingsFirst(w, e1, a, e2, b);
      DeleteElsewhere(w, e2, [e2] + b);
      ReplaceElsewhere(w1, e1, e2, a);
      var r := if b == [] then [e2] + a else b;
      assert pos in r;
      AddElsewhere(w2, e1, pos, r);
      ElsewhereMore(w, w1, [e2] + b, t);
      ElsewhereMore(w1, w2, [e2] + ([e1] + a), t);
      ElsewhereMore(w2, Swap(w, e1, e2), [e1] + r, t);
      ElsewhereChain(w, w1, w2, t, t);
      ElsewhereChain(w, w2, Swap(w, e1, e2), t, t);
    }
  }

  lemma SwapPlace(e1: Word, a: seq<Word>, e2: Word, b: seq<Word>)
    ensures ([e1] + a)[|a|] == e1 || ([e1] + a)[|a|] in [e2] + (a + b)
    ensures forall x :: x in [e2] + ([e1] + (a + b)) <==> x in [e1] + a + [e2] + b
    ensures forall x :: x in [e1] + ([e2] + (a + b)) <==> x in [e1] + a + [e2] + b
  {
    assert a != [] ==> ([e1] + a)[|a|] == a[|a| - 1];
  }

  lemma TwoRingsFirst(w: Image, e1: Word, a: seq<Word>, e2: Word, b: seq<Word>)
    requires TwoRings(w, e1, a, e2, b)
    ensures Ring(w, [e2] + b) && Separate([e2] + ([e1] + a))
  {
    hide Ring, Separate;
    SeparateAcross(e1, a, e2, b);
  }

  lemma ElsewhereMore(w: Image, w': Image, s: seq<Word>, t: seq<Word>)
    requires SameElsewhere(w, w', s) && forall x :: x in s ==> x in t
    ensures SameElsewhere(w, w', t)
  {
  }

  /** Moving a segment to the tail writes to the list's words only. */
  lemma BulkMoveElsewhere(w: Image, a: seq<Word>, m: seq<Word>, b: seq<Word>)
    requires Ring(w, a + m + b) && a != [] && m != []
    ensures SameElsewhere(w, BulkMoveTail(w, a[0], m[0], m[|m| - 1]), a + m + b)
  {
    hide Ring, SameElsewhere, Join;
    var r, first, last, head := a + m + b, m[0], m[|m| - 1], a[0];
    assert first in r && last in r && head in r;
    Members(w, r);
    assert r == a + (m + b) && m + b + a == m + (b + a);
    TurnTo(w, a, m + b);
    BulkMoveDetach(w, m, b + a);
    var w1 := Join(w, Prev(w, first), Next(w, last));
    Members(w1, b + a);
    assert head in b + a && Prev(w1, head) in r;
    SameHere(w, r);
    JoinElsewhere(w, w, Prev(w, first), Next(w, last), r);
    JoinElsewhere(w, w1, Prev(w1, head), first, r);
    JoinElsewhere(w, Join(w1, Prev(w1, head), first), last, head, r);
  }

  /** Splicing writes to the words of the two lists only. */
  lemma SpliceElsewhere(w: Image, list: Word, a: seq<Word>, head: Word, b: seq<Word>)
    requires Ring(w, [list] + a) && Ring(w, [head] + b)
    ensures SameElsewhere(w, Splice(w, list, head), ([list] + a) + ([head] + b))
  {
    hide Ring, SameElsewhere, Join;
    var t := ([list] + a) + ([head] + b);
    Members(w, [list] + a);
    Members(w, [head] + b);
    assert list in [list] + a && head in [head] + b;
    SameHere(w, t);
    JoinElsewhere(w, w, head, Next(w, list), t);
    JoinElsewhere(w, Join(w, head, Next(w, list)), Prev(w, list), Next(w, head), t);
  }

  /** Moving an entry writes to the words of its list and of the list it goes to only. */
  lemma MoveElsewhere(w: Image, e: Word, s: seq<Word>, head: Word, t: seq<Word>)
    requires Ring(w, [e] + s) && MoveTarget(w, e, s, head, t)
    ensures SameElsewhere(w, MoveTail(w, e, head), ([e] + s) + ([head] + t))
  {
    hide Ring, MoveTarget, SameElsewhere, Separate;
    MoveTailRings(w, e, s, head, t);
    Members(w, [e] + s);
    Members(Unlink(w, e), [head] + t);
    assert e in [e] + s && head in [head] + t;
    MoveTailElsewhere(w, e, head, ([e] + s) + ([head] + t));
  }

  /** Cutting a list writes to its words and to the spare head's only. */
  lemma CutListElsewhere(w: Image, list: Word, head: Word, a: seq<Word>, b: seq<Word>)
    requires Ring(w, [head] + a + b)
    ensures SameElsewhere(w, CutPosition(w, list, head, ([head] + a)[|a|]), [list] + ([head] + a + b))
  {
    hide Ring, SameElsewhere;
    var s, entry := [head] + a + b, ([head] + a)[|a|];
    Members(w, s);
    assert entry in [head] + a && head in s && entry in s;
    CutElsewhere(w, list, head, entry, [list] + s);
  }

  // ---------------------------------------------------------------------------------------------
  // In plain numbers
  // ---------------------------------------------------------------------------------------------

  /** The cells of a ring: every node's first word is the address of the node after it, that node's
      second word is the address of the node before; the nodes are aligned and do not overlap. */
  lemma RingCells(w: Image, s: seq<Word>)
    ensures Ring(w, s) <==>
      && |s| > 0
      && (forall i :: 0 <= i < |s| ==> 0 < s[i] <= 0xFFFF_FFF8 && s[i] % 4 == 0)
      && (forall i, j :: 0 <= i < j < |s| ==> var p: int, q: int := s[i], s[j]; p + 8 <= q || q + 8 <= p)
      && (forall i, j :: 0 <= i < |s| && j == (if i == |s| - 1 then 0 else i + 1) ==>
            w[s[i]] == s[j] && w[s[j] + 4] == s[i])
  {
    if |s| > 0 && Separate(s) {
      var n := |s| - 1;
      if Ring(w, s) {
        forall i, j | 0 <= i < |s| && j == (if i == n then 0 else i + 1)
          ensures Next(w, s[i]) == s[j] && Prev(w, s[j]) == s[i]
        {
        }
      } else {
        assert Next(w, s[n]) == s[0] && Prev(w, s[0]) == s[n] ==> !Chain(w, s);
      }
    }
  }

  /** On an empty list `list_cut_position` does nothing, and on a list of one entry nothing either if it
      is asked to cut at another. */
  lemma CutNothing(w: Image, list: Word, head: Word, e: Word, entry: Word)
    ensures Ring(w, [head]) ==> CutPosition(w, list, head, entry) == w
    ensures Ring(w, [head, e]) && entry != head && entry != e ==> CutPosition(w, list, head, entry) == w
  {
    assert [head][0] == head && [head, e][0] == head && [head, e][1] == e;
  }
}

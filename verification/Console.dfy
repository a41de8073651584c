/** kernel/io/write.c: the scrolling text console, and the history of output it stands for. */
module Console {
  import opened Memop
  import Bits

  const ROWS := 25
  const COLS := 80
  const NEWLINE: Byte := 10
  const BLANK: Byte := 32

  // ---------------------------------------------------------------------------------------------
  // The history, wrapped
  // ---------------------------------------------------------------------------------------------

  /** A text without newlines, broken after every 80th character; a full line starts a new one. */
  function Wrap(p: seq<Byte>): (ls: seq<seq<Byte>>)
    ensures ls != [] && |ls[|ls| - 1]| < COLS
    ensures forall l :: l in ls ==> |l| <= COLS
  {
    if |p| < COLS then [p] else [p[..COLS]] + Wrap(p[COLS..])
  }

  /** The position of the first newline, or the length of the text. */
  function LineEnd(h: seq<Byte>): (k: nat)
    ensures k <= |h| && NEWLINE !in h[..k] && (k < |h| ==> h[k] == NEWLINE)
  {
    if h == [] || h[0] == NEWLINE then 0 else 1 + LineEnd(h[1..])
  }

  /** All lines of everything ever written. */
  function Lines(h: seq<Byte>): (ls: seq<seq<Byte>>)
    ensures ls != [] && |ls[|ls| - 1]| < COLS
    ensures forall l :: l in ls ==> |l| <= COLS
  {
    var k := LineEnd(h);
    if k == |h| then Wrap(h) else Wrap(h[..k]) + Lines(h[k + 1..])
  }

  /** ls with c written at its end. */
  function Append(ls: seq<seq<Byte>>, c: Byte): (r: seq<seq<Byte>>)
    requires ls != []
  {
    var line := ls[|ls| - 1] + [c];
    if c == NEWLINE then ls + [[]]
    else if |line| == COLS then ls[..|ls| - 1] + [line] + [[]]
    else ls[..|ls| - 1] + [line]
  }

  lemma {:induction false} WrapAppend(p: seq<Byte>, c: Byte)
    requires c != NEWLINE
    ensures Wrap(p + [c]) == Append(Wrap(p), c)
    decreases |p|
  {
    if |p| >= COLS {
      assert (p + [c])[..COLS] == p[..COLS] && (p + [c])[COLS..] == p[COLS..] + [c];
      WrapAppend(p[COLS..], c);
      AppendAfter([p[..COLS]], Wrap(p[COLS..]), c);
    } else if |p| == COLS - 1 {
      assert (p + [c])[..COLS] == p + [c] && (p + [c])[COLS..] == [];
      assert Wrap(p + [c]) == [p + [c]] + [[]];
    }
  }

  lemma AppendAfter(a: seq<seq<Byte>>, ls: seq<seq<Byte>>, c: Byte)
    requires ls != []
    ensures Append(a + ls, c) == a + Append(ls, c)
  {
    assert (a + ls)[..|a + ls| - 1] == a + ls[..|ls| - 1];
  }

  /** Writing one more character extends the last line, and starts a new one when that is full. */
  lemma {:induction false} LinesAppend(h: seq<Byte>, c: Byte)
    ensures Lines(h + [c]) == Append(Lines(h), c)
    decreases |h|
  {
    hide Lines, Wrap, Append;
    var k := LineEnd(h);
    LineEndAppend(h, c);
    LinesUnfold(h);
    LinesUnfold(h + [c]);
    if k < |h| {
      assert (h + [c])[..k] == h[..k] && (h + [c])[k + 1..] == h[k + 1..] + [c];
      LinesAppend(h[k + 1..], c);
      AppendAfter(Wrap(h[..k]), Lines(h[k + 1..]), c);
    } else if c == NEWLINE {
      assert (h + [c])[..k] == h && (h + [c])[k + 1..] == [];
      AppendNewline(Wrap(h));
    } else {
      WrapAppend(h, c);
    }
  }

  lemma LinesUnfold(h: seq<Byte>)
    ensures var k := LineEnd(h);
      Lines(h) == if k == |h| then Wrap(h) else Wrap(h[..k]) + Lines(h[k + 1..])
  {
    hide Wrap, LineEnd;
  }

  lemma AppendNewline(ls: seq<seq<Byte>>)
    requires ls != []
    ensures Append(ls, NEWLINE) == ls + Lines([])
  {
    assert Lines([]) == [[]];
  }

  lemma {:induction false} LineEndAppend(h: seq<Byte>, c: Byte)
    ensures LineEnd(h + [c]) == if LineEnd(h) < |h| || c == NEWLINE then LineEnd(h) else |h| + 1
    decreases |h|
  {
    if h == [] {
      assert h + [c] == [c];
    } else if h[0] != NEWLINE {
      assert (h + [c])[1..] == h[1..] + [c];
      LineEndAppend(h[1..], c);
    }
  }

  // ---------------------------------------------------------------------------------------------
  // What is on the screen
  // ---------------------------------------------------------------------------------------------

  /** The line shown at the top: the last 25 lines are visible. */
  function Top(ls: seq<seq<Byte>>): nat { if |ls| <= ROWS then 0 else |ls| - ROWS }

  function CharAt(ls: seq<seq<Byte>>, r: nat, k: nat): Byte {
    if Top(ls) + r < |ls| && k < |ls[Top(ls) + r]| then ls[Top(ls) + r][k] else BLANK
  }

  /** The attribute byte TO_VGA puts beside a character: light grey on black, except that a negative
      `char` is sign-extended over it. */
  function Attribute(c: Byte): Byte { if c < 128 then 7 else 255 }

  /** `(u16)(c)` for a signed `char` */
  function Widen(c: Byte): nat { if c < 128 then c else 0xFF00 + c }

  /** The 16-bit cell TO_VGA makes of a character. */
  function ToVga(c: Byte): (cell: nat)
    ensures cell % 256 == c && cell / 256 == Attribute(c)
  {
    ToVgaBytes(c);
    Bits.DivUnique(Bits.Or(Widen(c), 0x700), 0x100, Attribute(c), c);
    Bits.Or(Widen(c), 0x700)
  }

  lemma ToVgaBytes(c: Byte)
    ensures Bits.Or(Widen(c), 0x700) == 0x100 * Attribute(c) + c && 0 <= Attribute(c)
  {
    hide Bits.Or;
    assert Bits.Pow2(8) == 0x100 && Bits.Pow2(11) == 0x800;
    Bits.OrDisjoint(7, 8, c);
    if c < 128 {
      Bits.OrSwap(c, 0x700);
    } else {
      Bits.OrAgain(0x700, c);
      Bits.OrLow(0x1F, 0x700 + c, 0x700, 11, 0xF800);
    }
  }

  /** Only the empty history leaves the cursor in the top left corner. */
  lemma CornerIsEmpty(h: seq<Byte>)
    ensures var ls := Lines(h); |ls| - 1 - Top(ls) == 0 && |ls[|ls| - 1]| == 0 <==> h == []
    ensures h == [] ==> Lines(h) == [[]]
  {
    if LineEnd(h) < |h| {
      assert |Lines(h)| >= 2;
    } else {
      assert Lines(h) == Wrap(h);
    }
  }

  /** Cell i of video memory holds character c. */
  predicate CellIs(v: seq<Byte>, i: int, c: Byte) {
    0 <= 2 * i && 2 * i + 1 < |v| && v[2 * i] == c && v[2 * i + 1] == Attribute(c)
  }

  lemma SetCellIs(v: seq<Byte>, i: nat, c: Byte)
    requires 2 * i + 1 < |v|
    ensures var v' := v[2 * i := c][2 * i + 1 := Attribute(c)];
      CellIs(v', i, c) && forall j, b :: j != i && CellIs(v, j, b) ==> CellIs(v', j, b)
  {
  }

  /** The video memory v shows the last 25 of the lines ls, the cursor being in the given row. */
  ghost predicate Shows(v: seq<Byte>, row: int, ls: seq<seq<Byte>>) {
    && |v| == 2 * ROWS * COLS && ls != [] && row == |ls| - 1 - Top(ls)
    && forall r, k :: 0 <= r < ROWS && 0 <= k < COLS ==> CellIs(v, COLS * r + k, CharAt(ls, r, k))
  }

  lemma PutShows(v: seq<Byte>, row: int, ls: seq<seq<Byte>>, c: Byte)
    requires Shows(v, row, ls) && |ls[|ls| - 1]| < COLS
    ensures 0 <= row < ROWS
    ensures var i := 2 * (COLS * row + |ls[|ls| - 1]|);
      Shows(v[i := c][i + 1 := Attribute(c)], row, ls[..|ls| - 1] + [ls[|ls| - 1] + [c]])
  {
    var n, col := |ls| - 1, |ls[|ls| - 1]|;
    var ls' := ls[..n] + [ls[n] + [c]];
    var i := 2 * (COLS * row + col);
    var v' := v[i := c][i + 1 := Attribute(c)];
    forall r, k | 0 <= r < ROWS && 0 <= k < COLS ensures CellIs(v', COLS * r + k, CharAt(ls', r, k)) {
      assert r != row || k != col ==> CharAt(ls', r, k) == CharAt(ls, r, k);
      assert CellIs(v, COLS * r + k, CharAt(ls, r, k));
    }
  }

  lemma NewLineCells(ls: seq<seq<Byte>>, r: nat, k: nat)
    requires ls != [] && r < ROWS && k < COLS
    ensures |ls| < ROWS ==> CharAt(ls + [[]], r, k) == CharAt(ls, r, k)
    ensures |ls| >= ROWS && r < ROWS - 1 ==> CharAt(ls + [[]], r, k) == CharAt(ls, r + 1, k)
    ensures |ls| >= ROWS && r == ROWS - 1 ==> CharAt(ls + [[]], r, k) == BLANK
  {
  }

  lemma ShowsRow(v: seq<Byte>, row: int, ls: seq<seq<Byte>>)
    requires Shows(v, row, ls)
    ensures |v| == 2 * ROWS * COLS && 0 <= row < ROWS
  {
  }

  /** One row further down, nothing scrolls. */
  lemma NewRowShows(v: seq<Byte>, row: int, ls: seq<seq<Byte>>)
    requires Shows(v, row, ls) && row < ROWS - 1
    ensures Shows(v, row + 1, ls + [[]])
  {
    forall r, k | 0 <= r < ROWS && 0 <= k < COLS ensures CellIs(v, COLS * r + k, CharAt(ls + [[]], r, k)) {
      NewLineCells(ls, r, k);
      assert CellIs(v, COLS * r + k, CharAt(ls, r, k));
    }
  }

  /** From the last row on, every row moves up and the last is blank. */
  lemma ScrollShows(v: seq<Byte>, v': seq<Byte>, ls: seq<seq<Byte>>)
    requires Shows(v, ROWS - 1, ls) && |v'| == |v| && v'[..2 * COLS * (ROWS - 1)] == v[2 * COLS..]
    requires forall j :: COLS * (ROWS - 1) <= j < COLS * ROWS ==> CellIs(v', j, BLANK)
    ensures Shows(v', ROWS - 1, ls + [[]])
  {
    hide CharAt;
    forall r, k | 0 <= r < ROWS && 0 <= k < COLS ensures CellIs(v', COLS * r + k, CharAt(ls + [[]], r, k)) {
      NewLineCells(ls, r, k);
      if r < ROWS - 1 {
        CellMoves(v, v', COLS * r + k, CharAt(ls, r + 1, k));
      }
    }
  }

  lemma CellMoves(v: seq<Byte>, v': seq<Byte>, i: nat, c: Byte)
    requires |v'| == |v| == 2 * ROWS * COLS && v'[..2 * COLS * (ROWS - 1)] == v[2 * COLS..]
    requires i < COLS * (ROWS - 1) && CellIs(v, i + COLS, c)
    ensures CellIs(v', i, c)
  {
    assert v'[2 * i] == v'[..2 * COLS * (ROWS - 1)][2 * i] && v'[2 * i + 1] == v'[..2 * COLS * (ROWS - 1)][2 * i + 1];
  }

  // ---------------------------------------------------------------------------------------------
  // In plain numbers
  // ---------------------------------------------------------------------------------------------

  /** Byte 10 ends a line and starts another. */
  lemma {:induction false} LinesBreak(a: seq<Byte>, b: seq<Byte>)
    ensures Lines(a + [10] + b) == Lines(a) + Lines(b)
    decreases |a|
  {
    hide Lines, Wrap, LineEnd;
    var h, k := a + [10] + b, LineEnd(a);
    LineEndBreak(a, b);
    LinesUnfold(h);
    LinesUnfold(a);
    if k < |a| {
      assert h[..k] == a[..k] && h[k + 1..] == a[k + 1..] + [10] + b;
      LinesBreak(a[k + 1..], b);
      Associate(Wrap(a[..k]), Lines(a[k + 1..]), Lines(b));
    } else {
      assert h[..k] == a && h[k + 1..] == b;
    }
  }

  lemma Associate(a: seq<seq<Byte>>, b: seq<seq<Byte>>, c: seq<seq<Byte>>)
    ensures a + (b + c) == a + b + c
  {
  }

  lemma {:induction false} LineEndBreak(a: seq<Byte>, b: seq<Byte>)
    ensures LineEnd(a + [10] + b) == LineEnd(a)
    decreases |a|
  {
    var h := a + [10] + b;
    if a != [] && a[0] != NEWLINE {
      assert h[1..] == a[1..] + [10] + b;
      LineEndBreak(a[1..], b);
    }
  }

  /** Without byte 10, a text is broken after every 80 bytes. */
  lemma LinesPlain(h: seq<Byte>, i: nat)
    requires 10 !in h && i <= |h| / 80
    ensures |Lines(h)| == |h| / 80 + 1
    ensures Lines(h)[i] == h[80 * i..if 80 * i + 80 < |h| then 80 * i + 80 else |h|]
  {
    hide Wrap;
    NoBreak(h);
    WrapPlain(h, i);
  }

  lemma {:induction false} NoBreak(h: seq<Byte>)
    requires 10 !in h
    ensures LineEnd(h) == |h|
    decreases |h|
  {
    if h != [] { NoBreak(h[1..]); }
  }

  lemma {:induction false} WrapPlain(p: seq<Byte>, i: nat)
    requires i <= |p| / 80
    ensures |Wrap(p)| == |p| / 80 + 1
    ensures Wrap(p)[i] == p[80 * i..if 80 * i + 80 < |p| then 80 * i + 80 else |p|]
    decreases |p|
  {
    hide Wrap;
    WrapUnfold(p);
    if |p| >= 80 {
      WrapPlain(p[80..], if i == 0 then 0 else i - 1);
      if i > 0 { SliceFrom80(p, i); }
    }
  }

  lemma SliceFrom80(p: seq<Byte>, i: nat)
    requires |p| >= 80 && 0 < i <= |p| / 80
    ensures var rest, j := p[80..], i - 1;
      rest[80 * j..if 80 * j + 80 < |rest| then 80 * j + 80 else |rest|]
      == p[80 * i..if 80 * i + 80 < |p| then 80 * i + 80 else |p|]
  {
  }

  lemma WrapUnfold(p: seq<Byte>)
    ensures Wrap(p) == if |p| < 80 then [p] else [p[..80]] + Wrap(p[80..])
  {
  }

  /** A screen that has been written to: 25 rows of 80 cells of two bytes show the last 25 lines of
      the history, blanks (32) beyond a line's end, in attribute 7 (255 for bytes from 128 on); the
      cursor is behind the last character. */
  lemma ScreenPlain(s: Screen, r: nat, k: nat)
    requires s.Valid() && s.history != [] && r < 25 && k < 80
    ensures var ls := Lines(s.history);
      var top := if |ls| <= 25 then 0 else |ls| - 25;
      var c := if top + r < |ls| && k < |ls[top + r]| then ls[top + r][k] else 32;
      && s.buffer.Length == 4000 && s.buffer[160 * r + 2 * k] == c
      && s.buffer[160 * r + 2 * k + 1] == (if c < 128 then 7 else 255)
      && s.row == |ls| - 1 - top && s.col == |ls[|ls| - 1]|
  {
    var ls, v := Lines(s.history), s.buffer[..];
    assert CellIs(v, COLS * r + k, CharAt(ls, r, k));
    assert v[160 * r + 2 * k] == s.buffer[160 * r + 2 * k];
  }

  class Screen {
    /** The VGA text buffer: two bytes a cell, character and attribute. */
    const buffer: array<Byte>
    var row: int
    var col: int
    /** Everything written so far. */
    ghost var history: seq<Byte>

    /** Before the first character, memory may hold anything. */
    ghost predicate Valid()
      reads this, buffer
    {
      var ls := Lines(history);
      && buffer.Length == 2 * ROWS * COLS
      && row == |ls| - 1 - Top(ls) && col == |ls[|ls| - 1]|
      && (history != [] ==> Shows(buffer[..], row, ls))
    }

    constructor (video: array<Byte>)
      requires video.Length == 2 * ROWS * COLS
      ensures Valid() && history == [] && buffer == video
    {
      buffer := video;
      row, col, history := 0, 0, [];
    }

    /** `buffer[i] = TO_VGA(c)` */
    method SetCell(i: nat, c: Byte)
      requires 2 * i + 1 < buffer.Length
      modifies buffer
      ensures buffer[..] == old(buffer[..])[2 * i := c][2 * i + 1 := Attribute(c)]
    {
      buffer[2 * i], buffer[2 * i + 1] := ToVga(c) % 256, ToVga(c) / 256;
    }

    /** `init_buffer_` */
    method InitBuffer()
      requires buffer.Length == 2 * ROWS * COLS
      modifies this`row, this`col, buffer
      ensures row == 0 && col == 0 && Shows(buffer[..], 0, [[]])
    {
      for i := 0 to COLS * ROWS
        invariant forall j :: 0 <= j < i ==> CellIs(buffer[..], j, BLANK)
      {
        SetCellIs(buffer[..], i, BLANK);
        SetCell(i, BLANK);
      }
      col, row := 0, 0;
      forall r, k | 0 <= r < ROWS && 0 <= k < COLS ensures CellIs(buffer[..], COLS * r + k, CharAt([[]], r, k)) {
        assert CharAt([[]], r, k) == BLANK;
      }
    }

    /** `new_line_` */
    method NewLine(ghost ls: seq<seq<Byte>>)
      requires Shows(buffer[..], row, ls)
      modifies this`row, this`col, buffer
      ensures col == 0 && Shows(buffer[..], row, ls + [[]])
    {
      hide Shows;
      ShowsRow(buffer[..], row, ls);
      ghost var v := buffer[..];
      col := 0;
      row := row + 1;
      if row == ROWS {
        Memmove(buffer, 0, 2 * COLS, 2 * (COLS * (ROWS - 1)));
        row := row - 1;
        ghost var moved := buffer[..];
        assert moved[..2 * COLS * (ROWS - 1)] == v[2 * COLS..];
        for i := 0 to COLS
          invariant row == ROWS - 1 && col == 0
          invariant buffer[..2 * COLS * (ROWS - 1)] == v[2 * COLS..]
          invariant forall j :: COLS * (ROWS - 1) <= j < COLS * (ROWS - 1) + i ==> CellIs(buffer[..], j, BLANK)
        {
          SetCellIs(buffer[..], row * COLS + i, BLANK);
          SetCell(row * COLS + i, BLANK);
        }
        ScrollShows(v, buffer[..], ls);
      } else {
        NewRowShows(v, row - 1, ls);
      }
    }

    /** `advance_` */
    method Advance(ghost ls: seq<seq<Byte>>)
      requires Shows(buffer[..], row, ls) && col + 1 == |ls[|ls| - 1]| <= COLS
      modifies this`row, this`col, buffer
      ensures var ls' := if |ls[|ls| - 1]| == COLS then ls + [[]] else ls;
        Shows(buffer[..], row, ls') && col == |ls'[|ls'| - 1]|
    {
      col := col + 1;
      if col == COLS {
        NewLine(ls);
      }
    }

    /** `putchar`, without the writes to the cursor ports */
    method Putchar(c: Byte)
      requires Valid()
      modifies this, buffer
      ensures Valid() && history == old(history) + [c]
    {
      hide Lines, Wrap, CharAt, CellIs, Top;
      ghost var ls := Lines(history);
      CornerIsEmpty(history);
      LinesAppend(history, c);
      history := history + [c];
      if col == 0 && row == 0 {
        InitBuffer();
      }
      if c == NEWLINE {
        NewLine(ls);
      } else {
        PutShows(buffer[..], row, ls, c);
        SetCell(row * COLS + col, c);
        Advance(ls[..|ls| - 1] + [ls[|ls| - 1] + [c]]);
      }
    }

    /** `write`, without the copy to the serial port */
    method Write(str: seq<Byte>) returns (bytes: int)
      requires Valid()
      modifies this, buffer
      ensures Valid() && history == old(history) + str && bytes == |str|
    {
      hide Valid;
      bytes := 0;
      var size := |str|;
      while size != 0
        invariant 0 <= size && bytes == |str| - size && 0 <= bytes
        invariant Valid() && history == old(history) + str[..bytes]
        decreases size
      {
        size := size - 1;
        Putchar(str[bytes]);
        assert str[..bytes] + [str[bytes]] == str[..bytes + 1];
        bytes := bytes + 1;
      }
      assert str[..bytes] == str;
    }
  }

  /** On plain ASCII output every cell shows light grey on black. */
  lemma AsciiIsGrey(v: seq<Byte>, row: int, h: seq<Byte>, r: nat, k: nat)
    requires Shows(v, row, Lines(h)) && (forall c :: c in h ==> c < 128) && r < ROWS && k < COLS
    ensures v[2 * (COLS * r + k) + 1] == 7
  {
    var ls := Lines(h);
    assert CellIs(v, COLS * r + k, CharAt(ls, r, k));
    if Top(ls) + r < |ls| && k < |ls[Top(ls) + r]| {
      LinesFromHistory(h, ls[Top(ls) + r]);
      assert CharAt(ls, r, k) in ls[Top(ls) + r];
    }
  }

  lemma {:induction false} LinesFromHistory(h: seq<Byte>, l: seq<Byte>)
    requires l in Lines(h)
    ensures forall c :: c in l ==> c in h
    decreases |h|
  {
    var k := LineEnd(h);
    if k == |h| {
      WrapFromText(h, l);
    } else if l in Wrap(h[..k]) {
      WrapFromText(h[..k], l);
    } else {
      LinesFromHistory(h[k + 1..], l);
    }
  }

  lemma {:induction false} WrapFromText(p: seq<Byte>, l: seq<Byte>)
    requires l in Wrap(p)
    ensures forall c :: c in l ==> c in p
    decreases |p|
  {
    if |p| >= COLS && l != p[..COLS] {
      WrapFromText(p[COLS..], l);
    }
  }
}

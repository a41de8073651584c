/** `kvsnprintf` of kernel/io/kvsnprintf.c: an interpreter for format strings. Format strings and
    string arguments are given without their terminating NUL. */
module Format {
  import opened Words
  import opened Memop
  import opened Digits

  const PERCENT: Byte := '%' as int
  const CONV_D: Byte := 'd' as int
  const CONV_P: Byte := 'p' as int
  const CONV_X: Byte := 'x' as int
  const CONV_S: Byte := 's' as int
  const CONV_C: Byte := 'c' as int
  const CONV_U: Byte := 'u' as int

  /** A variable argument: a 32-bit word, or a string. */
  datatype Arg = Num(v: Word) | Text(s: seq<Byte>)

  /** The word as a signed number. */
  function Signed(v: Word): (r: int)
    ensures -0x8000_0000 <= r < 0x8000_0000
  {
    if v < 0x8000_0000 then v else v - SPACE
  }

  // ---------------------------------------------------------------------------------------------
  // Format strings
  // ---------------------------------------------------------------------------------------------

  function CountZeros(f: seq<Byte>): (k: nat)
    ensures k <= |f| && (k < |f| ==> f[k] != ZERO)
    ensures forall i :: 0 <= i < k ==> f[i] == ZERO
  {
    if f == [] || f[0] != ZERO then 0 else 1 + CountZeros(f[1..])
  }

  /** A directive `%`, its zero flags, and its conversion character; then the rest of the format. */
  datatype Directive = Directive(conv: Byte, zero: bool, rest: seq<Byte>)

  predicate StartsDirective(f: seq<Byte>) { f != [] && f[0] == PERCENT && 1 + CountZeros(f[1..]) < |f| }

  function ParseDirective(f: seq<Byte>): (d: Directive)
    requires StartsDirective(f)
    ensures |d.rest| < |f|
  {
    var k := CountZeros(f[1..]);
    Directive(f[1 + k], k > 0, f[2 + k..])
  }

  predicate Consumes(conv: Byte) { conv in [CONV_D, CONV_P, CONV_X, CONV_S, CONV_C, CONV_U] }

  /** The argument is of the kind the conversion reads. */
  predicate Fits(conv: Byte, args: seq<Arg>) {
    Consumes(conv) ==> args != [] && (if conv == CONV_S then args[0].Text? && 0 !in args[0].s else args[0].Num?)
  }

  function Rest(conv: Byte, args: seq<Arg>): seq<Arg>
    requires Fits(conv, args)
  {
    if Consumes(conv) then args[1..] else args
  }

  /** The format holds no NUL, no directive is cut off by its end, and the arguments match the
      directives. */
  predicate Matches(f: seq<Byte>, args: seq<Arg>)
    decreases |f|
  {
    && 0 !in f
    && (f == [] || if f[0] != PERCENT then Matches(f[1..], args)
                   else StartsDirective(f) && var d := ParseDirective(f);
                        Fits(d.conv, args) && Matches(d.rest, Rest(d.conv, args)))
  }

  // ---------------------------------------------------------------------------------------------
  // Rendering
  // ---------------------------------------------------------------------------------------------

  function Zeros(n: nat): (s: seq<Byte>)
    ensures |s| == n && 0 !in s
  {
    seq(n, _ => ZERO)
  }

  function Padded(text: seq<Byte>, zero: bool, width: nat): seq<Byte> {
    if zero && |text| < width then Zeros(width - |text|) + text else text
  }

  function Prefix(conv: Byte, args: seq<Arg>): seq<Byte>
    requires Fits(conv, args)
  {
    if conv == CONV_P then [ZERO, CONV_X] else if conv == CONV_C then [args[0].v % 256] else []
  }

  function Width(conv: Byte): nat { if conv == CONV_D then 10 else if conv in [CONV_P, CONV_X] then 8 else 0 }

  /** The text a conversion stands for. */
  function Meaning(conv: Byte, args: seq<Arg>): seq<Byte>
    requires Fits(conv, args)
  {
    if conv == PERCENT then [PERCENT]
    else if conv == CONV_D then SignedNumeral(Signed(args[0].v), 10)
    else if conv in [CONV_P, CONV_X] then Numeral(args[0].v, 16)
    else if conv == CONV_S then args[0].s
    else if conv == CONV_U then Numeral(args[0].v, 10)
    else []
  }

  function Field(d: Directive, args: seq<Arg>, text: seq<Byte>): seq<Byte>
    requires Fits(d.conv, args)
  {
    Prefix(d.conv, args) + Padded(text, d.zero || d.conv == CONV_P, Width(d.conv))
  }

  /** What the format and its arguments mean. */
  function Render(f: seq<Byte>, args: seq<Arg>): seq<Byte>
    requires Matches(f, args)
    decreases |f|
  {
    if f == [] then []
    else if f[0] != PERCENT then [f[0]] + Render(f[1..], args)
    else
      var d := ParseDirective(f);
      Field(d, args, Meaning(d.conv, args)) + Render(d.rest, Rest(d.conv, args))
  }

  /** No `%d` argument is negative. */
  predicate NonNegative(f: seq<Byte>, args: seq<Arg>)
    requires Matches(f, args)
    decreases |f|
  {
    f == [] || if f[0] != PERCENT then NonNegative(f[1..], args)
               else var d := ParseDirective(f);
                    (d.conv == CONV_D ==> Signed(args[0].v) >= 0) && NonNegative(d.rest, Rest(d.conv, args))
  }

  /** There is no `%s`. */
  predicate NoStrings(f: seq<Byte>, args: seq<Arg>)
    requires Matches(f, args)
    decreases |f|
  {
    f == [] || if f[0] != PERCENT then NoStrings(f[1..], args)
               else var d := ParseDirective(f); d.conv != CONV_S && NoStrings(d.rest, Rest(d.conv, args))
  }

  // ---------------------------------------------------------------------------------------------
  // What the interpreter writes
  // ---------------------------------------------------------------------------------------------

  /** The text a conversion actually finds, given the state b of the number printer's buffer. */
  function Found(conv: Byte, args: seq<Arg>, b: seq<Byte>): seq<Byte>
    requires Fits(conv, args) && Buffered(b)
  {
    if conv == CONV_D then AlwaysHoldsSigned(Signed(args[0].v), 10); ItoaText(b, Signed(args[0].v), 10)
    else Meaning(conv, args)
  }

  /** The buffer's state after a conversion. */
  function After(conv: Byte, args: seq<Arg>, b: seq<Byte>): (r: seq<Byte>)
    requires Fits(conv, args) && Buffered(b)
    ensures Buffered(r)
  {
    if conv == CONV_D then AlwaysHoldsSigned(Signed(args[0].v), 10); AfterItoa(b, Signed(args[0].v), 10)
    else if conv in [CONV_P, CONV_X] then FourteenDigits(args[0].v, 16); AfterUtoa(b, args[0].v, 16)
    else if conv == CONV_U then FourteenDigits(args[0].v, 10); AfterUtoa(b, args[0].v, 10)
    else b
  }

  /** All that is written, with room bytes left: the room is only checked between directives. */
  function Written(f: seq<Byte>, args: seq<Arg>, b: seq<Byte>, room: int): (out: seq<Byte>)
    requires Matches(f, args) && Buffered(b)
    decreases |f|
  {
    if f == [] || room <= 0 then []
    else if f[0] != PERCENT then [f[0]] + Written(f[1..], args, b, room - 1)
    else
      var d := ParseDirective(f);
      var out := Field(d, args, Found(d.conv, args, b));
      out + Written(d.rest, Rest(d.conv, args), After(d.conv, args, b), room - |out|)
  }

  /** The number printer's buffer in the end. */
  function BufferAfter(f: seq<Byte>, args: seq<Arg>, b: seq<Byte>, room: int): (r: seq<Byte>)
    requires Matches(f, args) && Buffered(b)
    ensures Buffered(r)
    decreases |f|
  {
    if f == [] || room <= 0 then b
    else if f[0] != PERCENT then BufferAfter(f[1..], args, b, room - 1)
    else
      var d := ParseDirective(f);
      var out := Field(d, args, Found(d.conv, args, b));
      BufferAfter(d.rest, Rest(d.conv, args), After(d.conv, args, b), room - |out|)
  }

  /** Padding does not hide a missing or misplaced minus sign. */
  lemma PaddedDiffers(t: seq<Byte>, m: seq<Byte>, zero: bool, width: nat)
    requires m != [] && m[0] == MINUS && t != m && (t == [] || |t| == |m|)
    ensures |Padded(t, zero, width)| <= |Padded(m, zero, width)|
    ensures Padded(t, zero, width) != Padded(m, zero, width)
  {
    var pt, pm := Padded(t, zero, width), Padded(m, zero, width);
    if t == [] {
      assert pm[|pm| - |m|] == MINUS;
      assert MINUS !in pt;
    } else {
      assert pt[|pt| - |t|..] == t && pm[|pm| - |m|..] == m;
    }
  }

  /** A directive is written as it should be exactly when it is not a negative `%d`, and what is
      written is never longer. */
  lemma FieldExact(d: Directive, args: seq<Arg>, b: seq<Byte>)
    requires Fits(d.conv, args) && Buffered(b)
    ensures var found, meant := Field(d, args, Found(d.conv, args, b)), Field(d, args, Meaning(d.conv, args));
      && |found| <= |meant|
      && (found == meant <==> (d.conv == CONV_D ==> Signed(args[0].v) >= 0))
  {
    hide Padded, ItoaText, SignedNumeral, Numeral, HoldsSigned;
    if d.conv == CONV_D {
      var v := Signed(args[0].v);
      AlwaysHoldsSigned(v, 10);
      var t, m := ItoaText(b, v, 10), SignedNumeral(v, 10);
      ItoaExact(b, v, 10);
      assert Field(d, args, t) == Padded(t, d.zero, 10) && Field(d, args, m) == Padded(m, d.zero, 10);
      if v < 0 {
        PaddedDiffers(t, m, d.zero, 10);
      }
    }
  }

  /** With room for all of it, the output is the rendering exactly when no `%d` argument is negative. */
  lemma {:induction false} WrittenExact(f: seq<Byte>, args: seq<Arg>, b: seq<Byte>, room: int)
    requires Matches(f, args) && Buffered(b) && |Render(f, args)| < room
    ensures |Written(f, args, b, room)| <= |Render(f, args)|
    ensures Written(f, args, b, room) == Render(f, args) <==> NonNegative(f, args)
    decreases |f|
  {
    hide Field, Found, Meaning, After, Fits, ParseDirective, Consumes;
    if f != [] && f[0] != PERCENT {
      WrittenExact(f[1..], args, b, room - 1);
      SplitEqual([f[0]], Written(f[1..], args, b, room - 1), [f[0]], Render(f[1..], args));
    } else if f != [] {
      var d := ParseDirective(f);
      var found, meant := Field(d, args, Found(d.conv, args, b)), Field(d, args, Meaning(d.conv, args));
      FieldExact(d, args, b);
      WrittenExact(d.rest, Rest(d.conv, args), After(d.conv, args, b), room - |found|);
      SplitEqual(found, Written(d.rest, Rest(d.conv, args), After(d.conv, args, b), room - |found|),
                 meant, Render(d.rest, Rest(d.conv, args)));
    }
  }

  lemma SplitEqual(a: seq<Byte>, b: seq<Byte>, c: seq<Byte>, d: seq<Byte>)
    requires |a| <= |c| && |b| <= |d|
    ensures a + b == c + d <==> a == c && b == d
  {
    if a + b == c + d {
      assert |a| == |c|;
      assert a == (a + b)[..|a|] && c == (c + d)[..|a|];
      assert b == (a + b)[|a|..] && d == (c + d)[|a|..];
    }
  }

  /** However little room there is, the output is the beginning of the rendering, all of it unless
      the room is used up. */
  lemma {:induction false} WrittenPrefix(f: seq<Byte>, args: seq<Arg>, b: seq<Byte>, room: int)
    requires Matches(f, args) && Buffered(b) && NonNegative(f, args)
    ensures Written(f, args, b, room) <= Render(f, args)
    ensures |Written(f, args, b, room)| < room ==> Written(f, args, b, room) == Render(f, args)
    decreases |f|
  {
    hide Field, Found, Meaning, After, Fits, ParseDirective, Consumes;
    if f != [] && room > 0 && f[0] != PERCENT {
      WrittenPrefix(f[1..], args, b, room - 1);
    } else if f != [] && room > 0 {
      var d := ParseDirective(f);
      FieldExact(d, args, b);
      WrittenPrefix(d.rest, Rest(d.conv, args), After(d.conv, args, b),
                    room - |Field(d, args, Found(d.conv, args, b))|);
    }
  }

  /** When the output and its NUL stay within a buffer of room bytes: if the rendering is shorter than
      that, and, unless a negative `%d` cuts the output short, only then. */
  lemma RoomExact(f: seq<Byte>, args: seq<Arg>, b: seq<Byte>, room: int)
    requires Matches(f, args) && Buffered(b)
    ensures |Render(f, args)| < room ==> |Written(f, args, b, room)| < room
    ensures NonNegative(f, args) ==> (|Written(f, args, b, room)| < room <==> |Render(f, args)| < room)
  {
    if |Render(f, args)| < room {
      WrittenExact(f, args, b, room);
    }
    if NonNegative(f, args) {
      WrittenPrefix(f, args, b, room);
    }
  }

  /** Without strings a directive writes at most 10 bytes. */
  lemma FieldSize(d: Directive, args: seq<Arg>, b: seq<Byte>)
    requires Fits(d.conv, args) && Buffered(b) && d.conv != CONV_S
    requires Fresh(b) || (d.conv == CONV_D ==> Signed(args[0].v) >= 0)
    ensures |Field(d, args, Found(d.conv, args, b))| <= 10
  {
    hide ItoaText, SignedNumeral, Numeral, Matches, HoldsSigned, Fresh, Padded, Pow;
    Digits.Powers();
    var text := Found(d.conv, args, b);
    if d.conv == CONV_D {
      ItoaSize(b, Signed(args[0].v));
    } else if d.conv in [CONV_P, CONV_X] {
      NumeralFits(args[0].v, 16, 8);
    } else if d.conv == CONV_U {
      NumeralFits(args[0].v, 10, 10);
    }
    PaddedSize(text, d.zero || d.conv == CONV_P, Width(d.conv));
  }

  lemma PaddedSize(text: seq<Byte>, zero: bool, width: nat)
    ensures |Padded(text, zero, width)| == if zero && |text| < width then width else |text|
  {
  }

  lemma AfterFresh(conv: Byte, args: seq<Arg>, b: seq<Byte>)
    requires Fits(conv, args) && Buffered(b) && Fresh(b)
    ensures Fresh(After(conv, args, b))
  {
    hide AfterItoa, AfterUtoa, Fresh, Holds, HoldsSigned;
    if conv == CONV_D {
      ItoaFresh(b, Signed(args[0].v), 10);
    } else if conv in [CONV_P, CONV_X] {
      UtoaFresh(b, args[0].v, 16);
    } else if conv == CONV_U {
      UtoaFresh(b, args[0].v, 10);
    }
  }

  /** How far the output can run past the room it was given: by less than 10 bytes. */
  lemma {:induction false} Overshoot(f: seq<Byte>, args: seq<Arg>, b: seq<Byte>, room: int)
    requires Matches(f, args) && Buffered(b) && NoStrings(f, args)
    requires Fresh(b) || NonNegative(f, args)
    ensures room > 0 ==> |Written(f, args, b, room)| < room + 10
    decreases |f|
  {
    hide Field, Found, Meaning, After, Fits, ParseDirective, Consumes, Fresh;
    if f != [] && room > 0 && f[0] != PERCENT {
      Overshoot(f[1..], args, b, room - 1);
    } else if f != [] && room > 0 {
      var d := ParseDirective(f);
      FieldSize(d, args, b);
      if Fresh(b) { AfterFresh(d.conv, args, b); }
      Overshoot(d.rest, Rest(d.conv, args), After(d.conv, args, b), room - |Field(d, args, Found(d.conv, args, b))|);
    }
  }

  // ---------------------------------------------------------------------------------------------
  // Every run of calls
  // ---------------------------------------------------------------------------------------------

  lemma {:induction false} CallFresh(f: seq<Byte>, args: seq<Arg>, b: seq<Byte>, room: int)
    requires Matches(f, args) && Buffered(b) && Fresh(b)
    ensures Fresh(BufferAfter(f, args, b, room))
    decreases |f|
  {
    hide Field, Found, After, Fits, ParseDirective, Consumes, Fresh;
    if f != [] && room > 0 && f[0] != PERCENT {
      CallFresh(f[1..], args, b, room - 1);
    } else if f != [] && room > 0 {
      var d := ParseDirective(f);
      AfterFresh(d.conv, args, b);
      CallFresh(d.rest, Rest(d.conv, args), After(d.conv, args, b),
                room - |Field(d, args, Found(d.conv, args, b))|);
    }
  }

  /** A call of `kvsnprintf`. */
  datatype Call = Call(fmt: seq<Byte>, args: seq<Arg>, room: int)

  predicate AllMatch(calls: seq<Call>) { forall c :: c in calls ==> Matches(c.fmt, c.args) }

  /** The number printer's buffer after a number of calls. */
  function BufferRun(b: seq<Byte>, calls: seq<Call>): (r: seq<Byte>)
    requires AllMatch(calls) && Buffered(b)
    ensures Buffered(r)
    decreases |calls|
  {
    if calls == [] then b
    else BufferRun(BufferAfter(calls[0].fmt, calls[0].args, b, calls[0].room), calls[1..])
  }

  lemma {:induction false} RunFresh(b: seq<Byte>, calls: seq<Call>)
    requires AllMatch(calls) && Buffered(b) && Fresh(b)
    ensures Fresh(BufferRun(b, calls))
    decreases |calls|
  {
    hide Fresh, Matches, BufferAfter;
    if calls != [] {
      CallFresh(calls[0].fmt, calls[0].args, b, calls[0].room);
      RunFresh(BufferAfter(calls[0].fmt, calls[0].args, b, calls[0].room), calls[1..]);
    }
  }

  /** The buffer before the first call. */
  function InitialBuffer(): (b: seq<Byte>)
    ensures Buffered(b) && Fresh(b)
  {
    seq(16, _ => 0)
  }

  /** Whatever has been printed before, a call without `%s` overshoots its room by less than 10. */
  lemma OvershootRun(calls: seq<Call>, f: seq<Byte>, args: seq<Arg>, room: int)
    requires AllMatch(calls) && Matches(f, args) && NoStrings(f, args) && room > 0
    ensures |Written(f, args, BufferRun(InitialBuffer(), calls), room)| < room + 10
  {
    RunFresh(InitialBuffer(), calls);
    Overshoot(f, args, BufferRun(InitialBuffer(), calls), room);
  }

  /** Whatever has been printed before, `%d` of a negative number of ten digits prints nothing. */
  lemma LostRun(calls: seq<Call>, v: Word, room: int)
    requires AllMatch(calls) && Signed(v) <= -1_000_000_000 && room > 0
    ensures Matches([PERCENT, CONV_D], [Num(v)])
    ensures Written([PERCENT, CONV_D], [Num(v)], BufferRun(InitialBuffer(), calls), room) == []
  {
    hide Numeral, AfterItoa, HoldsSigned, ItoaText, Fresh, Matches;
    var b := BufferRun(InitialBuffer(), calls);
    RunFresh(InitialBuffer(), calls);
    OneDirective(CONV_D, [Num(v)], b, room);
    ItoaLost(b, Signed(v));
  }

  /** Plain text exactly as long as the buffer already puts its NUL past the end. */
  lemma {:induction false} PlainOverrun(f: seq<Byte>, b: seq<Byte>)
    requires PERCENT !in f && 0 !in f && Buffered(b)
    ensures Matches(f, []) && Written(f, [], b, |f|) == f
    decreases |f|
  {
    if f != [] {
      PlainOverrun(f[1..], b);
      assert f == [f[0]] + f[1..];
    }
  }

  /** The bound of Overshoot is reached: with room for one byte, `%p` writes 10 bytes, whatever its
      argument. */
  lemma OvershootReached(v: Word, b: seq<Byte>)
    requires Buffered(b)
    ensures var f := [PERCENT, CONV_P]; Matches(f, [Num(v)]) && |Written(f, [Num(v)], b, 1)| == 10
  {
    hide Padded, Numeral, AfterUtoa;
    OneDirective(CONV_P, [Num(v)], b, 1);
    HexField(Directive(CONV_P, false, []), [Num(v)]);
  }

  /** A format that is one directive. */
  lemma OneDirective(conv: Byte, args: seq<Arg>, b: seq<Byte>, room: int)
    requires conv != 0 && conv != ZERO && Fits(conv, args) && Buffered(b) && room > 0
    ensures var f, d := [PERCENT, conv], Directive(conv, false, []);
      && Matches(f, args)
      && Written(f, args, b, room) == Field(d, args, Found(conv, args, b))
  {
    hide Field, Found, Fits, After;
    var f := [PERCENT, conv];
    assert f[1..] == [conv] && f[2..] == [];
    assert CountZeros([conv]) == 0;
    assert ParseDirective(f) == Directive(conv, false, []);
  }

  /** `%0x` and `%p` write exactly eight hexadecimal digits, which stand for the argument. */
  lemma HexField(d: Directive, args: seq<Arg>)
    requires Fits(d.conv, args) && (d.conv == CONV_P || (d.conv == CONV_X && d.zero))
    ensures var out := Field(d, args, Meaning(d.conv, args));
      && |out| == (if d.conv == CONV_P then 10 else 8) && (d.conv == CONV_P ==> out[..2] == [ZERO, CONV_X])
      && var digits := out[|out| - 8..];
      && ParseDigits(digits, 16) == args[0].v
      && forall c :: c in digits ==> IsDigit(c, 16) && (48 <= c <= 57 || 65 <= c <= 70)
  {
    hide Padded, Numeral;
    var digits := Padded(Numeral(args[0].v, 16), true, 8);
    HexDigits(args[0].v);
    assert ([ZERO, CONV_X] + digits)[2..] == digits && [] + digits == digits;
  }

  lemma HexDigits(v: Word)
    ensures var digits := Padded(Numeral(v, 16), true, 8);
      && |digits| == 8 && ParseDigits(digits, 16) == v
      && forall c :: c in digits ==> IsDigit(c, 16) && (48 <= c <= 57 || 65 <= c <= 70)
  {
    hide ParseDigits, IsDigit;
    NumeralDigits(v, 16);
    var text := Numeral(v, 16);
    Digits.Powers();
    NumeralFits(v, 16, 8);
    ParseNumeral(v, 16);
    if |text| < 8 {
      LeadingZeros(8 - |text|, text, 16);
    }
  }

  lemma {:induction false} LeadingZeros(n: nat, s: seq<Byte>, base: nat)
    requires s != []
    ensures ParseDigits(Zeros(n) + s, base) == ParseDigits(s, base)
    decreases |s|
  {
    var t := Zeros(n) + s;
    assert t[..|t| - 1] == Zeros(n) + s[..|s| - 1];
    if |s| == 1 {
      assert t[..|t| - 1] == Zeros(n) && s[..0] == [];
      ParseZeros(n, base);
    } else {
      LeadingZeros(n, s[..|s| - 1], base);
    }
  }

  lemma {:induction false} ParseZeros(n: nat, base: nat)
    ensures ParseDigits(Zeros(n), base) == 0
    decreases n
  {
    if n > 0 {
      assert Zeros(n)[..n - 1] == Zeros(n - 1);
      ParseZeros(n - 1, base);
      assert 0 * base == 0;
    }
  }
}

/** What format strings of kernel/io/kvsnprintf.c mean, in plain bytes. */
module FormatLaws {
  import opened Words
  import opened Memop
  import opened Digits
  import opened Format

  // ---------------------------------------------------------------------------------------------
  // One format after the other
  // ---------------------------------------------------------------------------------------------

  /** The format takes all of the arguments. */
  predicate UsesUp(f: seq<Byte>, args: seq<Arg>)
    requires Matches(f, args)
    decreases |f|
  {
    if f == [] then args == []
    else if f[0] != PERCENT then UsesUp(f[1..], args)
    else var d := ParseDirective(f); UsesUp(d.rest, Rest(d.conv, args))
  }

  lemma {:induction false} ZerosJoin(f: seq<Byte>, g: seq<Byte>)
    requires CountZeros(f) < |f|
    ensures CountZeros(f + g) == CountZeros(f)
    decreases |f|
  {
    if f[0] == ZERO {
      assert (f + g)[1..] == f[1..] + g;
      ZerosJoin(f[1..], g);
    }
  }

  lemma DirectiveJoin(f: seq<Byte>, g: seq<Byte>)
    requires StartsDirective(f)
    ensures StartsDirective(f + g)
    ensures var d := ParseDirective(f); ParseDirective(f + g) == Directive(d.conv, d.zero, d.rest + g)
  {
    var k := CountZeros(f[1..]);
    assert (f + g)[1..] == f[1..] + g;
    ZerosJoin(f[1..], g);
    assert (f + g)[2 + k..] == f[2 + k..] + g;
  }

  /** Formats rendered one after the other render as one, each with its own arguments in turn. */
  lemma {:induction false} RenderJoin(f: seq<Byte>, a: seq<Arg>, g: seq<Byte>, b: seq<Arg>)
    requires Matches(f, a) && UsesUp(f, a) && Matches(g, b)
    ensures Matches(f + g, a + b) && Render(f + g, a + b) == Render(f, a) + Render(g, b)
    decreases |f|
  {
    hide Field, Meaning, Fits, Rest, ParseDirective, StartsDirective;
    if f == [] {
      assert f + g == g && a + b == b;
    } else if f[0] != PERCENT {
      assert (f + g)[1..] == f[1..] + g;
      RenderJoin(f[1..], a, g, b);
    } else {
      var d := ParseDirective(f);
      DirectiveJoin(f, g);
      ArgumentJoin(d, a, b);
      RenderJoin(d.rest, Rest(d.conv, a), g, b);
    }
  }

  lemma ArgumentJoin(d: Directive, a: seq<Arg>, b: seq<Arg>)
    requires Fits(d.conv, a)
    ensures Fits(d.conv, a + b) && Rest(d.conv, a + b) == Rest(d.conv, a) + b
    ensures Meaning(d.conv, a + b) == Meaning(d.conv, a)
    ensures forall d', t :: Field(Directive(d.conv, d.zero, d'), a + b, t) == Field(d, a, t)
  {
    hide Padded, SignedNumeral, Numeral;
  }

  /** A format without the letter `s` (115) has no `%s`, and one whose arguments are words below 2^31
      prints no negative number. */
  lemma {:induction false} PlainConditions(f: seq<Byte>, args: seq<Arg>)
    requires Matches(f, args)
    ensures 115 !in f ==> NoStrings(f, args)
    ensures (forall a :: a in args && a.Num? ==> a.v < 0x8000_0000) ==> NonNegative(f, args)
    decreases |f|
  {
    if f != [] && f[0] != PERCENT {
      PlainConditions(f[1..], args);
    } else if f != [] {
      var d := ParseDirective(f);
      assert d.conv in f && forall c :: c in d.rest ==> c in f;
      PlainConditions(d.rest, Rest(d.conv, args));
    }
  }

  // ---------------------------------------------------------------------------------------------
  // Single formats
  // ---------------------------------------------------------------------------------------------

  /** Text without byte 37 and NUL stands for itself. */
  lemma {:induction false} TextRenders(f: seq<Byte>)
    requires 37 !in f && 0 !in f
    ensures Matches(f, []) && UsesUp(f, []) && Render(f, []) == f
    decreases |f|
  {
    if f != [] {
      TextRenders(f[1..]);
      assert f == [f[0]] + f[1..];
    }
  }

  /** `%`, a number of zero flags, and a letter. */
  function Format1(zeros: nat, c: Byte): seq<Byte> { [37] + seq(zeros, _ => 48) + [c] }

  lemma {:induction false} ZerosCounted(n: nat, c: Byte)
    requires c != 48
    ensures CountZeros(seq(n, _ => 48) + [c]) == n
    decreases n
  {
    var s: seq<Byte> := seq(n, _ => 48) + [c];
    if n > 0 {
      assert s[1..] == seq(n - 1, _ => 48) + [c];
      ZerosCounted(n - 1, c);
    }
  }

  lemma Format1Renders(zeros: nat, c: Byte, args: seq<Arg>)
    requires c != 0 && c != 48 && Fits(c, args)
    ensures var f := Format1(zeros, c);
      && Matches(f, args) && (UsesUp(f, args) <==> Rest(c, args) == [])
      && Render(f, args) == Field(Directive(c, zeros > 0, []), args, Meaning(c, args))
  {
    hide Field, Meaning, Fits, Rest;
    var f := Format1(zeros, c);
    assert f[1..] == seq(zeros, _ => 48) + [c] && f[2 + zeros..] == [];
    ZerosCounted(zeros, c);
    assert ParseDirective(f) == Directive(c, zeros > 0, []);
    assert Render([], Rest(c, args)) == [];
  }

  /** s is a string of decimal digits that stands for v, without leading zeroes. */
  ghost predicate Decimal(s: seq<Byte>, v: int) {
    && s != [] && (forall c :: c in s ==> 48 <= c <= 57) && ParseDigits(s, 10) == v
    && (s[0] == 48 ==> s == [48])
  }

  /** s is a string of hexadecimal digits that stands for v. */
  ghost predicate Hexadecimal(s: seq<Byte>, v: int) {
    s != [] && (forall c :: c in s ==> 48 <= c <= 57 || 65 <= c <= 70) && ParseDigits(s, 16) == v
  }

  lemma NumeralReads(v: nat)
    ensures Decimal(Numeral(v, 10), v) && Hexadecimal(Numeral(v, 16), v)
    ensures Numeral(v, 16)[0] == 48 ==> Numeral(v, 16) == [48]
  {
    hide Numeral, ParseDigits;
    NumeralDigits(v, 10);
    NumeralDigits(v, 16);
    ParseNumeral(v, 10);
    ParseNumeral(v, 16);
    NoLeadingZero(v, 10);
    NoLeadingZero(v, 16);
  }

  /** `%d`: the word as a signed number, a minus sign (45) before the digits of a negative one. */
  lemma DRenders(v: Word)
    ensures Matches([37, 100], [Num(v)]) && UsesUp([37, 100], [Num(v)])
    ensures var s := Render([37, 100], [Num(v)]);
      if v < 0x8000_0000 then Decimal(s, v) else s != [] && s[0] == 45 && Decimal(s[1..], 0x1_0000_0000 - v)
  {
    hide Numeral, Render, Matches, UsesUp, Decimal, Field;
    var args := [Num(v)];
    Format1Renders(0, 100, args);
    assert Format1(0, 100) == [37, 100];
    SignedReads(v);
    PlainField(100, args, SignedNumeral(Signed(v), 10));
  }

  lemma SignedReads(v: Word)
    ensures var s := SignedNumeral(Signed(v), 10);
      if v < 0x8000_0000 then Decimal(s, v) else s != [] && s[0] == 45 && Decimal(s[1..], 0x1_0000_0000 - v)
  {
    hide Numeral, Decimal;
    NumeralReads(if v < 0x8000_0000 then v else 0x1_0000_0000 - v);
    assert v >= 0x8000_0000 ==> SignedNumeral(Signed(v), 10)[1..] == Numeral(0x1_0000_0000 - v, 10);
  }

  /** Without a zero flag nothing is added to a number. */
  lemma PlainField(c: Byte, args: seq<Arg>, t: seq<Byte>)
    requires Fits(c, args) && c in [100, 115, 117, 120]
    ensures Field(Directive(c, false, []), args, t) == t
  {
  }

  /** `%u`: the word as an unsigned number. */
  lemma URenders(v: Word)
    ensures Matches([37, 117], [Num(v)]) && UsesUp([37, 117], [Num(v)])
    ensures Decimal(Render([37, 117], [Num(v)]), v)
  {
    hide Numeral, Render, Matches, UsesUp, Decimal;
    Format1Renders(0, 117, [Num(v)]);
    assert Format1(0, 117) == [37, 117];
    PlainField(117, [Num(v)], Numeral(v, 10));
    NumeralReads(v);
  }

  /** `%x`: hexadecimal, without leading zeroes. */
  lemma XRenders(v: Word)
    ensures Matches([37, 120], [Num(v)]) && UsesUp([37, 120], [Num(v)])
    ensures var s := Render([37, 120], [Num(v)]); Hexadecimal(s, v) && (s[0] == 48 ==> s == [48])
  {
    hide Numeral, Render, Matches, UsesUp, Hexadecimal;
    Format1Renders(0, 120, [Num(v)]);
    assert Format1(0, 120) == [37, 120];
    PlainField(120, [Num(v)], Numeral(v, 16));
    NumeralReads(v);
  }

  /** `%p`: `0x` (48, 120) and eight hexadecimal digits. */
  lemma PRenders(v: Word)
    ensures Matches([37, 112], [Num(v)]) && UsesUp([37, 112], [Num(v)])
    ensures var s := Render([37, 112], [Num(v)]); |s| == 10 && s[..2] == [48, 120] && Hexadecimal(s[2..], v)
  {
    hide Numeral, Render, Matches, UsesUp, Field;
    Format1Renders(0, 112, [Num(v)]);
    assert Format1(0, 112) == [37, 112];
    var d, args := Directive(112, false, []), [Num(v)];
    HexField(d, args);
    var s := Render([37, 112], [Num(v)]);
    assert s == Field(d, args, Meaning(d.conv, args)) && d.conv == CONV_P;
    assert ParseDigits(s[2..], 16) == v;
    assert forall c :: c in s[2..] ==> 48 <= c <= 57 || 65 <= c <= 70;
    assert s[2..] != [];
  }

  /** `%s`: the string. */
  lemma SRenders(t: seq<Byte>)
    requires 0 !in t
    ensures Matches([37, 115], [Text(t)]) && UsesUp([37, 115], [Text(t)]) && Render([37, 115], [Text(t)]) == t
  {
    hide Render, Matches, UsesUp;
    var f: seq<Byte>, args: seq<Arg> := [37, 115], [Text(t)];
    Format1Renders(0, 115, args);
    assert Format1(0, 115) == f;
    assert Rest(115, args) == [] && Meaning(115, args) == t;
    assert Field(Directive(115, false, []), args, t) == t;
    assert UsesUp(f, args);
    assert Render(f, args) == t;
  }

  /** `%c`: the low byte of the word. */
  lemma CRenders(v: Word)
    ensures Matches([37, 99], [Num(v)]) && UsesUp([37, 99], [Num(v)]) && Render([37, 99], [Num(v)]) == [v % 256]
  {
    hide Render, Matches, UsesUp;
    Format1Renders(0, 99, [Num(v)]);
    assert Format1(0, 99) == [37, 99];
  }

  /** `%%` is a percent sign; any other letter stands for nothing. Neither takes an argument. */
  lemma OtherRenders(c: Byte)
    requires c !in [0, 48, 99, 100, 112, 115, 117, 120]
    ensures Matches([37, c], []) && UsesUp([37, c], [])
    ensures Render([37, c], []) == if c == 37 then [37] else []
  {
    hide Render, Matches, UsesUp;
    Format1Renders(0, c, []);
    assert Format1(0, c) == [37, c];
  }

  /** Zero flags: `%0d` is filled up to ten characters and `%0x` to eight, with zeroes in front even of
      a minus sign; for the other letters they make no difference. */
  lemma ZeroFlag(zeros: nat, c: Byte, args: seq<Arg>)
    requires c != 0 && c != 48 && Fits(c, args)
    ensures Matches(Format1(zeros, c), args) && Matches([37, c], args)
    ensures var s, width := Render([37, c], args), if c == 100 then 10 else if c == 120 then 8 else 0;
      Render(Format1(zeros, c), args)
      == if zeros > 0 && |s| < width then seq(width - |s|, _ => 48) + s else s
  {
    hide Render, Matches, UsesUp, Meaning, Fits;
    Format1Renders(zeros, c, args);
    Format1Renders(0, c, args);
    assert Format1(0, c) == [37, c];
    var t := Meaning(c, args);
    if c == 100 || c == 120 {
      assert Field(Directive(c, false, []), args, t) == t;
      assert Field(Directive(c, zeros > 0, []), args, t) == Padded(t, zeros > 0, Width(c));
    }
  }
}

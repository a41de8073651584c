/** The number printer of kernel/io/kvsnprintf.c: `utoa` and `itoa`, with the static buffer they share. */
module Digits {
  import opened Words
  import opened Bits
  import opened Memop

  const ZERO: Byte := '0' as int
  const MINUS: Byte := '-' as int

  function DigitChar(d: nat): (c: Byte)
    requires d < 36
    ensures c != 0 && c != MINUS
  {
    if d < 10 then ZERO + d else 'A' as int + d - 10
  }

  function DigitValue(c: Byte): int { if c < 'A' as int then c - ZERO else c - 'A' as int + 10 }

  /** The digits of v in the given base, most significant first. */
  function Numeral(v: nat, base: nat): (s: seq<Byte>)
    requires 2 <= base <= 36
    ensures s != [] && 0 !in s && MINUS !in s
    decreases v
  {
    if v < base then [DigitChar(v)] else Smaller(v, base); Numeral(v / base, base) + [DigitChar(v % base)]
  }

  lemma Smaller(v: nat, base: nat)
    requires 2 <= base <= v
    ensures 0 < v / base < v
  {
    var q: int := v / base;
    assert v == base * q + v % base;
    Multiple(base, q);
    assert q == 0 ==> base * q == 0;
    assert base * q == (base - 1) * q + q;
    Multiple(base - 1, q);
  }

  /** The number a string of digits stands for. */
  function ParseDigits(s: seq<Byte>, base: nat): int {
    if s == [] then 0 else ParseDigits(s[..|s| - 1], base) * base + DigitValue(s[|s| - 1])
  }

  function Pow(b: nat, k: nat): (r: nat)
    ensures b > 0 ==> r > 0
  {
    if k == 0 then 1 else b * Pow(b, k - 1)
  }

  lemma {:induction false} ParseNumeral(v: nat, base: nat)
    requires 2 <= base <= 36
    ensures ParseDigits(Numeral(v, base), base) == v
    decreases v
  {
    var s := Numeral(v, base);
    if v < base {
      assert s[..0] == [];
    } else {
      Smaller(v, base);
      var q: nat, r: nat := v / base, v % base;
      assert v == q * base + r;
      ParseNumeral(q, base);
      ParseLast(Numeral(q, base), DigitChar(r), base);
      assert DigitValue(DigitChar(r)) == r;
    }
  }

  /** c is the character of a digit of the given base. */
  ghost predicate IsDigit(c: Byte, base: nat)
    requires base <= 36
  {
    exists d: nat :: d < base && c == DigitChar(d)
  }

  lemma {:induction false} NumeralDigits(v: nat, base: nat)
    requires 2 <= base <= 36
    ensures forall c :: c in Numeral(v, base) ==> IsDigit(c, base) && (48 <= c <= 57 || 65 <= c < 55 + base)
    ensures forall c :: c in Numeral(v, base) && base <= 10 ==> 48 <= c < 48 + base
    ensures IsDigit(ZERO, base)
    decreases v
  {
    if v >= base {
      Smaller(v, base);
      NumeralDigits(v / base, base);
    }
    assert IsDigit(DigitChar(0), base) && IsDigit(DigitChar(v % base), base);
    assert v < base ==> IsDigit(DigitChar(v), base);
  }

  lemma ParseLast(s: seq<Byte>, c: Byte, base: nat)
    ensures ParseDigits(s + [c], base) == ParseDigits(s, base) * base + DigitValue(c)
  {
    assert (s + [c])[..|s|] == s;
  }

  /** The numeral has just as many digits as the value needs, so there is no leading zero. */
  lemma {:induction false} NumeralLength(v: nat, base: nat)
    requires 2 <= base <= 36 && v > 0
    ensures var n := |Numeral(v, base)|; Pow(base, n - 1) <= v < Pow(base, n)
    decreases v
  {
    if v < base {
      assert Pow(base, 0) == 1 && Pow(base, 1) == base * Pow(base, 0);
    } else {
      Smaller(v, base);
      var q, n := v / base, |Numeral(v / base, base)|;
      NumeralLength(q, base);
      ScaleBounds(v, base, q, Pow(base, n - 1), Pow(base, n));
      assert Pow(base, n) == base * Pow(base, n - 1) && Pow(base, n + 1) == base * Pow(base, n);
    }
  }

  lemma Ordered(base: int, x: int, y: int)
    requires base > 0 && x <= y
    ensures base * x <= base * y
  {
    assert base * y == base * x + base * (y - x);
    Multiple(base, y - x);
  }

  lemma ScaleBounds(v: int, base: int, q: int, lo: int, hi: int)
    requires base > 0 && q == v / base && lo <= q < hi
    ensures base * lo <= v < base * hi
  {
    assert v == base * q + v % base;
    Ordered(base, lo, q);
    Ordered(base, q + 1, hi);
    assert base * (q + 1) == base * q + base;
  }

  lemma {:induction false} PowGrows(b: nat, k: nat, j: nat)
    requires b > 0 && k <= j
    ensures Pow(b, k) <= Pow(b, j)
    decreases j
  {
    if k < j {
      PowGrows(b, k, j - 1);
      Multiple(Pow(b, j - 1), b);
      assert Pow(b, j) == b * Pow(b, j - 1) == Pow(b, j - 1) + (b - 1) * Pow(b, j - 1);
      Multiple(Pow(b, j - 1), b - 1);
    }
  }

  lemma {:induction false} PowBase(b: nat, c: nat, k: nat)
    requires 0 < b <= c
    ensures Pow(b, k) <= Pow(c, k)
    decreases k
  {
    if k > 0 {
      PowBase(b, c, k - 1);
      var x, y := Pow(b, k - 1), Pow(c, k - 1);
      Product(b, c, x, y);
    }
  }

  lemma Product(b: int, c: int, x: int, y: int)
    requires 0 < b <= c && 0 < x <= y
    ensures b * x <= c * y
  {
    Ordered(b, x, y);
    Ordered(y, b, c);
  }

  /** n digits are enough for everything below base^n. */
  lemma NumeralFits(v: nat, base: nat, n: nat)
    requires 2 <= base <= 36 && n > 0 && v < Pow(base, n)
    ensures |Numeral(v, base)| <= n
  {
    if v > 0 && |Numeral(v, base)| > n {
      NumeralLength(v, base);
      PowGrows(base, n, |Numeral(v, base)| - 1);
    }
  }

  /** More than n digits are needed from base^n on. */
  lemma NumeralNeeds(v: nat, base: nat, n: nat)
    requires 2 <= base <= 36 && v > 0 && Pow(base, n) <= v
    ensures |Numeral(v, base)| > n
  {
    hide Pow;
    NumeralLength(v, base);
    var k := |Numeral(v, base)|;
    if k <= n {
      PowGrows(base, k, n);
      assert false;
    }
  }

  lemma Powers()
    ensures Pow(16, 8) == SPACE && Pow(10, 10) == 10_000_000_000 && Pow(10, 9) == 1_000_000_000
    ensures Pow(5, 14) == 6_103_515_625 && Pow(4, 15) == 0x4000_0000
  {
    PowSum(16, 4, 4);
    PowSum(10, 5, 5);
    PowSum(10, 4, 5);
    assert Pow(10, 4) == 10_000;
    PowSum(5, 7, 7);
    PowSum(4, 7, 8);
    assert Pow(16, 4) == 0x1_0000;
    assert Pow(10, 5) == 100_000;
    assert Pow(5, 7) == 78_125;
    assert Pow(4, 7) == 0x4000;
    assert Pow(4, 8) == 0x1_0000;
  }

  lemma {:induction false} PowSum(b: nat, j: nat, k: nat)
    ensures Pow(b, j + k) == Pow(b, j) * Pow(b, k)
    decreases j
  {
    if j > 0 {
      PowSum(b, j - 1, k);
      assert b * (Pow(b, j - 1) * Pow(b, k)) == (b * Pow(b, j - 1)) * Pow(b, k);
    }
  }

  /** From base 5 on, 14 digits are enough for every 32-bit value. */
  lemma FourteenDigits(v: Word, base: nat)
    requires 5 <= base <= 36
    ensures |Numeral(v, base)| <= 14 && Holds(v, base)
  {
    Powers();
    PowBase(5, base, 14);
    NumeralFits(v, base, 14);
  }

  /** The 15 bytes in front of the buffer's last one hold every 32-bit value exactly when the base
      is at least 5. */
  lemma BufferFits(base: nat)
    requires 2 <= base <= 36
    ensures (forall v: Word :: |Numeral(v, base)| <= 15) <==> base >= 5
  {
    Powers();
    if base >= 5 {
      forall v: Word ensures |Numeral(v, base)| <= 15 {
        FourteenDigits(v, base);
      }
    } else {
      var v: Word, n := SPACE - 1, |Numeral(SPACE - 1, base)|;
      NumeralLength(v, base);
      if n <= 15 {
        PowGrows(base, n, 15);
        PowBase(base, 4, 15);
        assert false;
      }
      assert |Numeral(v, base)| > 15;
    }
  }

  // ---------------------------------------------------------------------------------------------
  // The shared buffer
  // ---------------------------------------------------------------------------------------------

  /** The C string that starts at s[p]. */
  function CString(s: seq<Byte>, p: nat): (t: seq<Byte>)
    ensures 0 !in t && |t| <= if p <= |s| then |s| - p else 0
    decreases |s| - p
  {
    if p < |s| && s[p] != 0 then [s[p]] + CString(s, p + 1) else []
  }

  /** s[p] starts a string that ends with a NUL inside s. */
  predicate Terminated(s: seq<Byte>, p: nat) {
    p + |CString(s, p)| < |s| && s[p + |CString(s, p)|] == 0
  }

  lemma {:induction false} StringAt(s: seq<Byte>, p: nat, t: seq<Byte>)
    requires p + |t| < |s| && s[p..p + |t|] == t && 0 !in t && s[p + |t|] == 0
    ensures CString(s, p) == t && Terminated(s, p)
    decreases |t|
  {
    if t != [] {
      assert s[p] == t[0] && s[p + 1..p + |t|] == t[1..];
      StringAt(s, p + 1, t[1..]);
    }
  }

  /** A state of the static buffer: 16 bytes, the last always NUL. */
  predicate Buffered(b: seq<Byte>) { |b| == 16 && b[15] == 0 }

  /** The magnitude `itoa` hands to `utoa`; the most negative number wraps to itself. */
  function Magnitude(v: int): Word
    requires -0x8000_0000 <= v < 0x8000_0000
  {
    if v < 0 then -v else v
  }

  /** The digits of v fit in front of the buffer's last byte. */
  predicate Holds(v: Word, base: nat) { 2 <= base <= 36 && |Numeral(v, base)| <= 15 }

  /** They still do with a sign. */
  predicate HoldsSigned(v: int, base: nat) {
    && -0x8000_0000 <= v < 0x8000_0000 && Holds(Magnitude(v), base)
    && (v < 0 ==> |Numeral(Magnitude(v), base)| <= 14)
  }

  lemma AlwaysHoldsSigned(v: int, base: nat)
    requires 5 <= base <= 36 && -0x8000_0000 <= v < 0x8000_0000
    ensures HoldsSigned(v, base)
  {
    FourteenDigits(Magnitude(v), base);
  }

  /** Where the numeral starts in the buffer. */
  function Start(v: Word, base: nat): (p: nat)
    requires Holds(v, base)
    ensures p <= 14 && (|Numeral(v, base)| <= 14 ==> p >= 1)
  {
    15 - |Numeral(v, base)|
  }

  function AfterUtoa(b: seq<Byte>, v: Word, base: nat): (r: seq<Byte>)
    requires Buffered(b) && Holds(v, base)
    ensures Buffered(r)
  {
    b[..Start(v, base)] + Numeral(v, base) + b[15..]
  }

  function AfterItoa(b: seq<Byte>, v: int, base: nat): (r: seq<Byte>)
    requires Buffered(b) && HoldsSigned(v, base)
    ensures Buffered(r)
  {
    var r := AfterUtoa(b, Magnitude(v), base);
    if v < 0 then r[Start(Magnitude(v), base) := MINUS] else r
  }

  /** Where the text `itoa` returns starts. */
  function ItoaStart(v: int, base: nat): (p: nat)
    requires HoldsSigned(v, base)
    ensures p <= 14
  {
    Start(Magnitude(v), base) - if v < 0 then 1 else 0
  }

  /** The text `itoa` returns. */
  function ItoaText(b: seq<Byte>, v: int, base: nat): seq<Byte>
    requires Buffered(b) && HoldsSigned(v, base)
  {
    CString(AfterItoa(b, v, base), ItoaStart(v, base))
  }

  /** How a signed number ought to be printed. */
  function SignedNumeral(v: int, base: nat): seq<Byte>
    requires 2 <= base <= 36
  {
    if v < 0 then [MINUS] + Numeral(-v, base) else Numeral(v, base)
  }

  lemma UtoaText(b: seq<Byte>, v: Word, base: nat)
    requires Buffered(b) && Holds(v, base)
    ensures CString(AfterUtoa(b, v, base), Start(v, base)) == Numeral(v, base)
    ensures Terminated(AfterUtoa(b, v, base), Start(v, base))
  {
    StringAt(AfterUtoa(b, v, base), Start(v, base), Numeral(v, base));
  }

  /** Negative numbers: the sign replaces the first digit, and the text starts a byte early, at
      whatever an earlier conversion left there. */
  lemma ItoaNegative(b: seq<Byte>, v: int, base: nat)
    requires Buffered(b) && HoldsSigned(v, base) && v < 0
    ensures var p := Start(-v, base);
      ItoaText(b, v, base) == if b[p - 1] == 0 then [] else [b[p - 1], MINUS] + Numeral(-v, base)[1..]
    ensures Terminated(AfterItoa(b, v, base), Start(-v, base) - 1)
  {
    hide Numeral;
    var p, ds, r := Start(-v, base), Numeral(-v, base), AfterItoa(b, v, base);
    SignPlaced(b, ds, p, r);
    if b[p - 1] != 0 {
      StringAt(r, p - 1, [b[p - 1], MINUS] + ds[1..]);
    }
  }

  lemma SignPlaced(b: seq<Byte>, ds: seq<Byte>, p: nat, r: seq<Byte>)
    requires |b| == 16 && ds != [] && 0 < p == 15 - |ds| && r == (b[..p] + ds + b[15..])[p := MINUS]
    ensures |r| == 16 && r[p - 1] == b[p - 1] && r[15] == b[15]
    ensures r[p - 1..p + |ds|] == [b[p - 1], MINUS] + ds[1..]
  {
    assert forall i :: 0 <= i < |ds| - 1 ==> ds[1..][i] == ds[i + 1];
  }

  lemma ItoaEnds(b: seq<Byte>, v: int, base: nat)
    requires Buffered(b) && HoldsSigned(v, base)
    ensures Terminated(AfterItoa(b, v, base), ItoaStart(v, base))
  {
    if v >= 0 {
      UtoaText(b, v, base);
    } else {
      ItoaNegative(b, v, base);
    }
  }

  /** `itoa` prints a number correctly exactly when it is not negative, whatever the buffer held; a
      wrong text is never longer than the right one. */
  lemma ItoaExact(b: seq<Byte>, v: int, base: nat)
    requires Buffered(b) && HoldsSigned(v, base)
    ensures ItoaText(b, v, base) == SignedNumeral(v, base) <==> v >= 0
    ensures |ItoaText(b, v, base)| <= |SignedNumeral(v, base)|
    ensures v < 0 ==> ItoaText(b, v, base) == [] || |ItoaText(b, v, base)| == |SignedNumeral(v, base)|
    ensures v < 0 ==> SignedNumeral(v, base) != [] && SignedNumeral(v, base)[0] == MINUS
  {
    if v >= 0 {
      UtoaText(b, v, base);
    } else {
      ItoaNegative(b, v, base);
      var p, ds := Start(-v, base), Numeral(-v, base);
      if b[p - 1] != 0 {
        assert ItoaText(b, v, base)[1] == MINUS && SignedNumeral(v, base)[1] == ds[0];
        assert ds[0] in ds;
      }
    }
  }

  // ---------------------------------------------------------------------------------------------
  // What the buffer can come to hold
  // ---------------------------------------------------------------------------------------------

  /** A state the buffer gets into from its initial zeroes by conversions to base 10 and up: they need
      at most ten digits, and a sign replaces one, so the first five bytes are never written. */
  predicate Fresh(b: seq<Byte>) { Buffered(b) && forall i :: 0 <= i < 5 ==> b[i] == 0 }

  lemma TenFit(v: Word, base: nat)
    requires 10 <= base <= 36
    ensures Holds(v, base) && |Numeral(v, base)| <= 10
  {
    hide Pow;
    Powers();
    PowBase(10, base, 10);
    NumeralFits(v, base, 10);
  }

  lemma UtoaFresh(b: seq<Byte>, v: Word, base: nat)
    requires Fresh(b) && 10 <= base <= 36
    ensures Holds(v, base) && Fresh(AfterUtoa(b, v, base))
  {
    hide Numeral;
    TenFit(v, base);
  }

  lemma ItoaFresh(b: seq<Byte>, v: int, base: nat)
    requires Fresh(b) && 10 <= base <= 36 && -0x8000_0000 <= v < 0x8000_0000
    ensures HoldsSigned(v, base) && Fresh(AfterItoa(b, v, base))
  {
    hide Numeral;
    TenFit(Magnitude(v), base);
    UtoaFresh(b, Magnitude(v), base);
  }

  /** A negative number of ten digits prints as nothing at all: its text starts at a byte that is
      always zero. */
  lemma ItoaLost(b: seq<Byte>, v: int)
    requires Fresh(b) && -0x8000_0000 <= v <= -1_000_000_000
    ensures HoldsSigned(v, 10) && ItoaText(b, v, 10) == []
  {
    hide Numeral, Pow, ItoaText;
    AlwaysHoldsSigned(v, 10);
    TenFit(-v, 10);
    Powers();
    NumeralNeeds(-v, 10, 9);
    ItoaNegative(b, v, 10);
  }

  /** On the buffer as it really is, no number takes more than ten bytes. */
  lemma ItoaSize(b: seq<Byte>, v: int)
    requires Buffered(b) && -0x8000_0000 <= v < 0x8000_0000 && (Fresh(b) || v >= 0)
    ensures HoldsSigned(v, 10) && |ItoaText(b, v, 10)| <= 10
  {
    hide Numeral, Pow, ItoaText, Fresh;
    AlwaysHoldsSigned(v, 10);
    TenFit(Magnitude(v), 10);
    if v <= -1_000_000_000 {
      ItoaLost(b, v);
    } else {
      ItoaExact(b, v, 10);
      Powers();
      if v < 0 { NumeralFits(-v, 10, 9); }
    }
  }

  // ---------------------------------------------------------------------------------------------
  // In plain numbers
  // ---------------------------------------------------------------------------------------------

  /** Digits are the characters from 48 (`0`) and, from ten on, from 65 (`A`) on. */
  lemma DigitsPlain(d: nat, base: nat)
    requires d < 36
    ensures DigitChar(d) == (if d < 10 then 48 + d else 55 + d) && DigitValue(DigitChar(d)) == d
    ensures ParseDigits([], base) == 0
  {
  }

  /** A string of digits is read from the left: one more digit is worth itself, what stands before it
      the base as much. */
  lemma ParsePlain(s: seq<Byte>, c: Byte, base: nat)
    ensures 48 <= c <= 57 ==> ParseDigits(s + [c], base) == ParseDigits(s, base) * base + (c - 48)
    ensures 65 <= c <= 90 ==> ParseDigits(s + [c], base) == ParseDigits(s, base) * base + (c - 55)
  {
    hide ParseDigits;
    ParseLast(s, c, base);
  }

  /** There is no leading zero. */
  lemma {:induction false} NoLeadingZero(v: nat, base: nat)
    requires 2 <= base <= 36
    ensures v > 0 ==> Numeral(v, base)[0] != 48
    ensures v == 0 ==> Numeral(v, base) == [48]
    decreases v
  {
    if v >= base {
      Smaller(v, base);
      NoLeadingZero(v / base, base);
    }
  }

  /** A C string runs up to its NUL. */
  lemma {:induction false} StringPlain(s: seq<Byte>, p: nat)
    requires Terminated(s, p)
    ensures var n := |CString(s, p)|;
      p + n < |s| && s[p + n] == 0 && CString(s, p) == s[p..p + n] && 0 !in s[p..p + n]
    decreases |s| - p
  {
    if s[p] != 0 {
      StringPlain(s, p + 1);
      assert s[p..p + |CString(s, p)|] == [s[p]] + s[p + 1..p + |CString(s, p)|];
    }
  }

  /** `utoa` leaves the digits in front of byte 15, which stays NUL, and the bytes before them alone. */
  lemma UtoaPlain(b: seq<Byte>, v: Word, base: nat, i: nat)
    requires Buffered(b) && Holds(v, base) && i < 16
    ensures var n, r := |Numeral(v, base)|, AfterUtoa(b, v, base);
      && Start(v, base) == 15 - n && |r| == 16 && r[15 - n..15] == Numeral(v, base) && r[15] == 0
      && (i < 15 - n ==> r[i] == b[i])
  {
    hide Numeral;
  }
}

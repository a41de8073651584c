/** The functions of kernel/io/kvsnprintf.c, statement by statement. */
module FormatCode {
  import opened Words
  import Bits
  import opened Memop
  import opened Digits
  import opened Format
  import Console

  /** `strlen` of the string that starts at src[at] */
  method Strlen(src: seq<Byte>, at: nat) returns (size: nat)
    requires Terminated(src, at)
    ensures size == |CString(src, at)|
    ensures at + size < |src| && src[at + size] == 0 && 0 !in src[at..at + size]
  {
    size := 0;
    var p := at;
    while src[p] != 0
      invariant p == at + size && Terminated(src, p) && |CString(src, at)| == size + |CString(src, p)|
      invariant 0 !in src[at..p]
      decreases |src| - p
    {
      p := p + 1;
      size := size + 1;
    }
  }

  /** `strcpy` of the string that starts at src[at] to dest[to] */
  method Strcpy(dest: array<Byte>, to: nat, src: seq<Byte>, at: nat)
    requires Terminated(src, at) && to + |CString(src, at)| < dest.Length
    modifies dest
    ensures var t := CString(src, at);
      dest[..] == old(dest[..to]) + t + [0] + old(dest[to + |t| + 1..])
  {
    var ptr, p := to, at;
    ghost var t := CString(src, at);
    while src[p] != 0
      invariant to <= ptr && ptr - to == p - at <= |t| && Terminated(src, p)
      invariant t[ptr - to..] == CString(src, p)
      invariant dest[..ptr] == old(dest[..to]) + t[..ptr - to]
      invariant forall i :: ptr <= i < dest.Length ==> dest[i] == old(dest[i])
      decreases |src| - p
    {
      assert t[ptr - to] == src[p];
      dest[ptr] := src[p];
      ptr := ptr + 1;
      p := p + 1;
    }
    dest[ptr] := 0;
  }

  lemma UtoaDone(b: seq<Byte>, now: seq<Byte>, value: Word, base: nat, start: nat)
    requires Buffered(b) && |now| == 16 && Holds(value, base) && start <= 15
    requires now[start..15] == Numeral(value, base) && now[15] == 0
    requires forall i :: 0 <= i < start ==> now[i] == b[i]
    ensures start == Start(value, base) && now == AfterUtoa(b, value, base)
  {
    assert now == now[..start] + now[start..15] + now[15..];
    assert now[..start] == b[..start] && now[15..] == b[15..];
  }

  lemma HoldsIs(v: Word, base: nat)
    requires Holds(v, base)
    ensures 2 <= base <= 36 && |Numeral(v, base)| <= 15 && Numeral(0, base) == [ZERO]
  {
  }

  /** One digit split off the number. */
  lemma NumeralStep(numeral: seq<Byte>, v: nat, base: nat, done: seq<Byte>)
    requires 2 <= base <= 36 && v > 0 && numeral == Numeral(v, base) + done
    ensures 0 <= v / base < v && 0 <= v % base < base && |done| < |numeral|
    ensures numeral == (if v / base > 0 then Numeral(v / base, base) else []) + ([DigitChar(v % base)] + done)
  {
    if v >= base {
      Smaller(v, base);
    } else {
      Bits.DivUnique(v, base, 0, v);
    }
  }

  /** What follows the `switch`: measure the text, pad it with zeroes, and copy it. */
  method PutText(buf: array<Byte>, ptr: nat, text: seq<Byte>, at: nat, fill: bool, width: nat) returns (next: nat)
    requires Terminated(text, at) && ptr + |Padded(CString(text, at), fill, width)| < buf.Length
    modifies buf
    ensures var out := Padded(CString(text, at), fill, width);
      next == ptr + |out| && buf[..next] == old(buf[..ptr]) + out
    ensures buf[next + 1..] == old(buf[next + 1..])
  {
    hide CString, Terminated, Padded, Zeros;
    ghost var t := CString(text, at);
    PaddedSize(t, fill, width);
    var len := Strlen(text, at);
    var left := width;
    next := ptr;
    while fill && len < left
      invariant left <= width && next == ptr + (width - left) && (left < width ==> fill && len <= left)
      invariant forall i :: 0 <= i < ptr || next <= i < buf.Length ==> buf[i] == old(buf[i])
      invariant forall i :: ptr <= i < next ==> buf[i] == ZERO
    {
      left := left - 1;
      buf[next] := ZERO;
      next := next + 1;
    }
    ghost var from, before := next, buf[..];
    Strcpy(buf, next, text, at);
    len := Strlen(text, at);
    next := next + len;
    PaddedIs(t, fill, width, width - left);
    TextPut(old(buf[..]), before, buf[..], t, ptr, from);
  }

  /** The buffer once zeroes from ptr to from and then the text t and its NUL are written. */
  lemma TextPut(first: seq<Byte>, before: seq<Byte>, after: seq<Byte>, t: seq<Byte>, ptr: nat, from: nat)
    requires |before| == |first| && ptr <= from <= from + |t| < |first|
    requires forall i :: 0 <= i < ptr || from <= i < |first| ==> before[i] == first[i]
    requires forall i :: ptr <= i < from ==> before[i] == ZERO
    requires after == before[..from] + t + [0] + before[from + |t| + 1..]
    ensures var next := from + |t|;
      && after[..next] == first[..ptr] + (Zeros(from - ptr) + t) && |after| == |first|
      && after[next + 1..] == first[next + 1..]
  {
  }

  lemma PaddedIs(text: seq<Byte>, zero: bool, width: nat, zeros: nat)
    requires zeros == 0 || (zero && zeros <= width - |text|)
    requires zero ==> |text| >= width - zeros
    ensures Padded(text, zero, width) == Zeros(zeros) + text
  {
    assert Zeros(0) + text == text;
  }

  class Printer {
    /** The static buffer of `utoa`. */
    const digits: array<Byte>

    ghost predicate Valid()
      reads digits
    {
      Buffered(digits[..])
    }

    constructor ()
      ensures Valid() && fresh(digits) && digits[..] == InitialBuffer()
    {
      digits := new Byte[16](_ => 0);
    }

    method Utoa(value: Word, base: nat) returns (start: nat)
      requires Valid() && Holds(value, base)
      modifies digits
      ensures Valid() && start == Start(value, base) && digits[..] == AfterUtoa(old(digits[..]), value, base)
    {
      hide Numeral, AfterUtoa, Start, Holds;
      HoldsIs(value, base);
      ghost var numeral, b := Numeral(value, base), digits[..];
      var ptr: int := 14;
      if value == 0 {
        digits[ptr] := ZERO;
        ptr := ptr - 1;
      } else {
        var v: nat := value;
        while v > 0
          invariant 14 - |numeral| <= ptr <= 14
          invariant numeral == (if v > 0 then Numeral(v, base) else []) + digits[ptr + 1..15]
          invariant forall i :: 0 <= i <= ptr || i == 15 ==> digits[i] == b[i]
        {
          ghost var done := digits[ptr + 1..15];
          var rem := v % base;
          NumeralStep(numeral, v, base, done);
          if 0 <= rem < 10 {
            digits[ptr] := ZERO + rem;
            ptr := ptr - 1;
          } else if 10 <= rem < base {
            digits[ptr] := 'A' as int + rem - 10;
            ptr := ptr - 1;
          }
          assert digits[ptr + 1..15] == [DigitChar(rem)] + done;
          v := v / base;
        }
      }
      start := ptr + 1;
      UtoaDone(b, digits[..], value, base, start);
    }

    method Itoa(value: int, base: nat) returns (start: nat)
      requires Valid() && HoldsSigned(value, base)
      modifies digits
      ensures Valid() && digits[..] == AfterItoa(old(digits[..]), value, base) && start == ItoaStart(value, base)
    {
      var neg := value < 0;
      start := Utoa(Magnitude(value), base);
      if neg {
        digits[start] := MINUS;
        start := start - 1;
      }
    }

    /** The `switch` over the conversion character: what is written right away, the text to copy, and
        how wide to make it. */
    method Select(buf: array<Byte>, ptr: nat, conv: Byte, zero: bool, args: seq<Arg>)
      returns (text: seq<Byte>, at: nat, width: nat, fill: bool, next: nat, rest: seq<Arg>)
      requires Valid() && Fits(conv, args) && buf != digits && ptr + |Prefix(conv, args)| < buf.Length
      modifies buf, digits
      ensures Valid() && digits[..] == After(conv, args, old(digits[..]))
      ensures Terminated(text, at) && CString(text, at) == Found(conv, args, old(digits[..]))
      ensures width == Width(conv) && fill == (zero || conv == CONV_P) && rest == Rest(conv, args)
      ensures next == ptr + |Prefix(conv, args)| && buf[next..] == old(buf[next..])
      ensures buf[..next] == old(buf[..ptr]) + Prefix(conv, args)
    {
      hide Numeral, AfterItoa, AfterUtoa, Start;
      ghost var b := digits[..];
      text, at, width, fill, next, rest := [0], 0, 0, zero, ptr, args;
      if conv == PERCENT {
        text := [PERCENT, 0];
        StringAt(text, 0, [PERCENT]);
      } else if conv == CONV_D {
        rest := args[1..];
        AlwaysHoldsSigned(Signed(args[0].v), 10);
        at := Itoa(Signed(args[0].v), 10);
        text := digits[..];
        ItoaEnds(b, Signed(args[0].v), 10);
        width := 10;
      } else if conv == CONV_P || conv == CONV_X {
        if conv == CONV_P {
          buf[next] := ZERO;
          next := next + 1;
          buf[next] := CONV_X;
          next := next + 1;
          fill := true;
        }
        rest := args[1..];
        FourteenDigits(args[0].v, 16);
        at := Utoa(args[0].v, 16);
        text := digits[..];
        UtoaText(b, args[0].v, 16);
        width := 8;
      } else if conv == CONV_S {
        rest := args[1..];
        text := args[0].s + [0];
        StringAt(text, 0, args[0].s);
      } else if conv == CONV_C {
        rest := args[1..];
        buf[next] := args[0].v % 256;
        next := next + 1;
        StringAt(text, 0, []);
      } else if conv == CONV_U {
        rest := args[1..];
        FourteenDigits(args[0].v, 10);
        at := Utoa(args[0].v, 10);
        text := digits[..];
        UtoaText(b, args[0].v, 10);
      } else {
        StringAt(text, 0, []);
      }
    }

    /** One directive after its flags. */
    method Convert(buf: array<Byte>, ptr: nat, conv: Byte, zero: bool, args: seq<Arg>, ghost d: Directive)
      returns (next: nat, rest: seq<Arg>)
      requires Valid() && Fits(conv, args) && buf != digits && d.conv == conv && d.zero == zero
      requires ptr + |Field(d, args, Found(conv, args, digits[..]))| < buf.Length
      modifies buf, digits
      ensures Valid() && digits[..] == After(conv, args, old(digits[..])) && rest == Rest(conv, args)
      ensures var out := old(Field(d, args, Found(conv, args, digits[..])));
        next == ptr + |out| && buf[..next] == old(buf[..ptr]) + out
      ensures buf[next + 1..] == old(buf[next + 1..])
    {
      hide After, Found, CString, Terminated, Buffered, Padded;
      var text, at, width, fill;
      text, at, width, fill, next, rest := Select(buf, ptr, conv, zero, args);
      ghost var first, second, mid := old(buf[..]), buf[..], next;
      next := PutText(buf, next, text, at, fill, width);
      assert first[next + 1..] == first[mid..][next + 1 - mid..];
      assert second[next + 1..] == second[mid..][next + 1 - mid..];
    }

    method Kvsnprintf(buf: array<Byte>, bufsz: nat, fmt: seq<Byte>, args: seq<Arg>) returns (n: nat)
      requires Valid() && Matches(fmt, args) && buf != digits
      requires |Written(fmt, args, digits[..], bufsz)| < buf.Length
      modifies buf, digits
      ensures Valid() && digits[..] == BufferAfter(fmt, args, old(digits[..]), bufsz)
      ensures n == |old(Written(fmt, args, digits[..], bufsz))|
              && buf[..n] == old(Written(fmt, args, digits[..], bufsz))
      ensures buf[n] == 0 && buf[n + 1..] == old(buf[n + 1..])
    {
      hide Field, Found, Fits, Rest, After, ParseDirective, BufferAfter, Written, Matches, Buffered;
      ghost var out := Written(fmt, args, digits[..], bufsz);
      ghost var final := BufferAfter(fmt, args, digits[..], bufsz);
      var ptr: nat, f: nat, ap := 0, 0, args;
      assert fmt[0..] == fmt;
      while f < |fmt| && ptr < bufsz
        invariant f <= |fmt| && Matches(fmt[f..], ap) && Valid() && ptr <= |out|
        invariant out == buf[..ptr] + Written(fmt[f..], ap, digits[..], bufsz - ptr)
        invariant final == BufferAfter(fmt[f..], ap, digits[..], bufsz - ptr)
        invariant buf[|out| + 1..] == old(buf[|out| + 1..])
        decreases |fmt| - f
      {
        Unfold(fmt[f..], ap, digits[..], bufsz - ptr);
        ghost var first, seen := buf[..], f;
        if fmt[f] != PERCENT {
          buf[ptr] := fmt[f];
          ptr, f := ptr + 1, f + 1;
          assert fmt[seen..][1..] == fmt[f..];
        } else {
          ghost var d := ParseDirective(fmt[f..]);
          var zero: bool;
          zero, f := Flags(fmt, f);
          DirectiveAt(fmt, seen, f);
          ptr, ap := Convert(buf, ptr, fmt[f], zero, ap, d);
          f := f + 1;
        }
        TailFrom(first, buf[..], ptr + 1, |out| + 1);
      }
      Unfold(fmt[f..], ap, digits[..], bufsz - ptr);
      buf[ptr] := 0;
      return ptr;
    }
  }

  /** From `again:` on: step over the `%` and its zero flags. */
  method Flags(fmt: seq<Byte>, percent: nat) returns (zero: bool, f: nat)
    requires percent < |fmt| && StartsDirective(fmt[percent..])
    ensures f == percent + 1 + CountZeros(fmt[percent + 1..]) < |fmt| && zero == (f > percent + 1)
  {
    assert fmt[percent..][1..] == fmt[percent + 1..];
    zero, f := false, percent + 1;
    while fmt[f] == ZERO
      invariant percent < f <= |fmt| && zero == (f > percent + 1)
      invariant f + CountZeros(fmt[f..]) == percent + 1 + CountZeros(fmt[percent + 1..]) < |fmt|
      decreases |fmt| - f
    {
      assert fmt[f..][1..] == fmt[f + 1..];
      zero := true;
      f := f + 1;
    }
  }

  lemma DirectiveAt(fmt: seq<Byte>, percent: nat, f: nat)
    requires percent < |fmt| && StartsDirective(fmt[percent..])
    requires f == percent + 1 + CountZeros(fmt[percent + 1..]) < |fmt|
    ensures ParseDirective(fmt[percent..]) == Directive(fmt[f], f > percent + 1, fmt[f + 1..])
  {
    assert fmt[percent..][1..] == fmt[percent + 1..];
  }

  /** One step of the interpreter. */
  lemma Unfold(f: seq<Byte>, args: seq<Arg>, b: seq<Byte>, room: int)
    requires Matches(f, args) && Buffered(b)
    ensures f == [] || room <= 0 ==> Written(f, args, b, room) == [] && BufferAfter(f, args, b, room) == b
    ensures f != [] && room > 0 && f[0] != PERCENT ==>
      && Matches(f[1..], args)
      && Written(f, args, b, room) == [f[0]] + Written(f[1..], args, b, room - 1)
      && BufferAfter(f, args, b, room) == BufferAfter(f[1..], args, b, room - 1)
    ensures f != [] && room > 0 && f[0] == PERCENT ==>
      && StartsDirective(f) && var d := ParseDirective(f);
      && Fits(d.conv, args) && Matches(d.rest, Rest(d.conv, args))
      && var out := Field(d, args, Found(d.conv, args, b));
      && Written(f, args, b, room) == out + Written(d.rest, Rest(d.conv, args), After(d.conv, args, b), room - |out|)
      && BufferAfter(f, args, b, room) == BufferAfter(d.rest, Rest(d.conv, args), After(d.conv, args, b), room - |out|)
  {
    hide Field, Found, After, Fits, ParseDirective;
  }

  lemma TailFrom(first: seq<Byte>, after: seq<Byte>, p: nat, n: nat)
    requires |first| == |after| && p <= n <= |first| && first[p..] == after[p..]
    ensures first[n..] == after[n..]
  {
    assert first[n..] == first[p..][n - p..] && after[n..] == after[p..][n - p..];
  }

  const MAX_BUFFER := 4096

  /** `kprintf` of kernel/io/kprintf.c: what is rendered joins the console's history. */
  method Kprintf(printer: Printer, screen: Console.Screen, fmt: seq<Byte>, args: seq<Arg>) returns (bytes: nat)
    requires printer.Valid() && screen.Valid() && printer.digits != screen.buffer
    requires Matches(fmt, args) && |Render(fmt, args)| < 4096
    modifies printer.digits, screen, screen.buffer
    ensures printer.Valid() && screen.Valid()
    ensures screen.history == old(screen.history) + old(Written(fmt, args, printer.digits[..], 4096))
    ensures screen.history == old(screen.history) + Render(fmt, args) <==> NonNegative(fmt, args)
    ensures bytes == |screen.history| - |old(screen.history)|
    ensures old(Fresh(printer.digits[..])) ==> Fresh(printer.digits[..])
  {
    hide Console.Screen.Valid, Buffered, Fresh, Written, Render, NonNegative, Matches;
    WrittenExact(fmt, args, printer.digits[..], MAX_BUFFER);
    if Fresh(printer.digits[..]) { CallFresh(fmt, args, printer.digits[..], MAX_BUFFER); }
    var buffer := new Byte[MAX_BUFFER](_ => 0);
    bytes := printer.Kvsnprintf(buffer, MAX_BUFFER, fmt, args);
    ghost var before, out := screen.history, buffer[..bytes];
    if bytes > 0 {
      var _ := screen.Write(buffer[..bytes]);
    }
    AppendEqual(before, out, Render(fmt, args));
  }

  lemma AppendEqual(h: seq<Byte>, a: seq<Byte>, b: seq<Byte>)
    ensures h + a == h + b <==> a == b
    ensures h + [] == h
  {
    assert (h + a)[|h|..] == a && (h + b)[|h|..] == b;
  }
}

/** kernel/memop.c: filling and copying bytes in one memory, where ranges may overlap. */
module Memop {

  type Byte = x: int | 0 <= x < 256

  /** Memory m with the n bytes at d replaced by the n bytes that were at s. */
  function BlockCopy(m: seq<Byte>, d: nat, s: nat, n: nat): (r: seq<Byte>)
    requires d + n <= |m| && s + n <= |m|
  {
    m[..d] + m[s..s + n] + m[d + n..]
  }

  lemma BlockAt(m: seq<Byte>, d: nat, s: nat, n: nat)
    requires d + n <= |m| && s + n <= |m|
    ensures var r := BlockCopy(m, d, s, n);
      |r| == |m| && forall i :: 0 <= i < |m| ==> r[i] == if d <= i < d + n then m[s + (i - d)] else m[i]
  {
  }

  function BlockFill(m: seq<Byte>, d: nat, val: Byte, n: nat): (r: seq<Byte>)
    requires d + n <= |m|
  {
    m[..d] + seq(n, _ => val) + m[d + n..]
  }

  /** What copying one byte after the other from the front does. */
  function ForwardCopy(m: seq<Byte>, d: nat, s: nat, n: nat): (r: seq<Byte>)
    requires d + n <= |m| && s + n <= |m|
    ensures |r| == |m|
    decreases n
  {
    if n == 0 then m else ForwardCopy(m[d := m[s]], d + 1, s + 1, n - 1)
  }

  lemma {:induction false} ForwardOutside(m: seq<Byte>, d: nat, s: nat, n: nat, i: nat)
    requires d + n <= |m| && s + n <= |m| && i < |m| && !(d <= i < d + n)
    ensures ForwardCopy(m, d, s, n)[i] == m[i]
    decreases n
  {
    if n > 0 {
      ForwardOutside(m[d := m[s]], d + 1, s + 1, n - 1, i);
    }
  }

  /** A byte arrives intact if its source has not been overwritten before its turn. */
  lemma {:induction false} ForwardAt(m: seq<Byte>, d: nat, s: nat, n: nat, i: nat)
    requires d + n <= |m| && s + n <= |m| && i < n && (d <= s || s + i < d)
    ensures ForwardCopy(m, d, s, n)[d + i] == m[s + i]
    decreases n
  {
    var m1 := m[d := m[s]];
    if i == 0 {
      ForwardOutside(m1, d + 1, s + 1, n - 1, d);
    } else {
      ForwardAt(m1, d + 1, s + 1, n - 1, i - 1);
    }
  }

  lemma ForwardIsBlock(m: seq<Byte>, d: nat, s: nat, n: nat)
    requires d + n <= |m| && s + n <= |m| && (d <= s || s + n <= d)
    ensures ForwardCopy(m, d, s, n) == BlockCopy(m, d, s, n)
  {
    var r := ForwardCopy(m, d, s, n);
    forall i | 0 <= i < |m| ensures r[i] == BlockCopy(m, d, s, n)[i] {
      if d <= i < d + n { ForwardAt(m, d, s, n, i - d); } else { ForwardOutside(m, d, s, n, i); }
    }
  }

  /** With the destination starting inside the source, some memory is copied wrongly. */
  lemma OverlapSpoils(size: nat, d: nat, s: nat, n: nat) returns (m: seq<Byte>)
    requires d + n <= size && s + n <= size && s < d < s + n
    ensures |m| == size && ForwardCopy(m, d, s, n) != BlockCopy(m, d, s, n)
  {
    var k := d - s;
    m := seq(size, i => if i == s then 1 else 0);
    ForwardAt(m[d := m[s]], d + 1, s + 1, n - 1, k - 1);
    assert ForwardCopy(m, d, s, n)[d + k] == m[s];
    assert BlockCopy(m, d, s, n)[d + k] == m[d];
  }

  /** `memcpy` copies the range whatever it holds exactly when the destination does not start
      inside the source: otherwise it would read bytes it has already overwritten. */
  lemma ForwardCopyExact(size: nat, d: nat, s: nat, n: nat)
    requires d + n <= size && s + n <= size
    ensures (forall m: seq<Byte> :: |m| == size ==> ForwardCopy(m, d, s, n) == BlockCopy(m, d, s, n))
       <==> d <= s || s + n <= d
  {
    if d <= s || s + n <= d {
      forall m: seq<Byte> | |m| == size ensures ForwardCopy(m, d, s, n) == BlockCopy(m, d, s, n) {
        ForwardIsBlock(m, d, s, n);
      }
    } else {
      var m := OverlapSpoils(size, d, s, n);
    }
  }

  method Memset(mem: array<Byte>, dst: nat, val: Byte, size: nat)
    requires dst + size <= mem.Length
    modifies mem
    ensures mem[..] == BlockFill(old(mem[..]), dst, val, size)
    ensures forall i :: 0 <= i < mem.Length ==> mem[i] == if dst <= i < dst + size then val else old(mem[i])
  {
    var n: nat, ptr: nat := size, dst;
    while n != 0
      invariant n <= size && ptr == dst + size - n
      invariant forall i :: 0 <= i < mem.Length ==> mem[i] == if dst <= i < ptr then val else old(mem[i])
    {
      n := n - 1;
      mem[ptr] := val;
      ptr := ptr + 1;
    }
  }

  method Memcpy(mem: array<Byte>, dst: nat, src: nat, size: nat)
    requires dst + size <= mem.Length && src + size <= mem.Length
    modifies mem
    ensures mem[..] == ForwardCopy(old(mem[..]), dst, src, size)
    ensures dst <= src || src + size <= dst ==> forall i :: 0 <= i < mem.Length ==>
              mem[i] == if dst <= i < dst + size then old(mem[src + (i - dst)]) else old(mem[i])
  {
    var n: nat, d: nat, s: nat := size, dst, src;
    while n != 0
      invariant n <= size && d == dst + size - n && s == src + size - n
      invariant ForwardCopy(old(mem[..]), dst, src, size) == ForwardCopy(mem[..], d, s, n)
    {
      ghost var m := mem[..];
      n := n - 1;
      mem[d] := mem[s];
      assert mem[..] == m[d := m[s]];
      d, s := d + 1, s + 1;
    }
    if dst <= src || src + size <= dst {
      ForwardIsBlock(old(mem[..]), dst, src, size);
      BlockAt(old(mem[..]), dst, src, size);
    }
  }

  /** However the two ranges overlap, the destination ends up with what the source held. */
  method Memmove(mem: array<Byte>, dst: nat, src: nat, size: nat)
    requires dst + size <= mem.Length && src + size <= mem.Length
    modifies mem
    ensures mem[..] == BlockCopy(old(mem[..]), dst, src, size)
    ensures forall i :: 0 <= i < mem.Length ==>
              mem[i] == if dst <= i < dst + size then old(mem[src + (i - dst)]) else old(mem[i])
  {
    ghost var m := mem[..];
    BlockAt(m, dst, src, size);
    if dst < src {
      ForwardIsBlock(m, dst, src, size);
      Memcpy(mem, dst, src, size);
      return;
    }
    var n: nat, d: nat, s: nat := size, dst + size, src + size;
    while n != 0
      invariant n <= size && d == dst + n && s == src + n
      invariant forall i :: 0 <= i < mem.Length ==>
        mem[i] == if d <= i < dst + size then old(mem[src + (i - dst)]) else old(mem[i])
    {
      n := n - 1;
      d, s := d - 1, s - 1;
      mem[d] := mem[s];
    }
    assert forall i :: 0 <= i < mem.Length ==> mem[..][i] == BlockCopy(m, dst, src, size)[i];
  }

  /** The 32-bit word whose bytes start at a, lowest byte first. */
  function WordAt(m: seq<Byte>, a: nat): int
    requires a + 4 <= |m|
  {
    var b0: int, b1: int, b2: int, b3: int := m[a], m[a + 1], m[a + 2], m[a + 3];
    b0 + 0x100 * b1 + 0x1_0000 * b2 + 0x100_0000 * b3
  }

  /** Words inside a filled range repeat the byte; in particular clearing bytes clears words. Words
      outside it are untouched. */
  lemma FilledWords(m: seq<Byte>, d: nat, val: Byte, n: nat, a: nat)
    requires d + n <= |m| && a + 4 <= |m|
    ensures d <= a && a + 4 <= d + n ==> WordAt(BlockFill(m, d, val, n), a) == val * 0x0101_0101
    ensures a + 4 <= d || d + n <= a ==> WordAt(BlockFill(m, d, val, n), a) == WordAt(m, a)
  {
  }
}

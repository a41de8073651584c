/** The address arithmetic of arch/i386/include/x86.h and memlayout.h: the macros as the C code
    writes them, each with the plain arithmetic it comes to. */
module Layout {
  import opened Words
  import opened Bits

  const PAGE_SIZE := 0x1000
  const KERNEL_BASE: Word := 0x8000_0000
  const EXTENDED_MEM: Word := 0x0010_0000
  const KERNEL_LINK: Word := 0x8010_0000
  const MB := 0x10_0000

  function Phys(va: Word): Word { Minus(va, KERNEL_BASE) }

  function Virt(pa: Word): Word { Plus(pa, KERNEL_BASE) }

  function Not(x: Word): Word { 0xFFFF_FFFF - x }

  function PdIndex(va: Word): (i: nat)
    ensures i == va / 0x40_0000 < 1024
  {
    Powers();
    Field(va, 22, 10);
    And(Shr(va, 22), 0x3FF)
  }

  function PtIndex(va: Word): (i: nat)
    ensures i == va / 0x1000 % 1024 < 1024
  {
    Powers();
    Field(va, 12, 10);
    And(Shr(va, 12), 0x3FF)
  }

  function PteAddr(e: Word): (r: Word)
    ensures r == e - e % 0x1000
  {
    Powers();
    ClearLow(e, 12, 20, Not(0xFFF));
    And(e, Not(0xFFF))
  }

  function PteFlags(e: Word): (r: nat)
    ensures r == e % 0x1000
  {
    Powers();
    AndOnes(e, 12);
    And(e, 0xFFF)
  }

  function PageDown(a: Word): (r: Word)
    ensures r == a - a % 0x1000
  {
    PteAddr(a)
  }

  /** Rounding up wraps to 0 on the last page. */
  function PageUp(a: Word): (r: Word)
    ensures r % 0x1000 == 0
    ensures r == if a % 0x1000 == 0 then a
                 else if a < SPACE - 0x1000 then a - a % 0x1000 + 0x1000 else 0
  {
    RoundUp(a);
    PteAddr(Plus(a, 0xFFF))
  }

  lemma RoundUp(a: Word)
    ensures var s := Plus(a, 0xFFF);
      s - s % 0x1000 == if a % 0x1000 == 0 then a else if a < SPACE - 0x1000 then a - a % 0x1000 + 0x1000 else 0
  {
    var q, r := a / 0x1000, a % 0x1000;
    var s := Plus(a, 0xFFF);
    if a + 0xFFF >= SPACE {
      assert s < 0x1000;
    } else if r == 0 {
      assert s == q * 0x1000 + 0xFFF;
    } else {
      assert s == (q + 1) * 0x1000 + (r - 1);
    }
  }

  /** `|` on 32-bit words */
  function Or32(x: Word, y: Word): Word {
    assert Pow2(32) == SPACE by { assert Pow2(10) == 0x400; assert Pow2(20) == 0x10_0000; }
    OrBound(x, y, 32);
    Or(x, y)
  }

  lemma AlignedSum(a: int, b: int)
    requires a % PAGE_SIZE == 0 && b % PAGE_SIZE == 0
    ensures (a + b) % PAGE_SIZE == 0 && (a - b) % PAGE_SIZE == 0
  {
    DivUnique(a + b, PAGE_SIZE, a / PAGE_SIZE + b / PAGE_SIZE, 0);
    DivUnique(a - b, PAGE_SIZE, a / PAGE_SIZE - b / PAGE_SIZE, 0);
  }

  predicate PageAligned(a: Word) { a % PAGE_SIZE == 0 }

  function MakeVa(dir: Word, tab: Word, off: Word): (va: nat)
    ensures va == dir % 1024 * 0x40_0000 + tab % 1024 * 0x1000 + off % 0x1000
  {
    MakeVaSum(dir, tab, off);
    Or(Or(Shl(And(dir, 0x3FF), 22), Shl(And(tab, 0x3FF), 12)), And(off, 0xFFF))
  }

  lemma MakeVaSum(dir: Word, tab: Word, off: Word)
    ensures Or(Or(Shl(And(dir, 0x3FF), 22), Shl(And(tab, 0x3FF), 12)), And(off, 0xFFF))
         == dir % 1024 * 0x40_0000 + tab % 1024 * 0x1000 + off % 0x1000
  {
    hide And, Or, Pow2;
    Powers();
    AndOnes(dir, 10);
    AndOnes(tab, 10);
    AndOnes(off, 12);
    var d, t := dir % 1024, tab % 1024;
    OrDisjoint(d, 22, t * 0x1000);
    OrDisjoint(d * 1024 + t, 12, off % 0x1000);
  }

  lemma Powers()
    ensures Pow2(7) == 0x80 && Pow2(10) == 0x400 && Pow2(12) == 0x1000 && Pow2(20) == 0x10_0000 && Pow2(22) == 0x40_0000
  {
    assert Pow2(3) == 8;
    assert Pow2(7) == 0x80;
    assert Pow2(10) == 0x400;
    assert Pow2(12) == 0x1000;
    assert Pow2(17) == 0x2_0000;
    assert Pow2(20) == 0x10_0000;
  }

  /** Splitting an address into its indices and putting it together again. */
  lemma VaRoundTrip(va: Word)
    ensures MakeVa(PdIndex(va), PtIndex(va), PteFlags(va)) == va
  {
    Recompose(va);
    Fields(va / 0x40_0000, va / 0x1000 % 1024, va % 0x1000);
  }

  lemma Recompose(va: Word)
    ensures va == va / 0x40_0000 * 0x40_0000 + va / 0x1000 % 1024 * 0x1000 + va % 0x1000
  {
    assert va / 0x1000 / 1024 == va / 0x40_0000;
  }

  /** Splitting an address built from indices gives the indices back. */
  lemma VaParts(dir: Word, tab: Word, off: Word)
    requires dir < 1024 && tab < 1024 && off < 0x1000
    ensures MakeVa(dir, tab, off) < SPACE
    ensures var va := MakeVa(dir, tab, off); PdIndex(va) == dir && PtIndex(va) == tab && PteFlags(va) == off
  {
    Fields(dir, tab, off);
  }

  lemma Fields(d: nat, t: nat, o: nat)
    requires d < 1024 && t < 1024 && o < 0x1000
    ensures d % 1024 == d && t % 1024 == t && o % 0x1000 == o
    ensures var va := d * 0x40_0000 + t * 0x1000 + o;
      va < SPACE && va / 0x40_0000 == d && va / 0x1000 % 1024 == t && va % 0x1000 == o
  {
  }

  // ---------------------------------------------------------------------------------------------
  // In plain numbers
  // ---------------------------------------------------------------------------------------------

  /** Physical memory appears at 2 GB in the kernel's address space. */
  lemma DirectMap(a: Word)
    ensures Phys(a) == (a - 0x8000_0000) % 0x1_0000_0000 && Virt(a) == (a + 0x8000_0000) % 0x1_0000_0000
    ensures Phys(Virt(a)) == a && Virt(Phys(a)) == a
  {
    WrapAround(a, 0x8000_0000);
  }
}

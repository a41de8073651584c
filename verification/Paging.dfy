/** 32-bit paging as the processor does it: section 4.3 of the Intel 64 and IA-32 Architectures
    Software Developer's Manual, Volume 3A, with CR4.PSE = 1 and 32 bits of physical address. */
module Paging {
  import opened Words
  import opened Layout
  import Bits

  /** The word at a physical address. Cells are named by kernel address, which is the physical
      address plus KERNEL_BASE. */
  function PhysWord(w: Image, pa: Word): Word { w[Virt(pa)] }

  /** What an access to a linear address comes to: no mapping, a reserved bit set in a 4 MB entry, or
      a physical address with the flags of the entry that maps it and the access rights of the path. */
  datatype Translation =
    | NotPresent
    | ReservedBit
    | Maps(pa: Word, flags: nat, writable: bool, user: bool)

  function BigPage(pde: Word, va: Word): Translation {
    if pde / 0x2000 % 0x200 != 0 then ReservedBit
    else Maps(pde - pde % 0x40_0000 + va % 0x40_0000, pde % 0x1000, Writable(pde), User(pde))
  }

  function SmallPage(pde: Word, pte: Word, va: Word): Translation {
    if !Present(pte) then NotPresent
    else Maps(pte - pte % 0x1000 + va % 0x1000, pte % 0x1000,
              Writable(pde) && Writable(pte), User(pde) && User(pte))
  }

  predicate Present(e: Word) { e % 2 == 1 }
  predicate Writable(e: Word) { e / 2 % 2 == 1 }
  predicate User(e: Word) { e / 4 % 2 == 1 }
  predicate Big(e: Word) { e / 0x80 % 2 == 1 }

  /** The walk from the directory whose physical address is in cr3. */
  function Walk(w: Image, cr3: Word, va: Word): Translation {
    var pde := PhysWord(w, cr3 - cr3 % 0x1000 + 4 * (va / 0x40_0000));
    if !Present(pde) then NotPresent
    else if Big(pde) then BigPage(pde, va)
    else SmallPage(pde, PhysWord(w, pde - pde % 0x1000 + 4 * (va / 0x1000 % 1024)), va)
  }

  // ---------------------------------------------------------------------------------------------
  // The same walk as the kernel sees it
  // ---------------------------------------------------------------------------------------------

  /** Entry i of the directory or table in the page at t. */
  function EntryAt(t: Word, i: nat): Word
    requires i < 1024
  {
    Plus(t, 4 * i)
  }

  function Pde(w: Image, d: Word, i: nat): Word
    requires i < 1024
  {
    w[EntryAt(d, i)]
  }

  function TableOf(w: Image, d: Word, i: nat): (t: Word)
    requires i < 1024
  {
    Virt(Pde(w, d, i) - Pde(w, d, i) % PAGE_SIZE)
  }

  /** The word for address va in the page its directory slot names as a table, whatever that page is. */
  function TableWord(w: Image, d: Word, va: Word): Word { w[EntryAt(TableOf(w, d, PdIndex(va)), PtIndex(va))] }

  /** The walk from the directory in the page at kernel address d. */
  function Translate(w: Image, d: Word, va: Word): Translation {
    var pde := Pde(w, d, PdIndex(va));
    if !Present(pde) then NotPresent
    else if Big(pde) then BigPage(pde, va)
    else SmallPage(pde, TableWord(w, d, va), va)
  }

  lemma PhysVirt(d: Word, k: nat)
    requires PageAligned(d) && k < PAGE_SIZE
    ensures Phys(d) % PAGE_SIZE == 0 && Virt(Phys(d)) == d && Phys(Virt(d)) == d && PageAligned(Virt(d))
    ensures Phys(d) + k < SPACE && Virt(Phys(d) + k) == Plus(d, k) && d + k < SPACE
    ensures d + k < SPACE && Virt(d + k) == Plus(Virt(d), k)
  {
  }

  /** Loading CR3 with the physical address of a directory page makes the processor walk it. */
  lemma WalkIs(w: Image, d: Word, va: Word)
    requires PageAligned(d)
    ensures Walk(w, Phys(d), va) == Translate(w, d, va)
  {
    hide BigPage, SmallPage, Present, Big;
    PhysVirt(d, 4 * PdIndex(va));
    var pde := Pde(w, d, PdIndex(va));
    PhysVirt(pde - pde % 0x1000, 4 * PtIndex(va));
  }

  /** Where the fields of an entry are (tables 4-4 to 4-6 of the manual): present in bit 0, write access
      in bit 1, user access in bit 2, the 4 MB flag in bit 7. */
  lemma EntryBits(e: Word)
    ensures Present(e) == Bits.Bit(e, 0) && Writable(e) == Bits.Bit(e, 1)
    ensures User(e) == Bits.Bit(e, 2) && Big(e) == Bits.Bit(e, 7)
  {
    Bits.ShrDivides(e, 1);
    Bits.ShrDivides(e, 2);
    Bits.ShrDivides(e, 7);
    Powers();
    assert Bits.Pow2(1) == 2 && Bits.Pow2(2) == 4;
  }

  /** A 4 MB entry is malformed exactly when one of its bits 13 to 21 is set; a good one maps the 4 MB
      from the address in its upper ten bits on. */
  lemma BigBits(e: Word, va: Word)
    ensures BigPage(e, va) == ReservedBit <==> exists k :: 13 <= k < 22 && Bits.Bit(e, k)
    ensures BigPage(e, va).Maps? ==> BigPage(e, va).pa == e / 0x40_0000 * 0x40_0000 + va % 0x40_0000
  {
    Bits.ShrDivides(e, 13);
    Bits.FieldClear(e, 13, 9);
    Powers();
    assert Bits.Pow2(13) == 0x2000 && Bits.Pow2(9) == 0x200;
  }
}

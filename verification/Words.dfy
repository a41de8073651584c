/** The 32-bit machine word and the memory the kernel edits. */
module Words {

  const SPACE: int := 0x1_0000_0000

  type Word = x: int | 0 <= x < SPACE

  /** What memory holds. Cell `a` is the 32-bit word whose first byte has kernel address `a`.
      The kernel only touches word-aligned cells (`Ram` insists on it), so cells never overlap. */
  type Image = w: seq<Word> | |w| == SPACE ghost witness seq(SPACE, _ => 0)

  /** 32-bit addition and subtraction, with wrap-around. */
  function Plus(a: Word, k: Word): Word {
    if a + k < SPACE then a + k else a + k - SPACE
  }

  function Minus(a: Word, k: Word): Word {
    if k <= a then a - k else a - k + SPACE
  }

  lemma WrapAround(a: Word, k: Word)
    ensures Plus(a, k) == (a + k) % 0x1_0000_0000 && Minus(a, k) == (a - k) % 0x1_0000_0000
  {
  }

  /** The memory itself, read and written in place a word at a time. */
  class Ram {
    var cells: Image

    constructor (image: Image)
      ensures cells == image
    {
      cells := image;
    }

    method Load(a: Word) returns (v: Word)
      requires a % 4 == 0
      ensures v == cells[a]
    {
      v := cells[a];
    }

    method Store(a: Word, v: Word)
      requires a % 4 == 0
      modifies this
      ensures cells == old(cells)[a := v]
    {
      cells := cells[a := v];
    }
  }
}

/** Bitwise operators on naturals, bit by bit, and the arithmetic they amount to. */
module Bits {

  function Pow2(k: nat): (r: nat)
    ensures r > 0
  {
    if k == 0 then 1 else 2 * Pow2(k - 1)
  }

  function Shr(x: nat, k: nat): nat
    decreases x, k
  {
    if k == 0 then x else Shr(x / 2, k - 1)
  }

  function Shl(x: nat, k: nat): (r: nat)
    ensures r == x * Pow2(k)
  {
    NonNegative(x, Pow2(k));
    x * Pow2(k)
  }

  lemma NonNegative(x: int, y: int)
    requires x >= 0 && y >= 0
    ensures x * y >= 0
  {
  }

  function And(x: nat, y: nat): nat {
    if x == 0 || y == 0 then 0 else 2 * And(x / 2, y / 2) + (if x % 2 == 1 && y % 2 == 1 then 1 else 0)
  }

  function Or(x: nat, y: nat): nat {
    if x == 0 then y else if y == 0 then x
    else 2 * Or(x / 2, y / 2) + (if x % 2 == 1 || y % 2 == 1 then 1 else 0)
  }

  /** Bit k of x. */
  predicate Bit(x: nat, k: nat) { Shr(x, k) % 2 == 1 }

  lemma {:induction false} ShrDivides(x: nat, k: nat)
    ensures Shr(x, k) == x / Pow2(k)
    decreases k
  {
    if k == 0 {
      assert Pow2(0) == 1;
    } else {
      ShrDivides(x / 2, k - 1);
      HalfDiv(x, Pow2(k - 1));
    }
  }

  lemma HalfDiv(x: nat, p: int)
    requires p > 0
    ensures x / 2 / p == x / (2 * p)
  {
    var h, q := x / 2, x / 2 / p;
    assert h == p * q + h % p;
    assert 2 * (p * q) == (2 * p) * q;
    DivUnique(x, 2 * p, q, 2 * (h % p) + x % 2);
  }

  lemma DivUnique(x: int, p: int, q: int, r: int)
    requires p > 0 && x == p * q + r && 0 <= r < p
    ensures x / p == q && x % p == r
  {
    var d: int := x / p - q;
    assert p * d == r - x % p;
    Multiple(p, d);
  }

  lemma Multiple(p: int, d: int)
    requires p > 0
    ensures d >= 1 ==> p * d >= p
    ensures d <= -1 ==> p * d <= -p
  {
  }

  lemma {:induction false} AndBit(x: nat, y: nat, k: nat)
    ensures Bit(And(x, y), k) == (Bit(x, k) && Bit(y, k))
    decreases k
  {
    ZeroShift(k);
    if x != 0 && y != 0 && k > 0 {
      AndBit(x / 2, y / 2, k - 1);
    }
  }

  lemma {:induction false} OrBit(x: nat, y: nat, k: nat)
    ensures Bit(Or(x, y), k) == (Bit(x, k) || Bit(y, k))
    decreases k
  {
    ZeroShift(k);
    if x != 0 && y != 0 && k > 0 {
      OrBit(x / 2, y / 2, k - 1);
    }
  }

  lemma {:induction false} ZeroShift(k: nat)
    ensures Shr(0, k) == 0
    decreases k
  {
    if k > 0 { ZeroShift(k - 1); }
  }

  lemma ModHalf(x: nat, p: nat)
    requires p > 0
    ensures x % (2 * p) == 2 * (x / 2 % p) + x % 2
  {
    var h := x / 2;
    assert h == p * (h / p) + h % p;
    assert x == (2 * p) * (h / p) + (2 * (h % p) + x % 2) by {
      assert 2 * (p * (h / p)) == (2 * p) * (h / p);
    }
    DivUnique(x, 2 * p, h / p, 2 * (h % p) + x % 2);
  }

  lemma AndStep(x: nat, y: nat)
    ensures And(x, y) == 2 * And(x / 2, y / 2) + (if x % 2 == 1 && y % 2 == 1 then 1 else 0)
  {
  }

  /** Masking with k ones is taking the remainder. */
  lemma {:induction false} AndOnes(x: nat, k: nat)
    ensures And(x, Pow2(k) - 1) == x % Pow2(k)
    decreases k
  {
    if k == 0 {
      assert Pow2(0) == 1;
    } else {
      hide And;
      var p, m: nat := Pow2(k - 1), Pow2(k) - 1;
      AndOnes(x / 2, k - 1);
      assert m / 2 == p - 1 && m % 2 == 1;
      AndStep(x, m);
      ModHalf(x, p);
    }
  }

  /** Extracting the j bits from bit k on. */
  lemma Field(x: nat, k: nat, j: nat)
    ensures And(Shr(x, k), Pow2(j) - 1) == x / Pow2(k) % Pow2(j)
  {
    ShrDivides(x, k);
    AndOnes(Shr(x, k), j);
  }

  lemma AndDouble(x: nat, y: nat)
    ensures And(x, 2 * y) == 2 * And(x / 2, y)
  {
    var z := 2 * y;
    assert z / 2 == y && z % 2 == 0;
    AndStep(x, z);
  }

  /** Masking with m shifted up by k looks only at the bits from k on. */
  lemma {:induction false} AndShifted(x: nat, m: nat, k: nat, y: nat)
    requires y == m * Pow2(k)
    ensures And(x, y) == And(Shr(x, k), m) * Pow2(k)
    decreases k
  {
    if k == 0 {
      assert Pow2(0) == 1;
    } else {
      var p, q := Pow2(k - 1), Pow2(k);
      var h, z := x / 2, y / 2;
      Doubled(y, m, p, q);
      AndShifted(h, m, k - 1, z);
      AndDouble(x, z);
      Doubled(2 * And(h, z), And(Shr(x, k), m), p, q);
    }
  }

  lemma SmallQuotient(x: int, p: int, n: int)
    requires p > 0 && 0 <= x < n * p
    ensures x / p % n == x / p && x / p * p == x - x % p
  {
    var q := x / p;
    assert x == p * q + x % p;
    assert (n - 1 - q) * p > -p by { assert (n - 1 - q) * p == n * p - p - p * q; }
    Multiple(p, n - 1 - q);
    Multiple(p, q);
    assert p * (n - 1 - q) == (n - 1 - q) * p;
    DivUnique(q, n, 0, q);
  }

  /** Clearing the low k bits of a number of at most k + j bits. */
  lemma ClearLow(x: nat, k: nat, j: nat, mask: nat)
    requires mask == (Pow2(j) - 1) * Pow2(k) && x < Pow2(j) * Pow2(k)
    ensures And(x, mask) == x - x % Pow2(k)
  {
    AndShifted(x, Pow2(j) - 1, k, mask);
    Field(x, k, j);
    SmallQuotient(x, Pow2(k), Pow2(j));
  }

  lemma Doubled(y: nat, m: nat, p: nat, q: nat)
    requires q == 2 * p
    ensures m * q == 2 * (m * p) && (y == m * q ==> y / 2 == m * p && y == 2 * (y / 2))
  {
    assert m * q == 2 * (m * p);
  }

  lemma OrStep(x: nat, y: nat)
    ensures Or(x, y) == 2 * Or(x / 2, y / 2) + (if x % 2 == 1 || y % 2 == 1 then 1 else 0)
  {
    assert Or(x / 2, 0) == x / 2 && Or(0, y / 2) == y / 2;
  }

  /** `|` with a number below 2^k leaves the bits from k on alone. */
  lemma {:induction false} OrLow(h: nat, x: nat, y: nat, k: nat, z: nat)
    requires x < Pow2(k) && y < Pow2(k) && z == h * Pow2(k)
    ensures Or(z + x, y) == z + Or(x, y)
    decreases k
  {
    if k == 0 {
      assert Or(z, 0) == z;
    } else {
      Doubled(z, h, Pow2(k - 1), Pow2(k));
      OrLow(h, x / 2, y / 2, k - 1, z / 2);
      OrStep(z + x, y);
      OrStep(x, y);
    }
  }

  lemma {:induction false} OrSwap(x: nat, y: nat)
    ensures Or(x, y) == Or(y, x)
    decreases x
  {
    if x != 0 && y != 0 { OrSwap(x / 2, y / 2); }
  }

  lemma {:induction false} OrAgain(x: nat, y: nat)
    ensures Or(Or(x, y), x) == Or(x, y)
    decreases x
  {
    if x != 0 {
      OrAgain(x / 2, y / 2);
      OrStep(x, y);
      OrStep(Or(x, y), x);
    }
  }

  /** Parts that share no bits are added by `|`. */
  lemma OrDisjoint(h: nat, k: nat, y: nat)
    requires y < Pow2(k)
    ensures Or(h * Pow2(k), y) == h * Pow2(k) + y
  {
    OrLow(h, 0, y, k, h * Pow2(k));
  }

  lemma {:induction false} OrBound(x: nat, y: nat, k: nat)
    requires x < Pow2(k) && y < Pow2(k)
    ensures Or(x, y) < Pow2(k)
    decreases k
  {
    if x != 0 && y != 0 {
      OrBound(x / 2, y / 2, k - 1);
    }
  }

  lemma OrOne(x: nat)
    ensures Or(x, 1) == x + 1 - x % 2
  {
    if x != 0 {
      assert Or(x / 2, 0) == x / 2;
    }
  }

  lemma AndOne(x: nat)
    ensures And(x, 1) == x % 2
  {
    if x != 0 {
      assert And(x / 2, 0) == 0;
    }
  }

  /** A field of n bits from bit k on is zero exactly when all its bits are. */
  lemma {:induction false} FieldClear(x: nat, k: nat, n: nat)
    ensures x / Pow2(k) % Pow2(n) == 0 <==> forall j :: k <= j < k + n ==> !Bit(x, j)
    decreases n
  {
    ShrDivides(x, k);
    if n == 0 {
      assert Pow2(0) == 1;
    } else {
      ShrMore(x, k);
      ShrDivides(x, k + 1);
      FieldClear(x, k + 1, n - 1);
      ModHalf(Shr(x, k), Pow2(n - 1));
      assert Bit(x, k) == (Shr(x, k) % 2 == 1);
      assert (forall j :: k <= j < k + n ==> !Bit(x, j))
        <==> !Bit(x, k) && forall j :: k + 1 <= j < k + 1 + (n - 1) ==> !Bit(x, j);
    }
  }

  lemma {:induction false} ShrMore(x: nat, k: nat)
    ensures Shr(x, k + 1) == Shr(x, k) / 2
    decreases k
  {
    if k > 0 { ShrMore(x / 2, k - 1); }
  }
}

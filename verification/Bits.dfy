/** Bitwise operators on unsigned words, defined bit by bit, and the
    arithmetic they amount to for the masks that the memory stack uses. */
module Bits {
  import opened Machine

  function Pow2(k: nat): (p: nat)
    ensures p > 0
  {
    if k == 0 then 1 else 2 * Pow2(k - 1)
  }

  // x & y
  function And(x: nat, y: nat): (r: nat)
    ensures r <= x && r <= y
  {
    if x == 0 || y == 0 then 0
    else (if x % 2 == 1 && y % 2 == 1 then 1 else 0) + 2 * And(x / 2, y / 2)
  }

  // x | y
  function Or(x: nat, y: nat): (r: nat)
    ensures x <= r <= x + y && y <= r
  {
    if x == 0 then y
    else if y == 0 then x
    else (if x % 2 + y % 2 > 0 then 1 else 0) + 2 * Or(x / 2, y / 2)
  }

  // ~x on 64 bits
  function Not64(x: Word): Word { TWO64 - 1 - x }

  lemma MulGap(a: nat, b: nat, d: nat)
    requires a < b
    ensures a * d + d <= b * d
  {
    assert b * d == (a + 1) * d + (b - a - 1) * d;
  }

  lemma DivModUnique(x: nat, d: nat, q: nat, r: nat)
    requires d > 0 && x == q * d + r && r < d
    ensures x / d == q && x % d == r
  {
    var q', r' := x / d, x % d;
    assert q' * d + r' == q * d + r;
    if q < q' {
      MulGap(q, q', d);
    } else if q' < q {
      MulGap(q', q, d);
    }
  }

  lemma HalvedMod(x: nat, p: nat)
    requires p > 0
    ensures x % (2 * p) == x % 2 + 2 * (x / 2 % p)
    ensures x / (2 * p) == x / 2 / p
  {
    var h := x / 2;
    assert h == h / p * p + h % p;
    assert x == (h / p) * (2 * p) + (x % 2 + 2 * (h % p));
    DivModUnique(x, 2 * p, h / p, x % 2 + 2 * (h % p));
  }

  lemma OddMask(x: nat, n: nat)
    ensures And(x, 2 * n + 1) == x % 2 + 2 * And(x / 2, n)
  {
    var m := 2 * n + 1;
    assert m / 2 == n && m % 2 == 1;
    AndHalves(x, m);
  }

  // the low k bits of x
  function LowBits(x: nat, k: nat): nat {
    if k == 0 then 0 else x % 2 + 2 * LowBits(x / 2, k - 1)
  }

  lemma {:induction false} LowBitsIsMod(x: nat, k: nat)
    ensures LowBits(x, k) == x % Pow2(k)
  {
    if k > 0 {
      LowBitsIsMod(x / 2, k - 1);
      HalvedMod(x, Pow2(k - 1));
    }
  }

  lemma {:induction false} AndLowBits(x: nat, k: nat)
    ensures And(x, Pow2(k) - 1) == LowBits(x, k)
  {
    if k > 0 {
      AndLowBits(x / 2, k - 1);
      OddMask(x, Pow2(k - 1) - 1);
    }
  }

  // x & (2^k - 1) keeps the low k bits.
  lemma AndLowMask(x: nat, k: nat)
    ensures And(x, Pow2(k) - 1) == x % Pow2(k)
  {
    AndLowBits(x, k);
    LowBitsIsMod(x, k);
  }

  // x << k and x >> k
  function Shl(x: nat, k: nat): nat {
    if k == 0 then x else 2 * Shl(x, k - 1)
  }

  function Shr(x: nat, k: nat): nat {
    if k == 0 then x else Shr(x / 2, k - 1)
  }

  lemma {:induction false} ShiftsAreArithmetic(x: nat, k: nat)
    ensures Shl(x, k) == x * Pow2(k)
    ensures Shr(x, k) == x / Pow2(k)
  {
    if k > 0 {
      ShiftsAreArithmetic(x, k - 1);
      ShiftsAreArithmetic(x / 2, k - 1);
      Doubling(x, Pow2(k - 1));
      HalvedMod(x, Pow2(k - 1));
    }
  }

  // A mask that starts at bit k only sees the bits from k upwards.
  lemma {:induction false} AndShiftedMask(x: nat, m: nat, k: nat)
    ensures And(x, Shl(m, k)) == Shl(And(Shr(x, k), m), k)
  {
    if k > 0 {
      AndShiftedMask(x / 2, m, k - 1);
      AndEvenMask(x, Shl(m, k - 1));
    }
  }

  lemma Doubling(m: nat, p: nat)
    ensures m * (2 * p) == 2 * (m * p)
  {
  }

  lemma AndEvenMask(x: nat, n: nat)
    ensures And(x, 2 * n) == 2 * And(x / 2, n)
  {
    var m := 2 * n;
    assert m / 2 == n && m % 2 == 0;
    AndHalves(x, m);
  }

  // A mask and its complement split a word.
  lemma {:induction false} AndSplits(x: nat, m: nat, k: nat)
    requires x < Pow2(k) && m < Pow2(k)
    ensures And(x, m) + And(x, Pow2(k) - 1 - m) == x
  {
    if k > 0 {
      var c := Pow2(k) - 1 - m;
      assert c / 2 == Pow2(k - 1) - 1 - m / 2 && c % 2 == 1 - m % 2;
      AndSplits(x / 2, m / 2, k - 1);
      AndHalves(x, m);
      AndHalves(x, c);
    }
  }

  // Pieces taken from either side of a mask: | is + for them, and each side
  // reads its own piece back.
  lemma {:induction false} OrOfPieces(x: nat, y: nat, m: nat, k: nat)
    requires x < Pow2(k) && y < Pow2(k) && m < Pow2(k)
    requires And(x, m) == x && And(y, m) == 0
    ensures Or(x, y) == x + y < Pow2(k)
    ensures And(x + y, m) == x
  {
    hide And, Or;
    if k == 0 {
      OrZero(0);
    } else {
      AndHalves(x, m);
      AndHalves(y, m);
      OrOfPieces(x / 2, y / 2, m / 2, k - 1);
      OrHalves(x, y);
      assert (x + y) / 2 == x / 2 + y / 2 && (x + y) % 2 == x % 2 + y % 2;
      AndHalves(x + y, m);
    }
  }

  lemma AndHalves(x: nat, y: nat)
    ensures And(x, y) == (if x % 2 == 1 && y % 2 == 1 then 1 else 0) + 2 * And(x / 2, y / 2)
  {
  }

  lemma OrHalves(x: nat, y: nat)
    ensures Or(x, y) == (if x % 2 + y % 2 > 0 then 1 else 0) + 2 * Or(x / 2, y / 2)
  {
  }

  // align_up(v, a) and align_down(v, a) for a power of two a
  function AlignUp(v: Word, a: Word): nat
    requires a > 0
  {
    And((v + a - 1) % TWO64, Not64(a - 1))
  }

  function AlignDown(v: Word, a: Word): nat
    requires a > 0
  {
    And(v, Not64(a - 1))
  }

  lemma AndNotSplits(x: Word, m: Word)
    ensures And(x, m) + And(x, Not64(m)) == x
  {
    PowerTable();
    AndSplits(x, m, 64);
  }

  lemma AlignDownMeaning(v: Word, k: nat)
    requires Pow2(k) < TWO64
    ensures AlignDown(v, Pow2(k)) == v - v % Pow2(k)
  {
    AndNotSplits(v, Pow2(k) - 1);
    AndLowMask(v, k);
  }

  lemma PowerTable()
    ensures Pow2(4) == 16 && Pow2(12) == 0x1000 && Pow2(40) == 0x100_0000_0000
    ensures Pow2(64) == TWO64
  {
    assert Pow2(8) == 0x100 && Pow2(16) == 0x1_0000 && Pow2(24) == 0x100_0000;
    assert Pow2(32) == 0x1_0000_0000 && Pow2(40) == 0x100_0000_0000;
    assert Pow2(48) == 0x1_0000_0000_0000 && Pow2(56) == 0x100_0000_0000_0000;
  }

  lemma AlignDownPage(v: Word)
    ensures AlignDown(v, 4096) == v / 4096 * 4096
  {
    assert Pow2(12) == 4096 by { PowerTable(); }
    AlignDownMeaning(v, 12);
  }

  lemma PageAlignment(v: Word)
    requires v + 4096 - 1 < TWO64
    ensures AlignUp(v, 4096) == (v + 4096 - 1) / 4096 * 4096
  {
    AlignDownPage(v + 4096 - 1);
  }

  lemma RequestAlignment(v: Word)
    requires v + 16 - 1 < TWO64
    ensures AlignUp(v, 16) == (v + 16 - 1) / 16 * 16
  {
    assert Pow2(4) == 16;
    AlignDownMeaning(v + 16 - 1, 4);
  }

  // The guard of an overflow-checked product.
  lemma OverflowCheck(n: nat, size: nat, max: nat)
    requires n > 0
    ensures size > max / n <==> n * size > max
  {
    var q := max / n;
    assert max == q * n + max % n;
    if size > q {
      MulGap(q, size, n);
    } else if size < q {
      MulGap(size, q, n);
    }
  }

  // What a mask removes, the mask no longer sees.
  lemma {:induction false} AndComplement(x: nat, m: nat, k: nat)
    requires x < Pow2(k) && m < Pow2(k)
    ensures And(And(x, Pow2(k) - 1 - m), m) == 0
  {
    if k > 0 {
      var c := Pow2(k) - 1 - m;
      assert c / 2 == Pow2(k - 1) - 1 - m / 2 && c % 2 == 1 - m % 2;
      AndComplement(x / 2, m / 2, k - 1);
      AndHalves(x, c);
      AndHalves(And(x, c), m);
    }
  }

  lemma ShlOne(k: nat)
    ensures Shl(1, k) == Pow2(k)
  {
    ShiftsAreArithmetic(1, k);
  }

  lemma AndOne(x: nat)
    ensures And(x, 1) == x % 2
  {
    assert Pow2(1) == 2;
    AndLowMask(x, 1);
  }

  // x & 2^k tests bit k.
  lemma AndBit(x: nat, k: nat)
    ensures And(x, Pow2(k)) == x / Pow2(k) % 2 * Pow2(k)
  {
    ShlOne(k);
    AndShiftedMask(x, 1, k);
    ShrIsDiv(x, k);
    AndOne(Shr(x, k));
    ShlIsMul(And(Shr(x, k), 1), k);
  }

  lemma ShrIsDiv(x: nat, k: nat)
    ensures Shr(x, k) == x / Pow2(k)
  {
    ShiftsAreArithmetic(x, k);
  }

  lemma ShlIsMul(x: nat, k: nat)
    ensures Shl(x, k) == x * Pow2(k)
  {
    ShiftsAreArithmetic(x, k);
  }

  lemma OrParts(x: nat, y: nat)
    ensures Or(x, y) % 2 == if x % 2 + y % 2 > 0 then 1 else 0
    ensures Or(x, y) / 2 == Or(x / 2, y / 2)
  {
    OrHalves(x, y);
  }

  lemma OrZero(x: nat)
    ensures Or(x, 0) == x && Or(0, x) == x
  {
  }

  lemma {:induction false} OrAssoc(x: nat, y: nat, z: nat)
    ensures Or(Or(x, y), z) == Or(x, Or(y, z))
    decreases x + y + z
  {
    OrParts(x, y);
    OrParts(y, z);
    OrParts(Or(x, y), z);
    OrParts(x, Or(y, z));
    OrZero(x);
    OrZero(y);
    OrZero(z);
    OrZero(Or(x, y));
    OrZero(Or(y, z));
    if x > 0 && y > 0 && z > 0 {
      OrAssoc(x / 2, y / 2, z / 2);
    }
  }
}

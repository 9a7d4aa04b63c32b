/** Bitwise arithmetic on unsigned machine words held as naturals.

The kernel masks, tests and combines 64-bit words with `&`, `|`, `~` and shifts.
Here a word is a natural below 2^64 and the operators are defined digit by digit,
so that a mask in the source is the same literal mask in the model. */
module Bits {

  const WORD_LIMIT: nat := 0x1_0000_0000_0000_0000

  /** A 64-bit machine word. */
  type Word = w: nat | w < WORD_LIMIT

  function Pow2(k: nat): (r: nat)
    ensures r >= 1
  {
    if k == 0 then 1 else 2 * Pow2(k - 1)
  }

  /** Bit `k` of `a`. */
  predicate Bit(a: nat, k: nat) {
    if k == 0 then a % 2 == 1 else Bit(a / 2, k - 1)
  }

  function And(a: nat, b: nat): nat {
    if a == 0 || b == 0 then 0
    else 2 * And(a / 2, b / 2) + (if a % 2 == 1 && b % 2 == 1 then 1 else 0)
  }

  function Or(a: nat, b: nat): nat {
    if a == 0 then b else if b == 0 then a
    else 2 * Or(a / 2, b / 2) + (if a % 2 == 1 || b % 2 == 1 then 1 else 0)
  }

  function Shl(a: nat, s: nat): nat {
    if s == 0 then a else 2 * Shl(a, s - 1)
  }

  function Shr(a: nat, s: nat): nat {
    if s == 0 then a else Shr(a / 2, s - 1)
  }

  /** `~a` on 64 bits. */
  function Not(a: Word): Word {
    WORD_LIMIT - 1 - a
  }

  lemma {:induction false} ZeroBit(k: nat)
    ensures !Bit(0, k)
  {
    if k > 0 { ZeroBit(k - 1); }
  }

  lemma {:induction false} AndBit(a: nat, b: nat, k: nat)
    ensures Bit(And(a, b), k) <==> Bit(a, k) && Bit(b, k)
  {
    if a == 0 || b == 0 {
      ZeroBit(k);
    } else {
      hide And;
      AndHalf(a, b);
      if k > 0 { AndBit(a / 2, b / 2, k - 1); }
    }
  }

  lemma AndHalf(a: nat, b: nat)
    ensures And(a, b) / 2 == And(a / 2, b / 2)
    ensures And(a, b) % 2 == 1 <==> a % 2 == 1 && b % 2 == 1
  {
  }

  lemma OrHalf(a: nat, b: nat)
    ensures Or(a, b) / 2 == Or(a / 2, b / 2)
    ensures Or(a, b) % 2 == 1 <==> a % 2 == 1 || b % 2 == 1
  {
  }

  lemma {:induction false} OrBit(a: nat, b: nat, k: nat)
    ensures Bit(Or(a, b), k) <==> Bit(a, k) || Bit(b, k)
  {
    if a == 0 || b == 0 {
      ZeroBit(k);
    } else {
      hide Or;
      OrHalf(a, b);
      if k > 0 { OrBit(a / 2, b / 2, k - 1); }
    }
  }

  /** A number is determined by its bits. */
  lemma {:induction false} Extensional(a: nat, b: nat)
    requires forall k: nat :: Bit(a, k) == Bit(b, k)
    ensures a == b
    decreases a + b
  {
    assert Bit(a, 0) == Bit(b, 0);
    if a > 0 || b > 0 {
      forall k: nat ensures Bit(a / 2, k) == Bit(b / 2, k) {
        assert Bit(a, k + 1) == Bit(b, k + 1);
      }
      Extensional(a / 2, b / 2);
    }
  }

  lemma {:induction false} Pow2Bit(b: nat, k: nat)
    ensures Bit(Pow2(b), k) <==> k == b
  {
    if b == 0 {
      if k > 0 { ZeroBit(k - 1); }
    } else if k > 0 {
      assert Pow2(b) / 2 == Pow2(b - 1);
      Pow2Bit(b - 1, k - 1);
    }
  }

  /** A number below 2^n has no bit at or above `n`... */
  lemma {:induction false} HighBitsClear(a: nat, n: nat, k: nat)
    requires a < Pow2(n) && k >= n
    ensures !Bit(a, k)
  {
    if n == 0 {
      ZeroBit(k);
    } else {
      HighBitsClear(a / 2, n - 1, k - 1);
    }
  }

  /** ...and conversely. */
  lemma {:induction false} BoundFromBits(a: nat, n: nat)
    requires forall k: nat :: k >= n ==> !Bit(a, k)
    ensures a < Pow2(n)
    decreases n
  {
    if n == 0 {
      if a > 0 { var k := HighBit(a); }
    } else {
      forall k: nat | k >= n - 1 ensures !Bit(a / 2, k) { assert Bit(a, k + 1) == Bit(a / 2, k); }
      BoundFromBits(a / 2, n - 1);
    }
  }

  lemma {:induction false} HighBit(a: nat) returns (k: nat)
    requires a > 0
    ensures Bit(a, k)
  {
    if a % 2 == 1 {
      k := 0;
    } else {
      k := HighBit(a / 2);
      k := k + 1;
    }
  }

  lemma Pow2At64()
    ensures Pow2(64) == WORD_LIMIT
  {
    Pow2At16();
    Pow2Sum(16, 16);
    Pow2Sum(32, 32);
  }

  lemma Pow2At16()
    ensures Pow2(16) == 0x1_0000
  {
    assert Pow2(4) == 16;
    Pow2Sum(4, 4);
    Pow2Sum(8, 8);
  }

  lemma {:induction false} Pow2Sum(a: nat, b: nat)
    ensures Pow2(a + b) == Pow2(a) * Pow2(b)
  {
    if a > 0 { Pow2Sum(a - 1, b); }
  }

  lemma {:induction false} Pow2Below(a: nat, b: nat)
    requires a < b
    ensures Pow2(a) < Pow2(b)
  {
    if b > a + 1 { Pow2Below(a, b - 1); }
  }

  lemma {:induction false} NotBitAux(a: nat, n: nat, k: nat)
    requires a < Pow2(n) && k < n
    ensures Bit(Pow2(n) - 1 - a, k) <==> !Bit(a, k)
  {
    var p := Pow2(n - 1);
    assert Pow2(n) == 2 * p;
    hide Pow2;
    Complement(p, a);
    if k > 0 { NotBitAux(a / 2, n - 1, k - 1); }
  }

  lemma Complement(p: nat, a: nat)
    requires a < 2 * p
    ensures (2 * p - 1 - a) / 2 == p - 1 - a / 2 && (2 * p - 1 - a) % 2 == 1 - a % 2 && a / 2 < p
  {
  }

  lemma NotBit(a: Word, k: nat)
    requires k < 64
    ensures Bit(Not(a), k) <==> !Bit(a, k)
  {
    Pow2At64();
    NotBitAux(a, 64, k);
  }

  /** `w & (1 << k)` tests bit `k`. */
  lemma AndPow2(a: nat, k: nat)
    ensures And(a, Pow2(k)) != 0 <==> Bit(a, k)
  {
    AndBit(a, Pow2(k), k);
    Pow2Bit(k, k);
    if And(a, Pow2(k)) != 0 {
      var j := HighBit(And(a, Pow2(k)));
      AndBit(a, Pow2(k), j);
      Pow2Bit(k, j);
    } else {
      ZeroBit(k);
    }
  }

  lemma ModHalf(a: nat, n: nat)
    requires n > 0
    ensures a % Pow2(n) % 2 == a % 2
    ensures a % Pow2(n) / 2 == a / 2 % Pow2(n - 1)
  {
    assert Pow2(n) == 2 * Pow2(n - 1);
    hide Pow2;
    DoubledMod(a, Pow2(n - 1));
  }

  /** Dividing by twice a number is halving first. */
  lemma DoubledMod(a: nat, p: nat)
    requires p > 0
    ensures a / (2 * p) == a / 2 / p
    ensures a % (2 * p) == 2 * (a / 2 % p) + a % 2
    ensures a % (2 * p) % 2 == a % 2 && a % (2 * p) / 2 == a / 2 % p
  {
    var q, r := a / 2 / p, a / 2 % p;
    assert a / 2 == q * p + r;
    Doubled(a, p, q, r);
    ModUnique(a, 2 * p, q, 2 * r + a % 2);
  }

  lemma Doubled(a: nat, p: nat, q: nat, r: nat)
    requires a / 2 == q * p + r
    ensures a == q * (2 * p) + (2 * r + a % 2)
  {
    assert q * (2 * p) == 2 * (q * p);
  }

  lemma ModUnique(a: nat, m: int, q: nat, r: nat)
    requires a == q * m + r && r < m
    ensures a / m == q && a % m == r
  {
    var d: int := a / m - q;
    assert d * m == r - a % m;
    assert d >= 1 ==> d * m >= m;
    assert d <= -1 ==> d * m <= -m;
  }

  lemma DivHalf(a: nat, s: nat)
    requires s > 0
    ensures a / Pow2(s) == a / 2 / Pow2(s - 1)
  {
    assert Pow2(s) == 2 * Pow2(s - 1);
    hide Pow2;
    DoubledMod(a, Pow2(s - 1));
  }

  /** Bit `k` by division. */
  lemma {:induction false} BitByDiv(a: nat, k: nat)
    ensures Bit(a, k) <==> a / Pow2(k) % 2 == 1
  {
    if k > 0 {
      DivHalf(a, k);
      BitByDiv(a / 2, k - 1);
    }
  }

  /** Or-ing in a single clear bit adds its weight. */
  lemma OrPow2(a: nat, k: nat)
    requires !Bit(a, k)
    ensures Or(a, Pow2(k)) == a + Pow2(k)
  {
    AndPow2(a, k);
    OrDisjoint(a, Pow2(k));
  }

  /** Masking with `n` ones keeps the remainder modulo 2^n. */
  lemma {:induction false} AndOnes(a: nat, n: nat)
    ensures And(a, Pow2(n) - 1) == a % Pow2(n)
  {
    if n > 0 {
      ModHalf(a, n);
      assert (Pow2(n) - 1) / 2 == Pow2(n - 1) - 1;
      AndOnes(a / 2, n - 1);
    }
  }

  /** A mask shifted up by `s` masks the number shifted down by `s`. */
  lemma {:induction false} AndShift(a: nat, b: nat, s: nat)
    ensures And(a, Shl(b, s)) == Shl(And(Shr(a, s), b), s)
  {
    if s > 0 {
      assert And(a, 2 * Shl(b, s - 1)) == 2 * And(a / 2, Shl(b, s - 1));
      AndShift(a / 2, b, s - 1);
    }
  }

  /** Shifts by twelve, the page-offset width. */
  lemma Shift12(a: nat)
    ensures Shl(a, 12) == a * 4096 && Shr(a, 12) == a / 4096
  {
    Shift4(a, 8);
    Shift4(a, 4);
    Shift4(a, 0);
    assert Shl(a, 12) == 16 * (16 * Shl(a, 4));
    Shift4(a / 16, 4);
    Shift4(a / 16 / 16, 0);
    assert Shr(a, 12) == Shr(a / 16 / 16, 4);
  }

  lemma Shift4(a: nat, s: nat)
    ensures Shl(a, s + 4) == 16 * Shl(a, s) && Shr(a, s + 4) == Shr(a / 16, s)
  {
    assert Shl(a, s + 4) == 2 * Shl(a, s + 3);
    assert Shl(a, s + 3) == 2 * Shl(a, s + 2);
    assert Shl(a, s + 2) == 2 * Shl(a, s + 1);
    assert Shr(a, s + 4) == Shr(a / 2, s + 3);
    assert Shr(a / 2, s + 3) == Shr(a / 4, s + 2);
    assert Shr(a / 4, s + 2) == Shr(a / 8, s + 1);
  }

  /** Or-ing two numbers whose bits never meet adds them. */
  lemma {:induction false} OrDisjoint(a: nat, b: nat)
    requires And(a, b) == 0
    ensures Or(a, b) == a + b
  {
    if a != 0 && b != 0 { OrDisjoint(a / 2, b / 2); }
  }

  lemma OrWord(a: Word, b: Word)
    ensures Or(a, b) < WORD_LIMIT
  {
    Pow2At64();
    forall k: nat | k >= 64 ensures !Bit(Or(a, b), k) {
      OrBit(a, b, k);
      HighBitsClear(a, 64, k);
      HighBitsClear(b, 64, k);
    }
    BoundFromBits(Or(a, b), 64);
  }

  lemma {:induction false} AndBelow(a: nat, b: nat)
    ensures And(a, b) <= a && And(a, b) <= b
  {
    if a != 0 && b != 0 { AndBelow(a / 2, b / 2); }
  }
}

/** Unsigned machine words and the bit operators that `src/main.rs` applies to
    them (`<<`, `!`, `&`, `|` on `u32`), written out on natural numbers so that
    their meaning can be stated in ordinary arithmetic. Bit `i` of `x` is
    `(x / Pow2(i)) % 2`. */
module Bits {

  /** 2^32, one more than the largest `u32`. */
  const WORD: nat := 0x1_0000_0000

  type u8 = x: nat | x < 0x100
  type u32 = x: nat | x < 0x1_0000_0000

  function Pow2(k: nat): (r: nat)
    ensures r >= 1
  {
    if k == 0 then 1 else 2 * Pow2(k - 1)
  }

  lemma {:induction false} Pow2Add(a: nat, b: nat)
    ensures Pow2(a + b) == Pow2(a) * Pow2(b)
  {
    if a > 0 {
      Pow2Add(a - 1, b);
    }
  }

  lemma Pow2Word()
    ensures Pow2(8) == 0x100 && Pow2(24) == 0x100_0000 && Pow2(32) == WORD
  {
    Pow2Add(8, 8);
    Pow2Add(16, 8);
    Pow2Add(24, 8);
  }

  lemma {:induction false} Pow2Monotone(a: nat, b: nat)
    requires a <= b
    ensures Pow2(a) <= Pow2(b)
  {
    if a < b {
      Pow2Monotone(a, b - 1);
    }
  }

  /** `x << k` on `u32` for a shift amount below 32: the low `k` bits of the
      result are clear and above them sit the low `32 - k` bits of `x`; the
      bits pushed past bit 31 are lost. */
  function Shl(x: u32, k: nat): (r: u32)
    requires k < 32
    ensures r % Pow2(k) == 0 && r / Pow2(k) == x % Pow2(32 - k)
  {
    Pow2Add(32 - k, k);
    Pow2Word();
    ScaledMod(x, Pow2(k), Pow2(32 - k));
    (x * Pow2(k)) % WORD
  }

  /** Multiplying by `p` and reducing modulo `q * p` keeps the residue of
      `x` modulo `q`, scaled by `p`. */
  lemma ScaledMod(x: nat, p: nat, q: nat)
    requires p > 0 && q > 0
    ensures (x * p) % (q * p) == (x % q) * p
    ensures ((x % q) * p) % p == 0 && ((x % q) * p) / p == x % q
  {
    var a, b := x / q, x % q;
    assert x * p == a * (q * p) + b * p;
    assert b * p < q * p;
    DivModUnique(x * p, q * p, a, b * p);
    DivModUnique(b * p, p, b, 0);
  }

  /** `!x` on `u32`: each of the 32 bits flipped. */
  function Not(x: u32): (r: u32)
    ensures forall i: nat :: i < 32 ==> Bit(r, i) == 1 - Bit(x, i)
  {
    Pow2Word();
    ComplementBits(x, 32);
    WORD - 1 - x
  }

  /** Bitwise AND of two naturals, lowest bit first: a bit of the result is
      set exactly when it is set in both. */
  function And(x: nat, y: nat): (r: nat)
    ensures forall i: nat :: Bit(r, i) == Bit(x, i) * Bit(y, i)
    decreases x
  {
    if x == 0 || y == 0 then
      ZeroBitsAll();
      0
    else
      var h := And(x / 2, y / 2);
      var b := if x % 2 == 1 && y % 2 == 1 then 1 else 0;
      AndStep(x, y, h, b, 2 * h + b);
      2 * h + b
  }

  lemma AndStep(x: nat, y: nat, h: nat, b: nat, v: nat)
    requires forall i: nat :: Bit(h, i) == Bit(x / 2, i) * Bit(y / 2, i)
    requires b == (if x % 2 == 1 && y % 2 == 1 then 1 else 0) && v == 2 * h + b
    ensures forall i: nat :: Bit(v, i) == Bit(x, i) * Bit(y, i)
  {
    DoubleBits(h, b, v);
    HalfBits(x);
    HalfBits(y);
  }

  /** Bitwise OR of two naturals, lowest bit first: a bit of the result is
      set exactly when it is set in either. */
  function Or(x: nat, y: nat): (r: nat)
    ensures forall i: nat :: Bit(r, i) == if Bit(x, i) == 1 || Bit(y, i) == 1 then 1 else 0
    decreases x + y
  {
    if x == 0 then
      ZeroBitsAll();
      y
    else if y == 0 then
      ZeroBitsAll();
      x
    else
      var h := Or(x / 2, y / 2);
      var b := if x % 2 == 1 || y % 2 == 1 then 1 else 0;
      OrStep(x, y, h, b, 2 * h + b);
      2 * h + b
  }

  lemma OrStep(x: nat, y: nat, h: nat, b: nat, v: nat)
    requires forall i: nat :: Bit(h, i) == if Bit(x / 2, i) == 1 || Bit(y / 2, i) == 1 then 1 else 0
    requires b == (if x % 2 == 1 || y % 2 == 1 then 1 else 0) && v == 2 * h + b
    ensures forall i: nat :: Bit(v, i) == if Bit(x, i) == 1 || Bit(y, i) == 1 then 1 else 0
  {
    DoubleBits(h, b, v);
    HalfBits(x);
    HalfBits(y);
  }

  lemma ZeroBitsAll()
    ensures forall i: nat :: Bit(0, i) == 0
  {
    forall i: nat
      ensures Bit(0, i) == 0
    {
      ZeroBits(i);
    }
  }

  /** The bits of `2 * h + b` are `b` followed by the bits of `h`. */
  lemma DoubleBits(h: nat, b: nat, v: nat)
    requires b < 2 && v == 2 * h + b
    ensures forall i: nat :: Bit(v, i) == if i == 0 then b else Bit(h, i - 1)
  {
    assert v / 2 == h && v % 2 == b;
  }

  /** Bit `i + 1` of `x` is bit `i` of `x / 2`. */
  lemma HalfBits(x: nat)
    ensures Bit(x, 0) == x % 2
    ensures forall i: nat :: i > 0 ==> Bit(x, i) == Bit(x / 2, i - 1)
  {
  }

  /** Below 2^n, `2^n - 1 - x` has each of the low `n` bits of `x` flipped. */
  lemma {:induction false} ComplementBits(x: nat, n: nat)
    requires x < Pow2(n)
    ensures forall i: nat :: i < n ==> Bit(Pow2(n) - 1 - x, i) == 1 - Bit(x, i)
    decreases n
  {
    if n > 0 {
      var c := Pow2(n) - 1 - x;
      ComplementBits(x / 2, n - 1);
      assert c == 2 * (Pow2(n - 1) - 1 - x / 2) + (1 - x % 2);
      DoubleBits(Pow2(n - 1) - 1 - x / 2, 1 - x % 2, c);
      HalfBits(x);
    }
  }

  /** `!0u32 << k` has exactly the top `32 - k` bits set. */
  lemma ShlAllOnes(k: nat)
    requires k < 32
    ensures Shl(Not(0), k) == WORD - Pow2(k)
  {
    Pow2Monotone(k, 32);
    Pow2Word();
    var p := Pow2(k);
    assert (WORD - 1) * p == (p - 1) * WORD + (WORD - p);
    DivModUnique((WORD - 1) * p, WORD, p - 1, WORD - p);
  }

  /** `x << 8` drops the top byte of `x` and moves the rest up one byte. */
  lemma ShlByte(x: u32)
    ensures Shl(x, 8) == (x % 0x100_0000) * 0x100
  {
    Pow2Word();
    var q, r := x / 0x100_0000, x % 0x100_0000;
    assert x * 0x100 == q * WORD + r * 0x100;
    DivModUnique(x * 0x100, WORD, q, r * 0x100);
  }

  /** OR-ing a value into bits that are all zero is addition. */
  lemma {:induction false} OrIntoLowBits(x: nat, y: nat, k: nat)
    requires y < Pow2(k)
    ensures Or(x * Pow2(k), y) == x * Pow2(k) + y
  {
    if k > 0 && x != 0 && y != 0 {
      var h := x * Pow2(k - 1);
      assert x * Pow2(k) == 2 * h;
      assert (2 * h) / 2 == h && (2 * h) % 2 == 0;
      OrIntoLowBits(x, y / 2, k - 1);
    }
  }

  /** AND with a mask of the low `n` bits keeps a value of `n` bits. */
  lemma {:induction false} AndLowOnes(x: nat, n: nat)
    requires x < Pow2(n)
    ensures And(x, Pow2(n) - 1) == x
  {
    if n > 0 && x != 0 {
      var m := Pow2(n) - 1;
      assert m / 2 == Pow2(n - 1) - 1 && m % 2 == 1;
      AndLowOnes(x / 2, n - 1);
    }
  }

  /** AND with a mask whose bits `k .. n-1` are set clears the low `k` bits
      of a value of `n` bits. */
  lemma {:induction false} AndHighOnes(x: nat, n: nat, k: nat)
    requires k <= n && x < Pow2(n)
    ensures Pow2(k) <= Pow2(n) && And(x, Pow2(n) - Pow2(k)) == x - x % Pow2(k)
  {
    Pow2Monotone(k, n);
    var m := Pow2(n) - Pow2(k);
    if k == 0 {
      AndLowOnes(x, n);
    } else if x != 0 && m != 0 {
      HalfMask(x, n, k);
      AndHighOnes(x / 2, n - 1, k - 1);
      ModHalf(x, k);
      HalveStep(x, m, Pow2(k - 1));
    } else {
      DivModUnique(x, Pow2(k), 0, x);
    }
  }

  lemma HalfMask(x: nat, n: nat, k: nat)
    requires 0 < k <= n && x < Pow2(n)
    ensures Pow2(k) <= Pow2(n)
    ensures (Pow2(n) - Pow2(k)) / 2 == Pow2(n - 1) - Pow2(k - 1)
    ensures (Pow2(n) - Pow2(k)) % 2 == 0
    ensures x / 2 < Pow2(n - 1)
  {
    Pow2Monotone(k, n);
  }

  lemma HalveStep(x: nat, m: nat, p: nat)
    requires x != 0 && m != 0 && m % 2 == 0 && p >= 1
    requires And(x / 2, m / 2) == x / 2 - (x / 2) % p
    ensures And(x, m) == x - (x % 2 + 2 * ((x / 2) % p))
  {
  }

  /** The low `k` bits of `x` are its lowest bit plus twice the low `k - 1`
      bits of `x / 2`. */
  lemma ModHalf(x: nat, k: nat)
    requires k > 0
    ensures x % Pow2(k) == x % 2 + 2 * ((x / 2) % Pow2(k - 1))
  {
    var p := Pow2(k - 1);
    var q := (x / 2) / p;
    var r := (x / 2) % p;
    assert x / 2 == q * p + r;
    assert x == q * (2 * p) + (2 * r + x % 2);
    assert 0 <= 2 * r + x % 2 < 2 * p;
    DivModUnique(x, 2 * p, q, 2 * r + x % 2);
  }

  lemma DivModUnique(x: nat, m: nat, q: nat, r: nat)
    requires 0 <= r < m && x == q * m + r
    ensures x / m == q && x % m == r
  {
    var q', r' := x / m, x % m;
    assert q' * m + r' == q * m + r;
    if q' < q {
      assert (q - q') * m == q * m - q' * m;
      MulAtLeast(q - q', m);
    } else if q' > q {
      assert (q' - q) * m == q' * m - q * m;
      MulAtLeast(q' - q, m);
    }
  }

  lemma MulAtLeast(a: nat, m: nat)
    requires a >= 1
    ensures a * m >= m
  {
  }

  /** Two words agree under the mask with bits `k .. 31` set exactly when
      they agree on those bits, i.e. on their quotients by 2^k. */
  lemma SameHighBits(x: u32, y: u32, k: nat)
    requires k <= 32
    ensures Pow2(k) <= WORD
    ensures And(x, WORD - Pow2(k)) == And(y, WORD - Pow2(k)) <==> x / Pow2(k) == y / Pow2(k)
  {
    Pow2Word();
    AndHighOnes(x, 32, k);
    AndHighOnes(y, 32, k);
    ClearedEqual(x, y, Pow2(k));
  }

  /** Clearing the remainder by `p` keeps exactly the quotient by `p`. */
  lemma ClearedEqual(x: nat, y: nat, p: nat)
    requires p > 0
    ensures x - x % p == y - y % p <==> x / p == y / p
  {
    assert x - x % p == p * (x / p);
    assert y - y % p == p * (y / p);
    if p * (x / p) == p * (y / p) {
      MulCancel(p, x / p, y / p);
    }
  }

  lemma MulCancel(p: nat, a: nat, b: nat)
    requires p > 0 && p * a == p * b
    ensures a == b
  {
    if a < b {
      MulAtLeast(b - a, p);
    } else if a > b {
      MulAtLeast(a - b, p);
    }
  }

  /** Dividing by 2^a and then by 2^b is dividing by 2^(a+b). */
  /** Equal quotients by 2^k stay equal when divided further by 2^j. */
  lemma QuotientCoarsens(x: nat, y: nat, k: nat, j: nat)
    requires x / Pow2(k) == y / Pow2(k)
    ensures x / Pow2(k + j) == y / Pow2(k + j)
  {
    DivPow2Twice(x, k, j);
    DivPow2Twice(y, k, j);
  }

  lemma DivPow2Twice(x: nat, a: nat, b: nat)
    ensures x / Pow2(a) / Pow2(b) == x / Pow2(a + b)
  {
    Pow2Add(a, b);
    DivTwice(x, Pow2(a), Pow2(b));
  }

  lemma DivTwice(x: nat, p: nat, q: nat)
    requires p > 0 && q > 0
    ensures x / p / q == x / (p * q)
  {
    var x1 := x / p;
    var x2 := x1 / q;
    var r := (x1 % q) * p + x % p;
    assert x == x2 * (p * q) + r by {
      assert x == x1 * p + x % p;
      assert x1 == x2 * q + x1 % q;
    }
    assert r < p * q by {
      MulLeq(x1 % q, q - 1, p);
    }
    DivModUnique(x, p * q, x2, r);
  }

  lemma MulLeq(a: nat, b: nat, p: nat)
    requires a <= b
    ensures a * p <= b * p
  {
  }

  /** Bit `i` of `x`, 0 or 1. */
  function Bit(x: nat, i: nat): (b: nat)
    ensures b <= 1
    decreases i
  {
    if i == 0 then x % 2 else Bit(x / 2, i - 1)
  }

  /** `x` and `y` agree on bits `k .. n-1`. */
  predicate Agree(x: nat, y: nat, k: nat, n: nat)
  {
    forall i :: k <= i < n ==> Bit(x, i) == Bit(y, i)
  }

  /** Two numbers below 2^n have the same quotient by 2^k exactly when they
      agree on bits `k .. n-1`. */
  lemma {:induction false} SameQuotientSameBits(x: nat, y: nat, k: nat, n: nat)
    requires k <= n && x < Pow2(n) && y < Pow2(n)
    ensures x / Pow2(k) == y / Pow2(k) <==> Agree(x, y, k, n)
    decreases k, n
  {
    if k > 0 {
      SameQuotientSameBits(x / 2, y / 2, k - 1, n - 1);
      DivTwice(x, 2, Pow2(k - 1));
      DivTwice(y, 2, Pow2(k - 1));
      ShiftBitsDown(x, y, k, n);
    } else if n > 0 {
      SameQuotientSameBits(x / 2, y / 2, 0, n - 1);
      ShiftBitsDown(x, y, 1, n);
      LowBitSplit(x, y, n);
      HalvesDetermine(x, y);
    } else {
      assert x == 0 && y == 0;
    }
  }

  lemma HalvesDetermine(x: nat, y: nat)
    ensures x == y <==> x % 2 == y % 2 && x / 2 == y / 2
  {
    assert x == 2 * (x / 2) + x % 2;
    assert y == 2 * (y / 2) + y % 2;
  }

  lemma LowBitSplit(x: nat, y: nat, n: nat)
    requires n > 0
    ensures Agree(x, y, 0, n) <==> x % 2 == y % 2 && Agree(x, y, 1, n)
  {
    assert Bit(x, 0) == x % 2 && Bit(y, 0) == y % 2;
  }

  lemma BitSucc(x: nat, j: nat)
    ensures Bit(x, j + 1) == Bit(x / 2, j)
  {
  }

  /** Bits `k .. n-1` of `x` are bits `k-1 .. n-2` of `x / 2`. */
  lemma ShiftBitsDown(x: nat, y: nat, k: nat, n: nat)
    requires 0 < k <= n
    ensures Agree(x, y, k, n) <==> Agree(x / 2, y / 2, k - 1, n - 1)
  {
    if Agree(x, y, k, n) {
      ShiftAgreeDown(x, y, k, n);
    }
    if Agree(x / 2, y / 2, k - 1, n - 1) {
      ShiftAgreeUp(x, y, k, n);
    }
  }

  lemma ShiftAgreeDown(x: nat, y: nat, k: nat, n: nat)
    requires 0 < k <= n && Agree(x, y, k, n)
    ensures Agree(x / 2, y / 2, k - 1, n - 1)
  {
    forall j | k - 1 <= j < n - 1
      ensures Bit(x / 2, j) == Bit(y / 2, j)
    {
      BitSucc(x, j);
      BitSucc(y, j);
    }
  }

  lemma ShiftAgreeUp(x: nat, y: nat, k: nat, n: nat)
    requires 0 < k <= n && Agree(x / 2, y / 2, k - 1, n - 1)
    ensures Agree(x, y, k, n)
  {
    forall i | k <= i < n
      ensures Bit(x, i) == Bit(y, i)
    {
      BitSucc(x, i - 1);
      BitSucc(y, i - 1);
    }
  }

  /** `2^n - 2^k` has bit `i` set exactly for `k <= i < n`. */
  lemma {:induction false} HighOnesBits(n: nat, k: nat, i: nat)
    requires k <= n
    ensures Pow2(k) <= Pow2(n)
    ensures Bit(Pow2(n) - Pow2(k), i) == if k <= i < n then 1 else 0
    decreases n
  {
    Pow2Monotone(k, n);
    if n == 0 {
      ZeroBits(i);
    } else if k > 0 {
      HighOnesBits(n - 1, k - 1, if i > 0 then i - 1 else 0);
      assert (Pow2(n) - Pow2(k)) / 2 == Pow2(n - 1) - Pow2(k - 1);
    } else {
      if i > 0 {
        HighOnesBits(n - 1, 0, i - 1);
      }
      assert (Pow2(n) - 1) / 2 == Pow2(n - 1) - 1;
    }
  }

  lemma {:induction false} ZeroBits(i: nat)
    ensures Bit(0, i) == 0
  {
    if i > 0 {
      ZeroBits(i - 1);
    }
  }

  /** The mask `2^32 - 2^k` has bit `i` set exactly for `k <= i < 32`. */
  lemma MaskBits(k: nat, i: nat)
    requires k <= 32 && i < 32
    ensures Pow2(k) <= WORD
    ensures Bit(WORD - Pow2(k), i) == 1 <==> k <= i
  {
    Pow2Word();
    HighOnesBits(32, k, i);
  }
}

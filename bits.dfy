/** Unsigned integer helpers used by the address decoder: powers of two, a
    floor base-2 logarithm, the right shift `>>` and the bitwise `&` on
    naturals. Shifts and masks are defined bit by bit, the way the machine
    computes them, and then proved to agree with division and remainder. */
module Bits {

  /** 2^k */
  function Pow2(k: nat): (r: nat)
    ensures r >= 1
  {
    if k == 0 then 1 else 2 * Pow2(k - 1)
  }

  /** floor(log2(n)); `log2` of a power of two is exact, and the conversion
      of the floating result to an integer truncates everything else. */
  function Log2(n: nat): (r: nat)
    requires n >= 1
    ensures Pow2(r) <= n < Pow2(r + 1)
  {
    if n == 1 then 0 else 1 + Log2(n / 2)
  }

  /** a >> k: k halvings, each dropping the lowest bit */
  function Shr(a: nat, k: nat): nat
  {
    if k == 0 then a else Shr(a / 2, k - 1)
  }

  /** a & b, one bit at a time from the least significant end */
  function And(a: nat, b: nat): nat
  {
    if a == 0 || b == 0 then 0
    else 2 * And(a / 2, b / 2) + (if a % 2 == 1 && b % 2 == 1 then 1 else 0)
  }

  /** Doubling one factor doubles a product */
  lemma DoubleFactor(x: int, y: int)
    ensures (2 * x) * y == 2 * (x * y)
  {
  }

  lemma {:induction false} Pow2Add(x: nat, y: nat)
    ensures Pow2(x + y) == Pow2(x) * Pow2(y)
  {
    if x > 0 {
      Pow2Add(x - 1, y);
      assert Pow2(x + y) == 2 * Pow2(x - 1 + y);
      DoubleFactor(Pow2(x - 1), Pow2(y));
    }
  }

  lemma {:induction false} Log2OfPow2(k: nat)
    ensures Log2(Pow2(k)) == k
  {
    if k > 0 {
      Log2OfPow2(k - 1);
      assert Pow2(k) / 2 == Pow2(k - 1);
    }
  }

  /** Masking with 2p - 1 keeps the lowest bit and masks the rest with
      p - 1 */
  lemma AndLowBit(a: nat, p: nat)
    requires p >= 1
    ensures And(a, 2 * p - 1) == 2 * And(a / 2, p - 1) + a % 2
  {
    if a == 0 {
      assert And(a / 2, p - 1) == 0;
    } else {
      assert (2 * p - 1) / 2 == p - 1 && (2 * p - 1) % 2 == 1;
    }
  }

  /** Masking with an even mask clears the lowest bit */
  lemma AndEven(a: nat, m: nat)
    ensures And(a, 2 * m) == 2 * And(a / 2, m)
    ensures And(a, 2 * m) / 2 == And(a / 2, m)
  {
    if a != 0 && m != 0 {
      assert (2 * m) / 2 == m && (2 * m) % 2 == 0;
    }
  }

  /** The arithmetic of one halving step: if a / 2 splits as q * p + r then
      a splits as q * 2p + (2r + a % 2). */
  lemma HalvingStep(a: nat, q: nat, p: nat, r: nat)
    requires q * p + r == a / 2
    ensures q * (2 * p) + (2 * r + a % 2) == a
  {
    DoubleFactor(p, q);
  }

  /** Masking with 2^k - 1 keeps the k low bits: shifting right by k and
      masking with 2^k - 1 split a number into quotient and remainder. */
  lemma {:induction false} ShrAndLow(a: nat, k: nat)
    ensures And(a, Pow2(k) - 1) < Pow2(k)
    ensures Shr(a, k) * Pow2(k) + And(a, Pow2(k) - 1) == a
  {
    if k > 0 {
      var p := Pow2(k - 1);
      ShrAndLow(a / 2, k - 1);
      var q := Shr(a / 2, k - 1);
      var r := And(a / 2, p - 1);
      assert Pow2(k) == 2 * p;
      assert Shr(a, k) == q;
      AndLowBit(a, p);
      HalvingStep(a, q, p, r);
    }
  }

  /** (a >> x) >> y == a >> (x + y) */
  lemma {:induction false} ShrShr(a: nat, x: nat, y: nat)
    ensures Shr(Shr(a, x), y) == Shr(a, x + y)
  {
    if x > 0 {
      ShrShr(a / 2, x - 1, y);
    }
  }

  lemma {:induction false} Pow2Monotone(x: nat, y: nat)
    requires x <= y
    ensures Pow2(x) <= Pow2(y)
  {
    if x < y {
      Pow2Monotone(x, y - 1);
    }
  }

  /** The index mask (2^(i+o) - 1) - (2^o - 1) selects bits o .. o+i-1:
      masking and then shifting by o equals shifting by o and then keeping
      i low bits. */
  lemma {:induction false} MiddleMask(a: nat, i: nat, o: nat, m: nat)
    requires m == Pow2(i + o) - Pow2(o)
    ensures Shr(And(a, m), o) == And(Shr(a, o), Pow2(i) - 1)
  {
    if o > 0 {
      var m' := Pow2(i + (o - 1)) - Pow2(o - 1);
      MaskHalves(i, o);
      MiddleMask(a / 2, i, o - 1, m');
      AndEven(a, m');
      var x := And(a, m);
      assert m == 2 * m';
      assert x == And(a, 2 * m');
      assert x / 2 == And(a / 2, m');
      assert Shr(x, o) == Shr(x / 2, o - 1);
      assert Shr(a, o) == Shr(a / 2, o - 1);
      assert Shr(x, o) == And(Shr(a, o), Pow2(i) - 1);
    } else {
      assert m == Pow2(i) - 1;
      assert Shr(And(a, m), o) == And(a, m);
      assert Shr(a, o) == a;
    }
  }

  /** The middle mask for o is twice the middle mask for o - 1 */
  lemma MaskHalves(i: nat, o: nat)
    requires o > 0
    ensures Pow2(i + (o - 1)) >= Pow2(o - 1)
    ensures Pow2(i + o) - Pow2(o) == 2 * (Pow2(i + (o - 1)) - Pow2(o - 1))
  {
    Pow2Monotone(o - 1, i + (o - 1));
    assert Pow2(i + o) == 2 * Pow2(i + (o - 1));
  }

  /** a / 2^k, written as integer division, is the right shift */
  lemma ShrIsDiv(a: nat, k: nat)
    ensures Shr(a, k) == a / Pow2(k)
    ensures And(a, Pow2(k) - 1) == a % Pow2(k)
  {
    ShrAndLow(a, k);
    DivModUnique(a, Pow2(k), Shr(a, k), And(a, Pow2(k) - 1));
  }

  /** Multiplying by a positive p keeps a gap of at least p between
      distinct multiples */
  lemma {:induction false} MulGap(x: nat, y: nat, p: nat)
    requires x > y
    ensures x * p >= y * p + p
  {
    if x > y + 1 {
      MulGap(x - 1, y, p);
      assert x * p == (x - 1) * p + p;
    } else {
      assert x * p == y * p + p;
    }
  }

  /** Quotient and remainder are unique */
  lemma DivModUnique(a: nat, p: nat, q: nat, r: nat)
    requires p >= 1 && r < p && a == q * p + r
    ensures q == a / p && r == a % p
  {
    var q', r' := a / p, a % p;
    if q > q' {
      MulGap(q, q', p);
      assert false;
    } else if q < q' {
      MulGap(q', q, p);
      assert false;
    }
  }
}

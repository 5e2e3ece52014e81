/**
 * Unsigned machine words and the bit operations the simulator applies to
 * them, as functions on natural numbers.
 *
 * `And`, `Or`, `Shl32` and `Shr` are the C++ operators `&`, `|`, `<<` and
 * `>>` on `uint32_t`, defined digit by digit in base 2. The lemmas relate
 * them to division and remainder by powers of two, which is how the rest of
 * the model reasons about address fields.
 */
module Bits {

  const WORD: int := 0x1_0000_0000

  /** A `uint32_t` value. */
  type Word = x: int | 0 <= x < WORD

  /** `2^n`. */
  function Pow2(n: nat): (p: nat)
    ensures p >= 1
  {
    if n == 0 then 1 else 2 * Pow2(n - 1)
  }

  /** Bit `k` of `x`. */
  predicate Bit(x: nat, k: nat)
  {
    Shr(x, k) % 2 == 1
  }

  /** `x & y`. */
  function And(x: nat, y: nat): nat
    decreases x
  {
    if x == 0 || y == 0 then 0
    else 2 * And(x / 2, y / 2) + (if x % 2 == 1 && y % 2 == 1 then 1 else 0)
  }

  /** `x | y`. */
  function Or(x: nat, y: nat): nat
    decreases x + y
  {
    if x == 0 then y
    else if y == 0 then x
    else 2 * Or(x / 2, y / 2) + (if x % 2 == 1 || y % 2 == 1 then 1 else 0)
  }

  /** `x >> s`: `s` halvings. */
  function Shr(x: nat, s: nat): nat
  {
    if s == 0 then x else Shr(x / 2, s - 1)
  }

  /** `x << s` on `uint32_t`: bits shifted past bit 31 are lost. */
  function Shl32(x: nat, s: nat): Word
  {
    (x * Pow2(s)) % WORD
  }

  // ---------------------------------------------------------------------
  // Powers of two
  // ---------------------------------------------------------------------

  lemma {:induction false} Pow2Add(a: nat, b: nat)
    ensures Pow2(a + b) == Pow2(a) * Pow2(b)
  {
    if a > 0 {
      Pow2Add(a - 1, b);
      calc {
        Pow2(a + b);
        2 * Pow2(a - 1 + b);
        2 * (Pow2(a - 1) * Pow2(b));
        (2 * Pow2(a - 1)) * Pow2(b);
      }
    }
  }

  lemma Pow2Mono(a: nat, b: nat)
    requires a <= b
    ensures Pow2(a) <= Pow2(b)
  {
    Pow2Add(a, b - a);
    MulAtLeast(Pow2(a), Pow2(b - a));
  }

  lemma Pow2Word()
    ensures Pow2(32) == WORD
  {
    assert Pow2(4) == 16;
    Pow2Add(4, 4);
    Pow2Add(8, 8);
    Pow2Add(16, 16);
  }

  // ---------------------------------------------------------------------
  // Division and remainder
  // ---------------------------------------------------------------------

  lemma MulAtLeast(a: nat, k: nat)
    requires k >= 1
    ensures a <= a * k
  {}

  /** `q` and `r` are the quotient and remainder of `x` by `d`. */
  lemma DivModUnique(x: int, d: int, q: int, r: int)
    requires d > 0 && 0 <= r < d && x == q * d + r
    ensures x / d == q && x % d == r
  {
    var q' := x / d;
    var r' := x % d;
    assert x == q' * d + r';
    if q' < q {
      MulLess(q', q, d);
    } else if q < q' {
      MulLess(q, q', d);
    }
  }

  lemma MulLess(a: int, b: int, d: int)
    requires a < b && d > 0
    ensures a * d + d <= b * d
  {
    assert b * d - a * d == (b - a) * d;
    MulAtLeast(d, b - a);
  }

  /** Dividing by `a` and then by `b` is dividing by `a * b`. */
  lemma DivDiv(x: nat, a: nat, b: nat)
    requires a > 0 && b > 0
    ensures x / a / b == x / (a * b)
    ensures x / a % b == x % (a * b) / a
  {
    var q := x / a;
    var r := x % a;
    assert x == q * a + r;
    var q2 := q / b;
    var r2 := q % b;
    assert q == q2 * b + r2;
    assert x == q2 * (a * b) + (r2 * a + r) by {
      assert q * a == (q2 * b + r2) * a == q2 * (a * b) + r2 * a;
    }
    MulLess(r2, b, a);
    assert b * a == a * b;
    DivModUnique(x, a * b, q2, r2 * a + r);
    DivModUnique(r2 * a + r, a, r2, r);
  }

  /** Shifting right by `s` divides by `2^s`. */
  lemma {:induction false} ShrDiv(x: nat, s: nat)
    ensures Shr(x, s) == x / Pow2(s)
  {
    if s > 0 {
      ShrDiv(x / 2, s - 1);
      DivDiv(x, 2, Pow2(s - 1));
    }
  }

  /** Shifting right by `a` and then by `b` is shifting by `a + b`. */
  lemma {:induction false} ShrShr(x: nat, a: nat, b: nat)
    ensures Shr(Shr(x, a), b) == Shr(x, a + b)
  {
    if a > 0 {
      ShrShr(x / 2, a - 1, b);
    }
  }

  /** A remainder by `2^n` is below `2^n`. */
  lemma LowBelow(x: nat, n: nat)
    ensures x % Pow2(n) < Pow2(n)
  {}

  // ---------------------------------------------------------------------
  // Bits
  // ---------------------------------------------------------------------

  /** Bit `k + 1` of `x` is bit `k` of `x / 2`. */
  lemma BitHalf(x: nat, k: nat)
    ensures Bit(x, k + 1) == Bit(x / 2, k)
  {}

  lemma {:induction false} ShrZero(k: nat)
    ensures Shr(0, k) == 0
  {
    if k > 0 {
      ShrZero(k - 1);
    }
  }

  /** Unfolding `And` at an even second operand. */
  lemma AndEven(x: nat, m: nat, h: nat)
    requires m == 2 * h
    ensures And(x, m) == 2 * And(x / 2, h)
  {}

  /** Unfolding `And` at an odd second operand. */
  lemma AndOdd(x: nat, m: nat, h: nat)
    requires m == 2 * h + 1
    ensures And(x, m) == 2 * And(x / 2, h) + x % 2
  {}

  lemma AndHalf(x: nat, y: nat)
    ensures And(x, y) / 2 == And(x / 2, y / 2)
    ensures And(x, y) % 2 == (if x % 2 == 1 && y % 2 == 1 then 1 else 0)
  {
    if x != 0 && y != 0 {
      DivModUnique(And(x, y), 2, And(x / 2, y / 2), if x % 2 == 1 && y % 2 == 1 then 1 else 0);
    }
  }

  /** `|` is commutative. */
  lemma {:induction false} OrComm(x: nat, y: nat)
    ensures Or(x, y) == Or(y, x)
    decreases x + y
  {
    if x != 0 && y != 0 {
      OrComm(x / 2, y / 2);
    }
  }

  lemma OrHalf(x: nat, y: nat)
    ensures Or(x, y) / 2 == Or(x / 2, y / 2)
    ensures Or(x, y) % 2 == (if x % 2 == 1 || y % 2 == 1 then 1 else 0)
  {
    if x != 0 && y != 0 {
      DivModUnique(Or(x, y), 2, Or(x / 2, y / 2), if x % 2 == 1 || y % 2 == 1 then 1 else 0);
    }
  }

  /** `And` is bitwise conjunction. */
  lemma {:induction false} AndBit(x: nat, y: nat, k: nat)
    ensures Bit(And(x, y), k) <==> Bit(x, k) && Bit(y, k)
  {
    AndHalf(x, y);
    if k > 0 {
      AndBit(x / 2, y / 2, k - 1);
      BitHalf(And(x, y), k - 1);
      BitHalf(x, k - 1);
      BitHalf(y, k - 1);
    }
  }

  /** `Or` is bitwise disjunction. */
  lemma {:induction false} OrBit(x: nat, y: nat, k: nat)
    ensures Bit(Or(x, y), k) <==> Bit(x, k) || Bit(y, k)
  {
    OrHalf(x, y);
    if k > 0 {
      OrBit(x / 2, y / 2, k - 1);
      BitHalf(Or(x, y), k - 1);
      BitHalf(x, k - 1);
      BitHalf(y, k - 1);
    }
  }

  /** Splitting a remainder by `2 * p` into its low bit and the rest. */
  lemma ModDouble(x: nat, p: nat)
    requires p > 0
    ensures x % (2 * p) == 2 * (x / 2 % p) + x % 2
  {
    DivDiv(x, 2, p);
    var R := x % (2 * p);
    var q := x / (2 * p);
    assert x == q * (2 * p) + R;
    DivModUnique(x, 2, q * p + R / 2, R % 2);
  }

  lemma ModHalf(x: nat, w: nat)
    requires w > 0
    ensures x % Pow2(w) == 2 * (x / 2 % Pow2(w - 1)) + x % 2
  {
    ModDouble(x, Pow2(w - 1));
  }

  /** `x & (2^w - 1)` keeps the low `w` bits: `x % 2^w`. */
  lemma {:induction false} AndLowMask(x: nat, w: nat)
    ensures And(x, Pow2(w) - 1) == x % Pow2(w)
  {
    if w > 0 {
      AndOdd(x, Pow2(w) - 1, Pow2(w - 1) - 1);
      AndLowMask(x / 2, w - 1);
      ModHalf(x, w);
    }
  }

  /** `x & ((2^w - 1) << s)` keeps bits `s` to `s + w - 1` of `x` in place. */
  lemma {:induction false} AndFieldMask(x: nat, w: nat, s: nat)
    ensures And(x, (Pow2(w) - 1) * Pow2(s)) == Shr(x, s) % Pow2(w) * Pow2(s)
  {
    if s == 0 {
      AndLowMask(x, w);
    } else {
      var h := (Pow2(w) - 1) * Pow2(s - 1);
      Twice(Pow2(w) - 1, Pow2(s - 1));
      AndEven(x, (Pow2(w) - 1) * Pow2(s), h);
      AndFieldMask(x / 2, w, s - 1);
      Twice(Shr(x / 2, s - 1) % Pow2(w), Pow2(s - 1));
    }
  }

  lemma ZeroFactor(a: int, b: int)
    requires b > 0 && a * b == 0
    ensures a == 0
  {}

  lemma Twice(f: int, p: int)
    ensures 2 * (f * p) == f * (2 * p)
  {}

  /** OR-ing `a << s` with a value below `2^s` adds them. */
  lemma {:induction false} OrDisjoint(a: nat, b: nat, s: nat)
    requires b < Pow2(s)
    ensures Or(a * Pow2(s), b) == a * Pow2(s) + b
  {
    var x := a * Pow2(s);
    if s > 0 && x != 0 && b != 0 {
      assert x == 2 * (a * Pow2(s - 1));
      OrDisjoint(a, b / 2, s - 1);
    }
  }

  /** Shifting left on `uint32_t` keeps the low `32 - s` bits of `x`. */
  lemma Shl32Low(x: nat, s: nat)
    requires s <= 32
    ensures Shl32(x, s) == x % Pow2(32 - s) * Pow2(s)
    ensures Shl32(x, s) < WORD
  {
    var p := Pow2(32 - s);
    var t := Pow2(s);
    DivMod(x, p);
    ShiftProduct(x, p, t, x / p, x % p);
    MulLess(x % p, p, t);
    WordSplit(s);
    DivModUnique(x * t, p * t, x / p, x % p * t);
  }

  /** Counting on by one modulo `p`. */
  lemma ModSucc(x: nat, p: nat)
    requires p >= 1
    ensures (x + 1) % p == if x % p + 1 == p then 0 else x % p + 1
  {
    DivMod(x, p);
    if x % p + 1 == p {
      DivModUnique(x + 1, p, x / p + 1, 0);
    } else {
      DivModUnique(x + 1, p, x / p, x % p + 1);
    }
  }

  /** Shifting left on `uint32_t` loses nothing when `x` fits in `32 - s` bits. */
  lemma ShlNoWrap(x: nat, s: nat)
    requires s <= 32 && x < Pow2(32 - s)
    ensures Shl32(x, s) == x * Pow2(s)
  {
    Shl32Low(x, s);
    DivModUnique(x, Pow2(32 - s), 0, x);
  }

  /** A number below `a * b` divided by `b` is below `a`. */
  lemma DivLess(x: int, a: int, b: int)
    requires b > 0 && 0 <= x < a * b
    ensures x / b < a
  {
    DivMod(x, b);
    if a < x / b {
      MulLess(a, x / b, b);
    }
  }

  lemma DivMod(x: int, d: int)
    requires d > 0
    ensures x == x / d * d + x % d && 0 <= x % d < d
  {}

  lemma WordSplit(s: nat)
    requires s <= 32
    ensures Pow2(32 - s) * Pow2(s) == WORD
  {
    Pow2Add(32 - s, s);
    Pow2Word();
  }

  lemma ShiftProduct(x: int, p: int, t: int, q: int, r: int)
    requires x == q * p + r
    ensures x * t == q * (p * t) + r * t
  {
    calc {
      x * t;
      (q * p + r) * t;
      q * p * t + r * t;
    }
  }

  /** `2^w - 1` holds exactly the bits below `w`. */
  lemma {:induction false} LowOnesBit(w: nat, k: nat)
    ensures Bit(Pow2(w) - 1, k) <==> k < w
  {
    if w == 0 {
      ShrZero(k);
    } else {
      assert (Pow2(w) - 1) / 2 == Pow2(w - 1) - 1;
      if k > 0 {
        BitHalf(Pow2(w) - 1, k - 1);
        LowOnesBit(w - 1, k - 1);
      }
    }
  }

  /** Bit `k` of `x << s` (without truncation) is bit `k - s` of `x`. */
  lemma {:induction false} ShlBit(x: nat, s: nat, k: nat)
    ensures Bit(x * Pow2(s), k) <==> s <= k && Bit(x, k - s)
  {
    if s > 0 {
      var y := x * Pow2(s - 1);
      assert x * Pow2(s) == 2 * y;
      if k > 0 {
        BitHalf(2 * y, k - 1);
        ShlBit(x, s - 1, k - 1);
      }
    }
  }

  /** The mask `(2^w - 1) << s` holds exactly bits `s` to `s + w - 1`. */
  lemma MaskBit(w: nat, s: nat, k: nat)
    ensures Bit((Pow2(w) - 1) * Pow2(s), k) <==> s <= k < s + w
  {
    ShlBit(Pow2(w) - 1, s, k);
    if s <= k {
      LowOnesBit(w, k - s);
    }
  }
}

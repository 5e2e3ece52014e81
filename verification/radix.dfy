/**
 * A virtual page number read as a mixed-radix numeral: with level widths
 * `ws` (root level first), digit `i` has `ws[i]` bits and the last digit is
 * the least significant. These are the page-table indices of the levels.
 */
module Radix {
  import opened Bits

  /** Total width; the widths are added from the first level on. */
  function Sum(ws: seq<nat>): nat
  {
    if |ws| == 0 then 0 else Sum(ws[..|ws| - 1]) + ws[|ws| - 1]
  }

  /** The digits of `v`, most significant (root level) first. */
  function Digits(ws: seq<nat>, v: nat): (ds: seq<nat>)
    ensures |ds| == |ws|
  {
    if |ws| == 0 then []
    else Digits(ws[..|ws| - 1], Shr(v, ws[|ws| - 1])) + [v % Pow2(ws[|ws| - 1])]
  }

  /** Each digit fits its level's width. */
  predicate Fits(ws: seq<nat>, ds: seq<nat>)
  {
    |ds| == |ws| && forall i | 0 <= i < |ws| :: ds[i] < Pow2(ws[i])
  }

  /** The number with digits `ds`, by Horner's rule. */
  function Undigits(ws: seq<nat>, ds: seq<nat>): nat
    requires |ds| == |ws|
  {
    if |ws| == 0 then 0
    else Undigits(ws[..|ws| - 1], ds[..|ds| - 1]) * Pow2(ws[|ws| - 1]) + ds[|ds| - 1]
  }

  // ---------------------------------------------------------------------

  lemma SumSnoc(ws: seq<nat>, w: nat)
    ensures Sum(ws + [w]) == Sum(ws) + w
  {
    assert (ws + [w])[..|ws|] == ws;
  }

  lemma SumCons(w: nat, ws: seq<nat>)
    ensures Sum([w] + ws) == w + Sum(ws)
  {
    SumSplit([w] + ws, 1);
    assert ([w] + ws)[..1] == [w] && ([w] + ws)[1..] == ws;
    assert Sum([w]) == Sum([]) + w;
  }

  /** Sums split at any point. */
  lemma {:induction false} SumSplit(ws: seq<nat>, i: int)
    requires 0 <= i <= |ws|
    ensures Sum(ws) == Sum(ws[..i]) + Sum(ws[i..])
    decreases |ws|
  {
    if i < |ws| {
      var n := |ws| - 1;
      SumSplit(ws[..n], i);
      assert ws[..n][..i] == ws[..i];
      assert ws[i..] == ws[..n][i..] + [ws[n]];
      SumSnoc(ws[..n][i..], ws[n]);
    } else {
      assert ws[..i] == ws;
    }
  }

  /** Digits of a number are in range. */
  lemma {:induction false} DigitsFit(ws: seq<nat>, v: nat)
    ensures Fits(ws, Digits(ws, v))
  {
    if |ws| > 0 {
      var n := |ws| - 1;
      DigitsFit(ws[..n], Shr(v, ws[n]));
    }
  }

  /** A numeral is below `2^Sum(ws)`. */
  lemma {:induction false} UndigitsBound(ws: seq<nat>, ds: seq<nat>)
    requires Fits(ws, ds)
    ensures Undigits(ws, ds) < Pow2(Sum(ws))
  {
    if |ws| > 0 {
      var n := |ws| - 1;
      var u := Undigits(ws[..n], ds[..n]);
      UndigitsBound(ws[..n], ds[..n]);
      MulLess(u, Pow2(Sum(ws[..n])), Pow2(ws[n]));
      Pow2Add(Sum(ws[..n]), ws[n]);
    }
  }

  /** Reading the digits of a numeral gives back the digits. */
  lemma {:induction false} DigitsOfUndigits(ws: seq<nat>, ds: seq<nat>)
    requires Fits(ws, ds)
    ensures Digits(ws, Undigits(ws, ds)) == ds
  {
    if |ws| > 0 {
      var n := |ws| - 1;
      var u := Undigits(ws[..n], ds[..n]);
      DivModUnique(u * Pow2(ws[n]) + ds[n], Pow2(ws[n]), u, ds[n]);
      ShrDiv(u * Pow2(ws[n]) + ds[n], ws[n]);
      DigitsOfUndigits(ws[..n], ds[..n]);
      assert ds == ds[..n] + [ds[n]];
    }
  }

  /** A number below `2^Sum(ws)` is the numeral of its digits. */
  lemma {:induction false} UndigitsOfDigits(ws: seq<nat>, v: nat)
    requires v < Pow2(Sum(ws))
    ensures Undigits(ws, Digits(ws, v)) == v
  {
    if |ws| == 0 {
    } else {
      var n := |ws| - 1;
      var ds := Digits(ws, v);
      assert ds[..n] == Digits(ws[..n], Shr(v, ws[n])) && ds[n] == v % Pow2(ws[n]);
      ShrDiv(v, ws[n]);
      Pow2Add(Sum(ws[..n]), ws[n]);
      DivLess(v, Pow2(Sum(ws[..n])), Pow2(ws[n]));
      UndigitsOfDigits(ws[..n], Shr(v, ws[n]));
      DivMod(v, Pow2(ws[n]));
    }
  }

  /** Digit `i` is bits `Sum(ws[i+1..])` up of `v`. */
  lemma {:induction false} DigitAt(ws: seq<nat>, v: nat, i: int)
    requires 0 <= i < |ws|
    ensures Digits(ws, v)[i] == Shr(v, Sum(ws[i + 1..])) % Pow2(ws[i])
  {
    var n := |ws| - 1;
    if i == n {
      assert ws[i + 1..] == [];
    } else {
      DigitAt(ws[..n], Shr(v, ws[n]), i);
      ShrShr(v, ws[n], Sum(ws[..n][i + 1..]));
      assert ws[i + 1..] == ws[..n][i + 1..] + [ws[n]];
      SumSnoc(ws[..n][i + 1..], ws[n]);
    }
  }

  /** Numbers below `2^Sum(ws)` with the same digits are equal. */
  lemma SameDigits(ws: seq<nat>, v: nat, u: nat)
    requires v < Pow2(Sum(ws)) && u < Pow2(Sum(ws))
    ensures Digits(ws, v) == Digits(ws, u) <==> v == u
  {
    UndigitsOfDigits(ws, v);
    UndigitsOfDigits(ws, u);
  }
}

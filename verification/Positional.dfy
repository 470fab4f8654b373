/** Numbers written in base 32 or base 256, most significant digit first. */
module Positional {

  datatype Radix = Base32 | Base256 {
    function Size(): nat {
      if this == Base32 then 32 else 256
    }

    function Times(v: nat): nat {
      if this == Base32 then v * 32 else v * 256
    }

    function Quotient(v: nat): nat {
      if this == Base32 then v / 32 else v / 256
    }

    function Remainder(v: nat): (d: nat)
      ensures d < Size()
    {
      if this == Base32 then v % 32 else v % 256
    }
  }

  function Digits(v: nat, radix: Radix, n: nat): (ds: seq<nat>)
    ensures |ds| == n && InRadix(ds, radix)
  {
    if n == 0 then [] else Digits(radix.Quotient(v), radix, n - 1) + [radix.Remainder(v)]
  }

  function Value(ds: seq<nat>, radix: Radix): nat {
    if ds == [] then 0 else radix.Times(Value(ds[..|ds| - 1], radix)) + ds[|ds| - 1]
  }

  function Power(radix: Radix, n: nat): nat {
    if n == 0 then 1 else radix.Times(Power(radix, n - 1))
  }

  ghost predicate InRadix(ds: seq<nat>, radix: Radix) {
    forall i :: 0 <= i < |ds| ==> ds[i] < radix.Size()
  }

  lemma {:induction false} ValueBound(ds: seq<nat>, radix: Radix)
    requires InRadix(ds, radix)
    ensures Value(ds, radix) < Power(radix, |ds|)
  {
    if ds != [] {
      ValueBound(ds[..|ds| - 1], radix);
    }
  }

  /** The digits of a number that fits give the number back. */
  lemma {:induction false} ValueOfDigits(v: nat, radix: Radix, n: nat)
    requires v < Power(radix, n)
    ensures Value(Digits(v, radix, n), radix) == v
  {
    if n > 0 {
      ValueOfDigits(radix.Quotient(v), radix, n - 1);
      assert Digits(v, radix, n)[..n - 1] == Digits(radix.Quotient(v), radix, n - 1);
    }
  }

  /** And every digit sequence is the digits of its value. */
  lemma {:induction false} DigitsOfValue(ds: seq<nat>, radix: Radix)
    requires InRadix(ds, radix)
    ensures Digits(Value(ds, radix), radix, |ds|) == ds
  {
    hide Digits, Radix.Times;
    if ds == [] {
      NoDigits(0, radix);
    } else {
      var n := |ds| - 1;
      DigitsOfValue(ds[..n], radix);
      LastDigit(Value(ds[..n], radix), ds[n], radix, n);
      assert ds == ds[..n] + [ds[n]];
    }
  }

  lemma NoDigits(v: nat, radix: Radix)
    ensures Digits(v, radix, 0) == []
  {
  }

  lemma LastDigit(q: nat, d: nat, radix: Radix, n: nat)
    requires d < radix.Size()
    ensures Digits(radix.Times(q) + d, radix, n + 1) == Digits(q, radix, n) + [d]
  {
  }

  /** Lexicographic order of two sequences of the same length: the first difference decides. */
  ghost predicate LexLess(xs: seq<int>, ys: seq<int>) {
    |xs| == |ys| && exists i :: 0 <= i < |xs| && xs[..i] == ys[..i] && xs[i] < ys[i]
  }

  lemma LexSnoc(xs: seq<int>, ys: seq<int>)
    requires |xs| == |ys| > 0
    ensures var n := |xs| - 1;
      LexLess(xs, ys) <==> LexLess(xs[..n], ys[..n]) || (xs[..n] == ys[..n] && xs[n] < ys[n])
  {
    var n := |xs| - 1;
    if i :| 0 <= i < |xs| && xs[..i] == ys[..i] && xs[i] < ys[i] {
      if i < n {
        assert xs[..n][..i] == xs[..i] && ys[..n][..i] == ys[..i];
        assert LexLess(xs[..n], ys[..n]);
      }
    }
    if LexLess(xs[..n], ys[..n]) {
      var i :| 0 <= i < n && xs[..n][..i] == ys[..n][..i] && xs[..n][i] < ys[..n][i];
      assert xs[..n][..i] == xs[..i] && ys[..n][..i] == ys[..i];
    }
  }

  /** Digit sequences of the same length sort as their values do. */
  lemma {:induction false} LexIsNumeric(xs: seq<nat>, ys: seq<nat>, radix: Radix)
    requires |xs| == |ys| && InRadix(xs, radix) && InRadix(ys, radix)
    ensures LexLess(xs, ys) <==> Value(xs, radix) < Value(ys, radix)
    ensures xs == ys <==> Value(xs, radix) == Value(ys, radix)
  {
    if xs != [] {
      var n := |xs| - 1;
      assert xs == xs[..n] + [xs[n]] && ys == ys[..n] + [ys[n]];
      LexIsNumeric(xs[..n], ys[..n], radix);
      LexSnoc(xs, ys);
    }
  }

  /** A prefix of equal length decides the order whenever it differs. */
  lemma LexPrefix(xs: seq<int>, ys: seq<int>, us: seq<int>, vs: seq<int>)
    requires LexLess(xs, ys) && |us| == |vs|
    ensures LexLess(xs + us, ys + vs)
  {
    var i :| 0 <= i < |xs| && xs[..i] == ys[..i] && xs[i] < ys[i];
    assert (xs + us)[..i] == xs[..i] && (ys + vs)[..i] == ys[..i];
  }

  /** The leading digits of a number are the digits of what is left after dropping the others. */
  function Drop(v: nat, radix: Radix, n: nat): nat {
    if n == 0 then v else Drop(radix.Quotient(v), radix, n - 1)
  }

  lemma {:induction false} LeadingDigits(v: nat, radix: Radix, n: nat, k: nat)
    requires k <= n
    ensures Digits(v, radix, n)[..n - k] == Digits(Drop(v, radix, k), radix, n - k)
  {
    if k > 0 {
      LeadingDigits(radix.Quotient(v), radix, n - 1, k - 1);
      assert Digits(v, radix, n)[..n - k] == Digits(radix.Quotient(v), radix, n - 1)[..n - k];
    }
  }

  lemma {:induction false} DropValue(xs: seq<nat>, ys: seq<nat>, radix: Radix)
    requires InRadix(ys, radix)
    ensures Drop(Value(xs + ys, radix), radix, |ys|) == Value(xs, radix)
  {
    if ys == [] {
      assert xs + ys == xs;
    } else {
      var n := |ys| - 1;
      assert (xs + ys)[..|xs + ys| - 1] == xs + ys[..n];
      DropValue(xs, ys[..n], radix);
    }
  }
}

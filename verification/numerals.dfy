/** Positional numerals: digit sequences, most significant digit first.

    Both the hexadecimal account records and the decimal strings placed in the
    execute calldata are numerals in this sense; this module holds the one
    definition of their value and the facts the codecs rely on.
 */
module Numerals {

  function Pow(b: nat, e: nat): nat
  {
    if e == 0 then 1 else b * Pow(b, e - 1)
  }

  /** Every entry is a digit of the given base. */
  predicate IsDigits(ds: seq<nat>, base: nat)
  {
    forall i :: 0 <= i < |ds| ==> ds[i] < base
  }

  /** The shortest spelling: no leading zero, except for the number zero itself. */
  predicate IsMinimal(ds: seq<nat>)
  {
    |ds| > 0 && (ds[0] != 0 || |ds| == 1)
  }

  function Zeros(k: nat): (z: seq<nat>)
    ensures |z| == k
    ensures forall i :: 0 <= i < k ==> z[i] == 0
  {
    if k == 0 then [] else [0] + Zeros(k - 1)
  }

  /** The value of a digit sequence, most significant digit first. */
  function FromDigits(ds: seq<nat>, base: nat): nat
  {
    if |ds| == 0 then 0 else FromDigits(ds[..|ds| - 1], base) * base + ds[|ds| - 1]
  }

  /** The shortest digit sequence of `n`. */
  function ToDigits(n: nat, base: nat): (ds: seq<nat>)
    requires base >= 2
    ensures IsDigits(ds, base) && IsMinimal(ds)
    ensures FromDigits(ds, base) == n
    decreases n
  {
    if n < base then
      [n]
    else
      LemmaDivMod(n, base);
      var high := ToDigits(n / base, base);
      LemmaFromDigitsSnoc(high, n % base, base);
      high + [n % base]
  }

  lemma LemmaFromDigitsSnoc(ds: seq<nat>, d: nat, base: nat)
    ensures FromDigits(ds + [d], base) == FromDigits(ds, base) * base + d
  {
    assert (ds + [d])[..|ds|] == ds;
  }

  /** The value of a concatenation: the high part is shifted by the length of the low part. */
  lemma {:induction false} LemmaFromDigitsAppend(high: seq<nat>, low: seq<nat>, base: nat)
    ensures FromDigits(high + low, base) == FromDigits(high, base) * Pow(base, |low|) + FromDigits(low, base)
    decreases |low|
  {
    if |low| == 0 {
      assert high + low == high;
    } else {
      var init := low[..|low| - 1];
      var last := low[|low| - 1];
      assert high + low == (high + init) + [last];
      assert low == init + [last];
      LemmaFromDigitsSnoc(high + init, last, base);
      LemmaFromDigitsSnoc(init, last, base);
      LemmaFromDigitsAppend(high, init, base);
      var a, p, c := FromDigits(high, base), Pow(base, |init|), FromDigits(init, base);
      assert Pow(base, |low|) == base * p;
      LemmaShift(a, p, c, base, last);
    }
  }

  lemma LemmaShift(a: nat, p: nat, c: nat, base: nat, d: nat)
    ensures (a * p + c) * base + d == a * (base * p) + (c * base + d)
  {
    calc {
      (a * p + c) * base + d;
      (a * p) * base + c * base + d;
      a * (base * p) + (c * base + d);
    }
  }

  /** Euclidean division by a base of at least two. */
  lemma LemmaDivMod(n: nat, base: nat)
    requires base >= 2
    ensures n == (n / base) * base + n % base && n % base < base
    ensures n >= base ==> 1 <= n / base < n
  {
    var q, r := n / base, n % base;
    assert n == q * base + r;
    if n >= base {
      LemmaMulLe(2, base, q);
      assert q * base >= 2 * q;
    }
  }

  /** Most significant first: the leading digit weighs base^(number of digits after it). */
  lemma LemmaFromDigitsCons(d: nat, ds: seq<nat>, base: nat)
    ensures FromDigits([d] + ds, base) == d * Pow(base, |ds|) + FromDigits(ds, base)
  {
    LemmaFromDigitsAppend([d], ds, base);
    assert [d][..0] == [];
  }

  lemma {:induction false} LemmaFromZeros(k: nat, base: nat)
    ensures FromDigits(Zeros(k), base) == 0
  {
    if k > 0 {
      assert Zeros(k) == Zeros(k - 1) + [0];
      LemmaFromDigitsSnoc(Zeros(k - 1), 0, base);
      LemmaFromZeros(k - 1, base);
    }
  }

  /** Leading zeros do not change the value. */
  lemma LemmaLeadingZeros(k: nat, ds: seq<nat>, base: nat)
    ensures FromDigits(Zeros(k) + ds, base) == FromDigits(ds, base)
  {
    LemmaFromDigitsAppend(Zeros(k), ds, base);
    LemmaFromZeros(k, base);
  }

  lemma {:induction false} LemmaFromDigitsBound(ds: seq<nat>, base: nat)
    requires IsDigits(ds, base)
    ensures FromDigits(ds, base) < Pow(base, |ds|)
    decreases |ds|
  {
    if |ds| > 0 {
      var init := ds[..|ds| - 1];
      assert IsDigits(init, base) by {
        assert forall i :: 0 <= i < |init| ==> init[i] == ds[i];
      }
      LemmaFromDigitsBound(init, base);
      var a, d, p := FromDigits(init, base), ds[|ds| - 1], Pow(base, |init|);
      assert FromDigits(ds, base) == a * base + d;
      assert Pow(base, |ds|) == base * p;
      LemmaNextPlace(a, d, base, p);
    }
  }

  /** A number below base^k, shifted by one place and given a last digit, stays below base^(k+1). */
  lemma LemmaNextPlace(a: nat, d: nat, base: nat, p: nat)
    requires a < p && d < base
    ensures a * base + d < base * p
  {
    LemmaMulLe(a + 1, p, base);
    assert (a + 1) * base == a * base + base;
    assert p * base == base * p;
  }

  lemma LemmaMulLe(a: nat, b: nat, c: nat)
    requires a <= b
    ensures a * c <= b * c
  {
  }

  /** A numeral whose leading digit is not zero is worth at least one. */
  lemma LemmaLeadingNonZero(ds: seq<nat>, base: nat)
    requires |ds| > 0 && ds[0] != 0 && base >= 1
    ensures FromDigits(ds, base) >= 1
  {
    assert ds == [ds[0]] + ds[1..];
    LemmaFromDigitsCons(ds[0], ds[1..], base);
    LemmaPowPositive(base, |ds| - 1);
    LemmaMulLe(1, ds[0], Pow(base, |ds| - 1));
  }

  lemma {:induction false} LemmaPowPositive(b: nat, e: nat)
    requires b >= 1
    ensures Pow(b, e) >= 1
  {
    if e > 0 {
      LemmaPowPositive(b, e - 1);
      LemmaMulLe(1, b, Pow(b, e - 1));
    }
  }

  /** The minimal spelling of a number is unique: it is what ToDigits produces. */
  lemma {:induction false} LemmaToDigitsFromDigits(ds: seq<nat>, base: nat)
    requires base >= 2
    requires IsDigits(ds, base) && IsMinimal(ds)
    ensures ToDigits(FromDigits(ds, base), base) == ds
    decreases |ds|
  {
    if |ds| == 1 {
      assert FromDigits(ds, base) == ds[0] by {
        assert ds[..0] == [];
      }
    } else {
      var init := ds[..|ds| - 1];
      var last := ds[|ds| - 1];
      var n := FromDigits(ds, base);
      var a := FromDigits(init, base);
      assert init[0] == ds[0];
      assert IsDigits(init, base) by {
        assert forall i :: 0 <= i < |init| ==> init[i] == ds[i];
      }
      LemmaLeadingNonZero(init, base);
      assert n == a * base + last;
      assert n >= base by {
        LemmaMulLe(1, a, base);
      }
      assert n / base == a && n % base == last by {
        LemmaDivModUnique(n, base, a, last);
      }
      assert ToDigits(n, base) == ToDigits(a, base) + [last];
      LemmaToDigitsFromDigits(init, base);
      assert ds == init + [last];
    }
  }

  lemma LemmaDivModUnique(n: nat, base: nat, q: nat, r: nat)
    requires base >= 1 && r < base && n == q * base + r
    ensures n / base == q && n % base == r
  {
    var q0, r0 := n / base, n % base;
    assert n == q0 * base + r0;
    if q0 < q {
      LemmaMulLe(q0 + 1, q, base);
    } else if q < q0 {
      LemmaMulLe(q + 1, q0, base);
    }
  }

  /** The shortest numeral of `n` fits in `w` digits exactly when n < base^w. */
  lemma {:induction false} LemmaToDigitsLength(n: nat, base: nat, w: nat)
    requires base >= 2 && w >= 1
    ensures |ToDigits(n, base)| <= w <==> n < Pow(base, w)
    decreases n
  {
    var ds := ToDigits(n, base);
    if n < base {
      LemmaPowMonotone(base, 1, w);
    } else {
      var q := n / base;
      LemmaDivMod(n, base);
      assert ds == ToDigits(q, base) + [n % base];
      if w == 1 {
        assert |ds| >= 2;
        assert Pow(base, 1) == base;
      } else {
        LemmaToDigitsLength(q, base, w - 1);
        assert Pow(base, w) == base * Pow(base, w - 1);
        LemmaDivBound(n, base, Pow(base, w - 1));
      }
    }
  }

  lemma LemmaDivBound(n: nat, base: nat, p: nat)
    requires base >= 1
    ensures n / base < p <==> n < base * p
  {
    var q := n / base;
    var r := n % base;
    assert n == q * base + r && r < base;
    if q < p {
      LemmaMulLe(q + 1, p, base);
      assert (q + 1) * base == q * base + base;
      assert p * base == base * p;
    } else {
      LemmaMulLe(p, q, base);
      assert p * base == base * p;
    }
  }

  lemma {:induction false} LemmaPowMonotone(b: nat, e1: nat, e2: nat)
    requires b >= 1 && e1 <= e2
    ensures Pow(b, e1) <= Pow(b, e2)
    decreases e2
  {
    if e1 < e2 {
      LemmaPowMonotone(b, e1, e2 - 1);
      LemmaPowPositive(b, e2 - 1);
      LemmaMulLe(1, b, Pow(b, e2 - 1));
    }
  }

  lemma {:induction false} LemmaPowAdd(b: nat, e1: nat, e2: nat)
    ensures Pow(b, e1 + e2) == Pow(b, e1) * Pow(b, e2)
    decreases e1
  {
    if e1 > 0 {
      LemmaPowAdd(b, e1 - 1, e2);
      assert Pow(b, e1 + e2) == b * Pow(b, e1 - 1 + e2);
    }
  }

  lemma {:induction false} LemmaPowPow(b: nat, m: nat, k: nat)
    ensures Pow(Pow(b, m), k) == Pow(b, m * k)
    decreases k
  {
    if k > 0 {
      LemmaPowPow(b, m, k - 1);
      LemmaPowAdd(b, m, m * (k - 1));
      assert m * k == m + m * (k - 1);
    }
  }
}

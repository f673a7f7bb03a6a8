/**
 * Positional numerals: big-endian digit sequences in an arbitrary base.
 * Base-58 text and big-endian byte strings are both read and written through these two maps.
 */
module Radix {

  function Pow(b: nat, k: nat): (r: nat)
    ensures b >= 1 ==> r >= 1
  {
    if k == 0 then 1 else Pow(b, k - 1) * b
  }

  predicate AllBelow(ds: seq<nat>, base: nat) {
    forall i | 0 <= i < |ds| :: ds[i] < base
  }

  /** The number a big-endian digit sequence denotes (the empty sequence denotes zero). */
  function FromDigits(ds: seq<nat>, base: nat): nat {
    if ds == [] then 0 else FromDigits(ds[..|ds| - 1], base) * base + ds[|ds| - 1]
  }

  /** The shortest big-endian digit sequence of `n`: no leading zero digit, empty for zero. */
  function ToDigits(n: nat, base: nat): (ds: seq<nat>)
    requires base >= 2
    ensures AllBelow(ds, base)
    ensures ds == [] <==> n == 0
    ensures ds != [] ==> ds[0] != 0
    decreases n
  {
    if n == 0 then [] else ToDigits(n / base, base) + [n % base]
  }

  lemma {:induction false} FromToDigits(n: nat, base: nat)
    requires base >= 2
    ensures FromDigits(ToDigits(n, base), base) == n
    decreases n
  {
    if n > 0 {
      var q, r := n / base, n % base;
      var init := ToDigits(q, base);
      var ds := init + [r];
      assert ToDigits(n, base) == ds;
      assert ds[..|ds| - 1] == init;
      QuotientSmaller(n, base);
      FromToDigits(q, base);
      assert FromDigits(ds, base) == q * base + r;
      DivMod(n, base);
    }
  }

  /** A digit sequence without leading zeros is the one `ToDigits` writes for its value. */
  lemma {:induction false} ToFromDigits(ds: seq<nat>, base: nat)
    requires base >= 2 && AllBelow(ds, base)
    requires ds != [] ==> ds[0] != 0
    ensures ToDigits(FromDigits(ds, base), base) == ds
    decreases |ds|
  {
    if ds != [] {
      var init, last := ds[..|ds| - 1], ds[|ds| - 1];
      assert init != [] ==> init[0] == ds[0];
      ToFromDigits(init, base);
      var m := FromDigits(init, base);
      var n := FromDigits(ds, base);
      DivModUnique(n, base, m, last);
      if init != [] {
        assert m != 0;
        MulLe(1, m, base);
      }
      assert n != 0;
      assert ds == init + [last];
    }
  }

  lemma {:induction false} FromDigitsBound(ds: seq<nat>, base: nat)
    requires base >= 2 && AllBelow(ds, base)
    ensures FromDigits(ds, base) < Pow(base, |ds|)
    decreases |ds|
  {
    if ds != [] {
      var init, last := ds[..|ds| - 1], ds[|ds| - 1];
      assert AllBelow(init, base);
      FromDigitsBound(init, base);
      var m, p := FromDigits(init, base), Pow(base, |init|);
      assert FromDigits(ds, base) == m * base + last;
      MulLe(m + 1, p, base);
      Distrib(m, base);
      assert FromDigits(ds, base) < (m + 1) * base <= p * base;
      assert Pow(base, |ds|) == p * base;
    }
  }

  /** Appending digits shifts the prefix's value up by that many places. */
  lemma {:induction false} FromDigitsAppend(a: seq<nat>, b: seq<nat>, base: nat)
    ensures FromDigits(a + b, base) == FromDigits(a, base) * Pow(base, |b|) + FromDigits(b, base)
    decreases |b|
  {
    if b == [] {
      assert a + b == a;
    } else {
      var binit, last := b[..|b| - 1], b[|b| - 1];
      assert (a + b)[..|a + b| - 1] == a + binit;
      FromDigitsAppend(a, binit, base);
      var x, p, y := FromDigits(a, base), Pow(base, |binit|), FromDigits(binit, base);
      calc {
        FromDigits(a + b, base);
        FromDigits(a + binit, base) * base + last;
        (x * p + y) * base + last;
        { ShiftPlace(x, p, y, base, last); }
        x * (p * base) + (y * base + last);
        { PowSucc(base, |binit|); }
        x * Pow(base, |b|) + FromDigits(b, base);
      }
    }
  }

  /** A number below base^k has at most k digits. */
  lemma {:induction false} ToDigitsLength(n: nat, base: nat, k: nat)
    requires base >= 2 && n < Pow(base, k)
    ensures |ToDigits(n, base)| <= k
    decreases n
  {
    if n > 0 {
      assert k > 0;
      var p, q := Pow(base, k - 1), n / base;
      assert Pow(base, k) == p * base;
      assert q < p by {
        if q >= p {
          MulLe(p, q, base);
        }
      }
      QuotientSmaller(n, base);
      ToDigitsLength(q, base, k - 1);
      assert ToDigits(n, base) == ToDigits(q, base) + [n % base];
    }
  }

  /** Between base^k and base^(k+1) a number has k+1 digits, the first being its quotient by base^k. */
  lemma {:induction false} LeadingDigit(n: nat, base: nat, k: nat)
    requires base >= 2 && Pow(base, k) <= n < Pow(base, k + 1)
    ensures |ToDigits(n, base)| == k + 1
    ensures ToDigits(n, base)[0] == n / Pow(base, k)
    decreases k
  {
    if k == 0 {
      DivModUnique(n, base, 0, n);
      assert ToDigits(n, base) == ToDigits(0, base) + [n];
    } else {
      var q, p := n / base, Pow(base, k - 1);
      assert Pow(base, k) == p * base;
      assert p <= q < p * base by {
        if q < p {
          MulLe(q + 1, p, base);
        }
        if q >= p * base {
          MulLe(p * base, q, base);
        }
      }
      LeadingDigit(q, base, k - 1);
      DivDiv(n, base, p);
    }
  }

  lemma QuotientSmaller(n: nat, base: nat)
    requires n > 0 && base >= 2
    ensures n / base < n
  {}

  lemma ShiftPlace(x: int, p: int, y: int, b: int, d: int)
    ensures (x * p + y) * b + d == x * (p * b) + (y * b + d)
  {}

  lemma PowSucc(b: nat, k: nat)
    ensures Pow(b, k + 1) == Pow(b, k) * b
  {}

  lemma DivMod(n: nat, base: nat)
    requires base > 0
    ensures n == (n / base) * base + n % base
  {}

  lemma Distrib(m: int, b: int)
    ensures (m + 1) * b == m * b + b
  {}

  lemma MulLe(a: int, b: int, c: int)
    requires a <= b && c >= 0
    ensures a * c <= b * c
  {}

  lemma MulAssoc(a: int, b: int, c: int)
    ensures (a * b) * c == a * (b * c)
  {}

  lemma DivModUnique(n: int, b: int, q: int, r: int)
    requires b > 0 && 0 <= r < b && n == q * b + r
    ensures n / b == q && n % b == r
  {
    var q', r' := n / b, n % b;
    if q > q' {
      MulLe(q' + 1, q, b);
      assert false;
    } else if q < q' {
      MulLe(q + 1, q', b);
      assert false;
    }
  }

  lemma DivDiv(n: nat, a: nat, b: nat)
    requires a > 0 && b > 0
    ensures n / a / b == n / (a * b)
  {
    var q, r := n / a, n % a;
    var q2, r2 := q / b, q % b;
    MulAssoc(q2, b, a);
    assert n == q2 * (a * b) + (r2 * a + r) by {
      assert n == q * a + r;
      assert q == q2 * b + r2;
    }
    MulLe(r2 + 1, b, a);
    DivModUnique(n, a * b, q2, r2 * a + r);
  }

  lemma {:induction false} PowAdd(b: nat, i: nat, j: nat)
    ensures Pow(b, i + j) == Pow(b, i) * Pow(b, j)
    decreases j
  {
    if j > 0 {
      PowAdd(b, i, j - 1);
      MulAssoc(Pow(b, i), Pow(b, j - 1), b);
    }
  }

  lemma DivBound(n: nat, p: nat, t: nat)
    requires p > 0 && n < t * p
    ensures n / p < t
  {
    if n / p >= t {
      MulLe(t, n / p, p);
      DivMod(n, p);
    }
  }

  /** Two digit sequences of the same length and value are the same sequence. */
  lemma {:induction false} FromDigitsInjective(a: seq<nat>, b: seq<nat>, base: nat)
    requires base >= 2 && AllBelow(a, base) && AllBelow(b, base)
    requires |a| == |b| && FromDigits(a, base) == FromDigits(b, base)
    ensures a == b
    decreases |a|
  {
    if a != [] {
      var ia, ib := a[..|a| - 1], b[..|b| - 1];
      var n := FromDigits(a, base);
      DivModUnique(n, base, FromDigits(ia, base), a[|a| - 1]);
      DivModUnique(n, base, FromDigits(ib, base), b[|b| - 1]);
      assert AllBelow(ia, base) && AllBelow(ib, base);
      FromDigitsInjective(ia, ib, base);
      assert a == ia + [a[|a| - 1]];
      assert b == ib + [b[|b| - 1]];
    }
  }

  lemma FromDigitsCons(w: nat, rest: seq<nat>, base: nat)
    ensures FromDigits([w] + rest, base) == w * Pow(base, |rest|) + FromDigits(rest, base)
  {
    FromDigitsAppend([w], rest, base);
    assert [w][..0] == [];
  }

  lemma {:induction false} PowMono(a: nat, b: nat, k: nat)
    requires a <= b
    ensures Pow(a, k) <= Pow(b, k)
    decreases k
  {
    if k > 0 {
      PowMono(a, b, k - 1);
      MulLe(Pow(a, k - 1), Pow(b, k - 1), a);
      MulMono(Pow(b, k - 1), a, b);
    }
  }

  lemma MulMono(x: nat, a: nat, b: nat)
    requires a <= b
    ensures x * a <= x * b
  {}

  lemma DivLower(n: nat, p: nat, lo: nat)
    requires p > 0 && lo * p <= n
    ensures lo <= n / p
  {
    DivMod(n, p);
    if n / p < lo {
      MulLe(n / p + 1, lo, p);
      Distrib(n / p, p);
    }
  }
}

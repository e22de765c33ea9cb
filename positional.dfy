/** Big-endian positional notation in an arbitrary base. PADE writes its
    integers as base-256 digit strings (bytes) and its enum tags as base-2
    digit strings (header bits); both are instances of what is proved here. */
module Positional {

  /** b raised to the n-th power. */
  function Pow(b: nat, n: nat): (r: nat)
    ensures b >= 1 ==> r >= 1
  {
    if n == 0 then 1 else b * Pow(b, n - 1)
  }

  /** Every element of s is a digit in base b. */
  ghost predicate IsDigits(b: nat, s: seq<nat>)
  {
    forall i | 0 <= i < |s| :: s[i] < b
  }

  /** The number that the digit string s denotes, most significant digit first. */
  function Value(b: nat, s: seq<nat>): nat
  {
    if s == [] then 0 else Value(b, s[..|s| - 1]) * b + s[|s| - 1]
  }

  /** The n least significant base-b digits of x, most significant first. */
  function Digits(b: nat, n: nat, x: nat): (r: seq<nat>)
    requires b >= 2
    ensures |r| == n && IsDigits(b, r)
  {
    if n == 0 then [] else Digits(b, n - 1, x / b) + [x % b]
  }

  lemma {:induction false} PowAdd(b: nat, m: nat, n: nat)
    ensures Pow(b, m + n) == Pow(b, m) * Pow(b, n)
  {
    if n > 0 {
      PowAdd(b, m, n - 1);
      assert Pow(b, m + n) == b * Pow(b, m + n - 1);
      MulLeftCommute(b, Pow(b, m), Pow(b, n - 1));
    }
  }

  lemma {:induction false} PowMonotone(b: nat, m: nat, n: nat)
    requires b >= 1 && m <= n
    ensures Pow(b, m) <= Pow(b, n)
  {
    if m < n {
      PowMonotone(b, m, n - 1);
      assert Pow(b, n) == b * Pow(b, n - 1) >= Pow(b, n - 1);
    }
  }

  lemma MulLeftCommute(a: int, x: int, y: int)
    ensures a * (x * y) == x * (a * y)
  {
  }

  /** A digit below b after a number below p gives a number below b*p. */
  lemma DigitStep(hi: nat, lo: nat, b: nat, p: nat)
    requires hi < p && lo < b
    ensures hi * b + lo < b * p
  {
    MulMonotone(hi + 1, p, b);
    assert (hi + 1) * b == hi * b + b;
  }

  lemma MulMonotone(a: nat, b: nat, c: nat)
    requires a <= b
    ensures a * c <= b * c
  {
  }

  lemma MulAtLeast(d: int, m: nat)
    ensures d >= 1 ==> d * m >= m
  {
    if d >= 1 {
      assert d * m == (d - 1) * m + m;
      assert (d - 1) * m >= 0;
    }
  }

  /** A digit string of length n denotes a number below b^n. */
  lemma {:induction false} ValueBound(b: nat, s: seq<nat>)
    requires b >= 1 && IsDigits(b, s)
    ensures Value(b, s) < Pow(b, |s|)
  {
    if s != [] {
      var p := s[..|s| - 1];
      assert IsDigits(b, p);
      ValueBound(b, p);
      var v, q, d := Value(b, p), Pow(b, |p|), s[|s| - 1];
      assert d < b;
      assert Value(b, s) == v * b + d;
      assert Pow(b, |s|) == b * q;
      DigitStep(v, d, b, q);
    }
  }

  lemma Distribute(v: nat, w: nat, p: nat, b: nat, d: nat)
    ensures (v * p + w) * b + d == v * (b * p) + (w * b + d)
  {
  }

  /** Appending t multiplies the value of s by b^|t| and adds the value of t. */
  lemma {:induction false} ValueConcat(b: nat, s: seq<nat>, t: seq<nat>)
    ensures Value(b, s + t) == Value(b, s) * Pow(b, |t|) + Value(b, t)
  {
    if t != [] {
      var t' := t[..|t| - 1];
      assert (s + t)[..|s + t| - 1] == s + t';
      ValueConcat(b, s, t');
      var vs, vt, p, d := Value(b, s), Value(b, t'), Pow(b, |t'|), t[|t| - 1];
      assert t[..|t| - 1] == t';
      assert Value(b, s + t) == (vs * p + vt) * b + d;
      assert Value(b, t) == vt * b + d;
      assert Pow(b, |t|) == b * p;
      Distribute(vs, vt, p, b, d);
    } else {
      assert s + t == s;
    }
  }

  lemma {:induction false} ValueOfZeros(b: nat, z: seq<nat>)
    requires forall i | 0 <= i < |z| :: z[i] == 0
    ensures Value(b, z) == 0
  {
    if z != [] {
      ValueOfZeros(b, z[..|z| - 1]);
    }
  }

  /** Leading zero digits do not change the value. */
  lemma LeadingZeros(b: nat, z: seq<nat>, s: seq<nat>)
    requires forall i | 0 <= i < |z| :: z[i] == 0
    ensures Value(b, z + s) == Value(b, s)
  {
    ValueConcat(b, z, s);
    ValueOfZeros(b, z);
  }

  /** Euclidean division is unique: a quotient and a remainder in range are the ones. */
  lemma DivModUnique(x: nat, m: nat, q: nat, c: nat)
    requires m > 0 && c < m && x == q * m + c
    ensures x / m == q && x % m == c
  {
    var q', c' := x / m, x % m;
    assert x == q' * m + c';
    assert (q - q') * m == c' - c;
    assert (q' - q) * m == c - c';
    MulAtLeast(q - q', m);
    MulAtLeast(q' - q, m);
  }

  /** The last digit of x in base b, and the digits above it, split x mod b*p. */
  lemma ModSplit(x: nat, b: nat, p: nat)
    requires b >= 1 && p >= 1
    ensures x % (b * p) == (x / b) % p * b + x % b
  {
    var q := x / b;
    ModSplitDigits(x, b, p, q, x % b, q / p, q % p);
  }

  lemma ModSplitDigits(x: nat, b: nat, p: nat, q: nat, c: nat, q2: nat, c2: nat)
    requires b >= 1 && p >= 1 && c < b && c2 < p
    requires x == q * b + c && q == q2 * p + c2
    ensures x % (b * p) == c2 * b + c
  {
    DigitStep(c2, c, b, p);
    Regroup(q2, p, c2, b);
    DivModUnique(x, b * p, q2, c2 * b + c);
  }

  lemma Regroup(q: int, p: int, c: int, b: int)
    ensures (q * p + c) * b == q * (b * p) + c * b
  {
  }

  /** Writing x with n digits keeps exactly x mod b^n. */
  lemma {:induction false} ValueOfDigits(b: nat, n: nat, x: nat)
    requires b >= 2
    ensures Value(b, Digits(b, n, x)) == x % Pow(b, n)
  {
    if n > 0 {
      var d := Digits(b, n, x);
      assert d[..n - 1] == Digits(b, n - 1, x / b);
      ValueOfDigits(b, n - 1, x / b);
      ModSplit(x, b, Pow(b, n - 1));
    }
  }

  /** A number below b^n survives being written with n digits. */
  lemma DigitsRoundTrip(b: nat, n: nat, x: nat)
    requires b >= 2 && x < Pow(b, n)
    ensures Value(b, Digits(b, n, x)) == x
  {
    ValueOfDigits(b, n, x);
    DivModUnique(x, Pow(b, n), 0, x);
  }

  /** A digit string is recovered from its value. */
  lemma {:induction false} ValueRoundTrip(b: nat, s: seq<nat>)
    requires b >= 2 && IsDigits(b, s)
    ensures Digits(b, |s|, Value(b, s)) == s
  {
    if s != [] {
      var p := s[..|s| - 1];
      assert IsDigits(b, p);
      ValueRoundTrip(b, p);
      DivModUnique(Value(b, s), b, Value(b, p), s[|s| - 1]);
      assert s == p + [s[|s| - 1]];
    }
  }

  /** The last k of n digits of x are the k-digit writing of x. */
  lemma {:induction false} DigitsSuffix(b: nat, n: nat, k: nat, x: nat)
    requires b >= 2 && k <= n
    ensures Digits(b, n, x)[n - k..] == Digits(b, k, x)
  {
    if k > 0 {
      DigitsSuffix(b, n - 1, k - 1, x / b);
      assert Digits(b, n, x)[n - k..] == Digits(b, n - 1, x / b)[n - k..] + [x % b];
    }
  }
}

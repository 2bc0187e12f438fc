/** Polynomials over GF(2), as their coefficients from the highest power down, and division with remainder. */
module Polynomials {
  import opened Bytes

  /** The polynomial with a term for each of these powers. */
  function Terms(powers: set<nat>, degree: nat): (p: Bits)
    ensures |p| == degree + 1
  {
    seq(degree + 1, i requires 0 <= i <= degree => degree - i in powers)
  }

  /** The product with a divisor of degree `|divisor| - 1`. */
  function Times(quotient: Bits, divisor: Bits): (product: Bits)
    requires divisor != []
    ensures |product| == |quotient| + |divisor| - 1
  {
    if quotient == [] then Zeros(|divisor| - 1)
    else
      var n := |quotient| - 1;
      Xor(Times(quotient[..n], divisor) + [false], Zeros(n) + if quotient[n] then divisor else Zeros(|divisor|))
  }

  /** The dividend is a multiple of the divisor plus the remainder, which is of lower degree. */
  ghost predicate Divides(dividend: Bits, divisor: Bits, quotient: Bits, remainder: Bits)
    requires divisor != [] && |remainder| == |divisor| - 1
  {
    |dividend| == |quotient| + |remainder| && dividend == Xor(Times(quotient, divisor), Zeros(|quotient|) + remainder)
  }

  ghost predicate IsRemainder(dividend: Bits, divisor: Bits, remainder: Bits)
    requires divisor != [] && |remainder| == |divisor| - 1
  {
    exists quotient :: Divides(dividend, divisor, quotient, remainder)
  }

  lemma TimesSnoc(quotient: Bits, bit: bool, divisor: Bits)
    requires divisor != []
    ensures Times(quotient + [bit], divisor)
         == Xor(Times(quotient, divisor) + [false], Zeros(|quotient|) + if bit then divisor else Zeros(|divisor|))
  {
    assert (quotient + [bit])[..|quotient|] == quotient;
  }

  /** The leading coefficients of a product determine the quotient. */
  lemma {:induction false} QuotientFromProduct(a: Bits, b: Bits, divisor: Bits)
    requires divisor != [] && divisor[0] && |a| == |b|
    requires Times(a, divisor)[..|a|] == Times(b, divisor)[..|a|]
    ensures a == b
  {
    if a != [] {
      var n := |a| - 1;
      var p, q := Times(a[..n], divisor), Times(b[..n], divisor);
      forall k | 0 <= k < n ensures p[k] == q[k] {
        assert Times(a, divisor)[k] == p[k] && Times(b, divisor)[k] == q[k];
        assert Times(a, divisor)[..n + 1][k] == Times(b, divisor)[..n + 1][k];
      }
      assert p[..n] == q[..n];
      QuotientFromProduct(a[..n], b[..n], divisor);
      assert Times(a, divisor)[..n + 1][n] == Times(b, divisor)[..n + 1][n];
      assert (p + [false])[n] == (q + [false])[n];
      assert a == a[..n] + [a[n]] && b == b[..n] + [b[n]];
    }
  }

  /** There is one remainder only. */
  lemma {:induction false} RemainderIsUnique(dividend: Bits, divisor: Bits, a: Bits, b: Bits)
    requires divisor != [] && divisor[0] && |a| == |b| == |divisor| - 1
    requires IsRemainder(dividend, divisor, a) && IsRemainder(dividend, divisor, b)
    ensures a == b
  {
    var p :| Divides(dividend, divisor, p, a);
    var q :| Divides(dividend, divisor, q, b);
    var n := |p|;
    forall k | 0 <= k < n ensures Times(p, divisor)[k] == Times(q, divisor)[k] {
      assert dividend[k] == Times(p, divisor)[k] && dividend[k] == Times(q, divisor)[k];
    }
    assert Times(p, divisor)[..n] == Times(q, divisor)[..n];
    QuotientFromProduct(p, q, divisor);
    forall k | 0 <= k < |a| ensures a[k] == b[k] {
      assert (Zeros(n) + a)[n + k] == a[k] && (Zeros(n) + b)[n + k] == b[k];
      assert dividend[n + k] == (Times(p, divisor)[n + k] != a[k]);
      assert dividend[n + k] == (Times(q, divisor)[n + k] != b[k]);
    }
  }

  /** Long division, one coefficient at a time: a step brings down the next one and takes the divisor away if the
      leading coefficient is set. */
  lemma {:induction false} BringDown(dividend: Bits, divisor: Bits, quotient: Bits, remainder: Bits,
                                     bit: bool, next: Bits)
    requires divisor != [] && divisor[0] && |remainder| == |next| == |divisor| - 1 > 0
    requires Divides(dividend, divisor, quotient, remainder)
    requires [false] + next == Xor(remainder + [bit], if remainder[0] then divisor else Zeros(|divisor|))
    ensures Divides(dividend + [bit], divisor, quotient + [remainder[0]], next)
  {
    var n, d := |quotient|, if remainder[0] then divisor else Zeros(|divisor|);
    var p := Times(quotient, divisor);
    TimesSnoc(quotient, remainder[0], divisor);
    var result := Xor(Times(quotient + [remainder[0]], divisor), Zeros(n + 1) + next);
    forall k | 0 <= k < |dividend| + 1 ensures (dividend + [bit])[k] == result[k] {
      assert Zeros(n + 1) + next == Zeros(n) + ([false] + next);
      assert Times(quotient + [remainder[0]], divisor)[k] == ((p + [false])[k] != (Zeros(n) + d)[k]);
      if k < n {
        assert dividend[k] == (p[k] != (Zeros(n) + remainder)[k]);
      } else {
        assert ([false] + next)[k - n] == ((remainder + [bit])[k - n] != d[k - n]);
        if k < |dividend| { assert dividend[k] == (p[k] != (Zeros(n) + remainder)[k]); }
      }
    }
    assert dividend + [bit] == result;
  }

  /** A division whose lowest powers are still to come, after the next coefficient has entered above them. */
  ghost predicate Enters(fed: Bits, divisor: Bits, quotient: Bits, remainder: Bits, bit: bool, next: Bits) {
    && divisor != [] && divisor[0] && |remainder| == |next| == |divisor| - 1 > 0 && |quotient| == |fed|
    && Divides(fed + Zeros(|remainder|), divisor, quotient, remainder)
    && var entered := Xor(remainder + [false], [bit] + Zeros(|remainder|));
       [false] + next == Xor(entered, if entered[0] then divisor else Zeros(|divisor|))
  }

  lemma {:induction false} EnteredAt(fed: Bits, divisor: Bits, quotient: Bits, remainder: Bits, bit: bool, next: Bits,
                                     k: nat)
    requires Enters(fed, divisor, quotient, remainder, bit, next) && k < |fed| + 1 + |remainder|
    ensures (fed + [bit] + Zeros(|remainder|))[k]
         == Xor(Times(quotient + [remainder[0] != bit], divisor), Zeros(|fed| + 1) + next)[k]
  {
    var n, lead := |fed|, remainder[0] != bit;
    var entered := Xor(remainder + [false], [bit] + Zeros(|remainder|));
    var d := if lead then divisor else Zeros(|divisor|);
    var p, dividend := Times(quotient, divisor), fed + Zeros(|remainder|);
    TimesSnoc(quotient, lead, divisor);
    assert Times(quotient + [lead], divisor)[k] == ((p + [false])[k] != (Zeros(n) + d)[k]);
    if k < |dividend| { assert dividend[k] == (p[k] != (Zeros(n) + remainder)[k]); }
    if k < n {
      assert !(Zeros(n + 1) + next)[k] && !(Zeros(n) + d)[k];
    } else {
      assert (Zeros(n + 1) + next)[k] == ([false] + next)[k - n] == (entered[k - n] != d[k - n]);
      assert entered[k - n] == ((remainder + [false])[k - n] != ([bit] + Zeros(|remainder|))[k - n]);
    }
  }

  /** The same with the low powers still to come: the next coefficient enters above them. */
  lemma {:induction false} BringIn(fed: Bits, divisor: Bits, quotient: Bits, remainder: Bits, bit: bool, next: Bits)
    requires Enters(fed, divisor, quotient, remainder, bit, next)
    ensures Divides(fed + [bit] + Zeros(|remainder|), divisor, quotient + [remainder[0] != bit], next)
  {
    var all := fed + [bit] + Zeros(|remainder|);
    var result := Xor(Times(quotient + [remainder[0] != bit], divisor), Zeros(|fed| + 1) + next);
    forall k | 0 <= k < |all| ensures all[k] == result[k] {
      EnteredAt(fed, divisor, quotient, remainder, bit, next, k);
    }
    assert all == result;
  }
}

/** Positional notation: what `to_radix_be`, `from_radix_be` and powers of ten mean. */
module Radix {

  function Pow(b: nat, k: nat): (r: nat)
    ensures b > 0 ==> r > 0
  {
    if k == 0 then 1 else b * Pow(b, k - 1)
  }

  lemma PowSucc(b: nat, k: nat)
    requires k > 0
    ensures Pow(b, k) == b * Pow(b, k - 1)
  {
  }

  lemma MulRotate(h: int, p: int, b: int, q: int)
    requires q == b * p
    ensures (h * p) * b == h * q
  {
  }

  lemma ShiftSum(h: int, p: int, b: int, q: int, l: int)
    requires q == b * p
    ensures (h * p + l) * b == h * q + l * b
  {
    MulRotate(h, p, b, q);
  }

  lemma MulLe(a: int, b: int, c: nat)
    requires a <= b
    ensures a * c <= b * c
  {
  }

  lemma {:induction false} PowAdd(b: nat, j: nat, k: nat)
    ensures Pow(b, j + k) == Pow(b, j) * Pow(b, k)
  {
    if j > 0 {
      PowAdd(b, j - 1, k);
      PowSucc(b, j + k);
      PowSucc(b, j);
      hide Pow;
      MulRotate(Pow(b, k), Pow(b, j - 1), b, Pow(b, j));
    }
  }

  ghost predicate InBase(base: nat, s: seq<int>) {
    forall i :: 0 <= i < |s| ==> 0 <= s[i] < base
  }

  /** The number written by the digits `s`, most significant first. */
  function Horner(base: nat, s: seq<int>): int {
    if s == [] then 0 else Horner(base, s[..|s| - 1]) * base + s[|s| - 1]
  }

  lemma HornerSnoc(base: nat, s: seq<int>, d: int)
    ensures Horner(base, s + [d]) == Horner(base, s) * base + d
  {
    assert (s + [d])[..|s|] == s;
  }

  lemma {:induction false} HornerConcat(base: nat, a: seq<int>, b: seq<int>)
    ensures Horner(base, a + b) == Horner(base, a) * Pow(base, |b|) + Horner(base, b)
  {
    if b == [] {
      assert a + b == a;
    } else {
      hide Pow, Horner;
      var b', d := b[..|b| - 1], b[|b| - 1];
      HornerConcat(base, a, b');
      assert b == b' + [d] && a + b == (a + b') + [d];
      HornerSnoc(base, a + b', d);
      HornerSnoc(base, b', d);
      PowSucc(base, |b|);
      ShiftSum(Horner(base, a), Pow(base, |b'|), base, Pow(base, |b|), Horner(base, b'));
    }
  }

  lemma {:induction false} HornerBound(base: nat, s: seq<int>)
    requires InBase(base, s)
    ensures 0 <= Horner(base, s) < Pow(base, |s|)
  {
    if s != [] {
      var s', d := s[..|s| - 1], s[|s| - 1];
      HornerBound(base, s');
      var h, p := Horner(base, s'), Pow(base, |s'|);
      MulLe(0, h, base);
      MulLe(h, p - 1, base);
      assert (p - 1) * base == Pow(base, |s|) - base;
    }
  }

  lemma QuotientUnique(base: nat, p: int, x: int, q: int, y: int)
    requires p * base + x == q * base + y && 0 <= x < base && 0 <= y < base
    ensures p == q && x == y
  {
    if p < q {
      MulLe(p + 1, q, base);
    } else if q < p {
      MulLe(q + 1, p, base);
    }
  }

  /** Two digit strings of one length that write the same number are the same. */
  lemma {:induction false} HornerInjective(base: nat, a: seq<int>, b: seq<int>)
    requires |a| == |b| && InBase(base, a) && InBase(base, b)
    requires Horner(base, a) == Horner(base, b)
    ensures a == b
  {
    if a != [] {
      var a', b' := a[..|a| - 1], b[..|b| - 1];
      var x, y := a[|a| - 1], b[|b| - 1];
      QuotientUnique(base, Horner(base, a'), x, Horner(base, b'), y);
      HornerInjective(base, a', b');
      assert a == a' + [x] && b == b' + [y];
    }
  }

  function Zeros(k: nat): (s: seq<int>)
    ensures |s| == k && forall i :: 0 <= i < k ==> s[i] == 0
  {
    seq(k, _ => 0)
  }

  lemma {:induction false} HornerZeros(base: nat, s: seq<int>, k: nat)
    ensures Horner(base, s + Zeros(k)) == Horner(base, s) * Pow(base, k)
  {
    if k == 0 {
      assert s + Zeros(0) == s;
    } else {
      hide Pow, Horner;
      HornerZeros(base, s, k - 1);
      assert s + Zeros(k) == (s + Zeros(k - 1)) + [0];
      HornerSnoc(base, s + Zeros(k - 1), 0);
      PowSucc(base, k);
      MulRotate(Horner(base, s), Pow(base, k - 1), base, Pow(base, k));
    }
  }

  /** A number whose leading digit is not zero needs all its digits. */
  lemma HornerLeading(base: nat, s: seq<int>)
    requires s != [] && InBase(base, s) && s[0] > 0
    ensures Horner(base, s) >= Pow(base, |s| - 1)
  {
    assert s == s[..1] + s[1..];
    HornerConcat(base, s[..1], s[1..]);
    HornerBound(base, s[1..]);
    assert s[..1] == [] + [s[0]];
    HornerSnoc(base, [], s[0]);
    MulLe(1, s[0], Pow(base, |s| - 1));
  }

  /** `to_radix_be(10)`: the decimal digits of `n`, `[0]` for zero. */
  function Decimal(n: nat): (s: seq<int>)
    ensures s != [] && InBase(10, s) && Horner(10, s) == n
    ensures n > 0 ==> s[0] > 0
    ensures n == 0 ==> s == [0]
  {
    if n < 10 then
      assert Horner(10, [n]) == n by { HornerSnoc(10, [], n); assert [] + [n] == [n]; }
      [n]
    else
      HornerSnoc(10, Decimal(n / 10), n % 10);
      Decimal(n / 10) + [n % 10]
  }

  lemma DecimalInjective(m: nat, n: nat)
    requires Decimal(m) == Decimal(n)
    ensures m == n
  {
    assert Horner(10, Decimal(m)) == m && Horner(10, Decimal(n)) == n;
  }

  /** Ten to any integer power. */
  ghost function TenTo(k: int): (r: real)
    ensures r > 0.0
  {
    if k >= 0 then Pow(10, k) as real else 1.0 / Pow(10, -k) as real
  }

  lemma {:induction false} TenToNext(k: int)
    ensures TenTo(k + 1) == 10.0 * TenTo(k)
  {
    if k < 0 {
      var p, q := Pow(10, -k), Pow(10, -k - 1);
      assert p == 10 * q;
      assert 1.0 / q as real == 10.0 * (1.0 / p as real);
    }
  }

  ghost predicate TenToAdds(j: int, k: int) { TenTo(j + k) == TenTo(j) * TenTo(k) }

  lemma TenToAddsUp(j: int, k: int)
    requires TenToAdds(j, k - 1)
    ensures TenToAdds(j, k)
  {
    TenToNext(j + k - 1);
    TenToNext(k - 1);
    ScaleUp(TenTo(j), TenTo(k - 1), TenTo(k), TenTo(j + (k - 1)), TenTo(j + k));
  }

  lemma TenToAddsDown(j: int, k: int)
    requires TenToAdds(j, k + 1)
    ensures TenToAdds(j, k)
  {
    TenToNext(j + k);
    TenToNext(k);
    ScaleDown(TenTo(j), TenTo(k), TenTo(k + 1), TenTo(j + k), TenTo(j + (k + 1)));
  }

  lemma {:induction false} TenToAdd(j: int, k: int)
    ensures TenToAdds(j, k)
    decreases if k < 0 then -k else k
  {
    if k == 0 {
      assert TenTo(0) == 1.0;
    } else if k > 0 {
      TenToAdd(j, k - 1);
      TenToAddsUp(j, k);
    } else {
      TenToAdd(j, k + 1);
      TenToAddsDown(j, k);
    }
  }

  lemma ScaleUp(x: real, y: real, z: real, a: real, b: real)
    requires a == x * y && z == 10.0 * y && b == 10.0 * a
    ensures b == x * z
  {
  }

  lemma ScaleDown(x: real, y: real, z: real, a: real, b: real)
    requires b == x * z && z == 10.0 * y && b == 10.0 * a
    ensures a == x * y
  {
  }

  lemma {:induction false} TenToPow(k: nat)
    ensures TenTo(k) == Pow(10, k) as real
  {
    if k > 0 {
      TenToPow(k - 1);
    }
  }
}

/**
 Polynomials over GF(2) as sequences of coefficients, highest degree first, and division by
 the CRC-24Q generator 0x1864CFB (the polynomial of section 6.1 of RFC 4880).
 */
module Polynomials {
  type Poly = seq<bool>

  function Zeros(n: nat): (z: Poly)
    ensures |z| == n && forall i :: 0 <= i < n ==> !z[i]
  {
    seq(n, _ => false)
  }

  function Add(a: Poly, b: Poly): (c: Poly)
    requires |a| == |b|
    ensures |c| == |a| && forall i :: 0 <= i < |a| ==> c[i] == (a[i] != b[i])
  {
    seq(|a|, i requires 0 <= i < |a| => a[i] != b[i])
  }

  function Scale(c: bool, a: Poly): (p: Poly)
    ensures |p| == |a| && forall i :: 0 <= i < |a| ==> p[i] == (c && a[i])
  {
    seq(|a|, i requires 0 <= i < |a| => c && a[i])
  }

  /** The generator 0x1864CFB. */
  function Generator(): (g: Poly)
    ensures |g| == 25 && g[0] && g[24]
  {
    [true,
     true, false, false, false, false, true, true, false, false, true, false, false,
     true, true, false, false, true, true, true, true, true, false, true, true]
  }

  /** Multiply by x modulo the generator. */
  function TimesX(r: Poly): (s: Poly)
    requires |r| == 24
    ensures |s| == 24
  {
    Add(r + [false], Scale(r[0], Generator()))[1..]
  }

  /** Schoolbook division: bring down one bit at a time, subtract the generator when it fits. */
  function Divide(r: Poly, bits: Poly): (s: Poly)
    requires |r| == 24
    ensures |s| == 24
    decreases bits
  {
    if bits == [] then r else Divide(Add(TimesX(r), Zeros(23) + [bits[0]]), bits[1..])
  }

  /** The remainder of a polynomial modulo the generator. */
  function Remainder(p: Poly): (r: Poly)
    ensures |r| == 24
  {
    Divide(Zeros(24), p)
  }

  /** The register the table implements: the bit enters at the top, 24 places ahead. */
  function FeedBits(r: Poly, bits: Poly): (s: Poly)
    requires |r| == 24
    ensures |s| == 24
    decreases bits
  {
    if bits == [] then r else FeedBits(TimesX(AddTop(r, bits[0])), bits[1..])
  }

  /** Add a bit to the highest coefficient. */
  function AddTop(r: Poly, b: bool): (s: Poly)
    requires |r| == 24
    ensures |s| == 24
  {
    r[0 := r[0] != b]
  }

  function TimesXPow(n: nat, r: Poly): (s: Poly)
    requires |r| == 24
    ensures |s| == 24
  {
    if n == 0 then r else TimesXPow(n - 1, TimesX(r))
  }

  // ---------------------------------------------------- addition and linearity

  lemma TimesXLinear(r: Poly, s: Poly)
    requires |r| == |s| == 24
    ensures TimesX(Add(r, s)) == Add(TimesX(r), TimesX(s))
  {
  }

  lemma {:induction false} TimesXPowLinear(n: nat, r: Poly, s: Poly)
    requires |r| == |s| == 24
    ensures TimesXPow(n, Add(r, s)) == Add(TimesXPow(n, r), TimesXPow(n, s))
  {
    hide TimesX;
    if n != 0 {
      TimesXLinear(r, s);
      TimesXPowLinear(n - 1, TimesX(r), TimesX(s));
    }
  }

  lemma {:induction false} TimesXPowAdd(m: nat, n: nat, r: Poly)
    requires |r| == 24
    ensures TimesXPow(m + n, r) == TimesXPow(n, TimesXPow(m, r))
  {
    hide TimesX;
    if m != 0 {
      TimesXPowAdd(m - 1, n, TimesX(r));
    }
  }

  lemma {:induction false} FeedBitsConcat(r: Poly, a: Poly, b: Poly)
    requires |r| == 24
    ensures FeedBits(r, a + b) == FeedBits(FeedBits(r, a), b)
    decreases |a|
  {
    if a == [] {
      assert a + b == b;
    } else {
      assert (a + b)[1..] == a[1..] + b;
      FeedBitsConcat(TimesX(AddTop(r, a[0])), a[1..], b);
    }
  }

  lemma {:induction false} DivideConcat(r: Poly, a: Poly, b: Poly)
    requires |r| == 24
    ensures Divide(r, a + b) == Divide(Divide(r, a), b)
    decreases |a|
  {
    if a == [] {
      assert a + b == b;
    } else {
      assert (a + b)[1..] == a[1..] + b;
      DivideConcat(Add(TimesX(r), Zeros(23) + [a[0]]), a[1..], b);
    }
  }

  /** The register is linear in state and message together. */
  lemma {:induction false} FeedBitsLinear(r: Poly, s: Poly, a: Poly, b: Poly)
    requires |r| == |s| == 24 && |a| == |b|
    ensures FeedBits(Add(r, s), Add(a, b)) == Add(FeedBits(r, a), FeedBits(s, b))
    decreases |a|
  {
    if a != [] {
      var r', s' := AddTop(r, a[0]), AddTop(s, b[0]);
      assert AddTop(Add(r, s), Add(a, b)[0]) == Add(r', s');
      hide TimesX;
      TimesXLinear(r', s');
      assert Add(a, b)[1..] == Add(a[1..], b[1..]);
      FeedBitsLinear(TimesX(r'), TimesX(s'), a[1..], b[1..]);
    }
  }

  // ---------------------------------------------------- the inverse of multiplication by x

  /** Division by x: the generator's constant term shows whether it was subtracted. */
  function OverX(s: Poly): (r: Poly)
    requires |s| == 24
    ensures |r| == 24
  {
    Add([false] + s, Scale(s[23], Generator()))[..24]
  }

  lemma OverXInverts(r: Poly)
    requires |r| == 24
    ensures OverX(TimesX(r)) == r && TimesX(OverX(r)) == r
  {
  }

  lemma {:induction false} TimesXPowInjective(n: nat, r: Poly, s: Poly)
    requires |r| == |s| == 24 && TimesXPow(n, r) == TimesXPow(n, s)
    ensures r == s
  {
    hide TimesX, OverX;
    if n != 0 {
      TimesXPowInjective(n - 1, TimesX(r), TimesX(s));
      OverXInverts(r);
      OverXInverts(s);
    }
  }

  /** The state that `bits` leads away from. */
  function UnfeedBits(s: Poly, bits: Poly): (r: Poly)
    requires |s| == 24
    ensures |r| == 24
    decreases bits
  {
    if bits == [] then s else AddTop(OverX(UnfeedBits(s, bits[1..])), bits[0])
  }

  lemma AddTopInverts(r: Poly, b: bool)
    requires |r| == 24
    ensures AddTop(AddTop(r, b), b) == r
  {
  }

  /** For a fixed message the register is a bijection on its 2^24 states. */
  lemma {:induction false} FeedBitsBijective(r: Poly, bits: Poly)
    requires |r| == 24
    ensures UnfeedBits(FeedBits(r, bits), bits) == r
    ensures FeedBits(UnfeedBits(r, bits), bits) == r
    decreases |bits|
  {
    hide TimesX, OverX, AddTop;
    if bits != [] {
      FeedBitsBijective(TimesX(AddTop(r, bits[0])), bits[1..]);
      OverXInverts(AddTop(r, bits[0]));
      AddTopInverts(r, bits[0]);
      FeedBitsBijective(r, bits[1..]);
      OverXInverts(UnfeedBits(r, bits[1..]));
      AddTopInverts(OverX(UnfeedBits(r, bits[1..])), bits[0]);
    }
  }

  // ---------------------------------------------------- division means what it says

  /** The quotient of schoolbook division: the bits at which the generator was subtracted. */
  function Quotient(bits: Poly): (q: Poly)
    ensures |q| == |bits|
  {
    if bits == [] then []
    else
      var n := |bits| - 1;
      Quotient(bits[..n]) + [Remainder(bits[..n])[0]]
  }

  /** Carry-less multiplication by the generator. */
  function TimesGenerator(q: Poly): (p: Poly)
    ensures |p| == |q| + 24
  {
    if q == [] then Zeros(24)
    else
      var n := |q| - 1;
      Add(TimesGenerator(q[..n]) + [false], Zeros(n) + Scale(q[n], Generator()))
  }

  lemma DivisionStep(front: Poly, last: bool, p: Poly, r: Poly)
    requires |p| == |front| + 24 && |r| == 24
    requires Zeros(24) + front == Add(p, Zeros(|front|) + r)
    ensures Zeros(24) + (front + [last])
         == Add(Add(p + [false], Zeros(|front|) + Scale(r[0], Generator())),
                Zeros(|front| + 1) + Add(TimesX(r), Zeros(23) + [last]))
  {
    var n := |front|;
    var scaled := Scale(r[0], Generator());
    var rest := Add(TimesX(r), Zeros(23) + [last]);
    assert forall j :: 1 <= j < 25 ==> rest[j - 1] == (((if j < 24 then r[j] else false) != scaled[j]) != (j == 24 && last));
    forall k | 0 <= k < n + 25
      ensures (Zeros(24) + (front + [last]))[k]
           == Add(Add(p + [false], Zeros(n) + scaled), Zeros(n + 1) + rest)[k]
    {
      if k < n + 24 {
        assert (Zeros(24) + front)[k] == (p[k] != (Zeros(n) + r)[k]);
      }
    }
  }

  /** The division identity: a polynomial is quotient times generator plus a remainder of degree below 24. */
  lemma {:induction false} DivisionIdentity(bits: Poly)
    ensures Zeros(24) + bits == Add(TimesGenerator(Quotient(bits)), Zeros(|bits|) + Remainder(bits))
  {
    if bits == [] {
      assert Zeros(24) + bits == Zeros(24);
    } else {
      hide *;
      var n := |bits| - 1;
      var front, last := bits[..n], bits[n];
      var r, q := Remainder(front), Quotient(front);
      DivisionIdentity(front);
      DivisionStep(front, last, TimesGenerator(q), r);
      assert bits == front + [last];
      RemainderLast(front, last);
      ProductLast(front, last);
    }
  }

  lemma RemainderLast(front: Poly, last: bool)
    ensures Remainder(front + [last]) == Add(TimesX(Remainder(front)), Zeros(23) + [last])
  {
    hide TimesX;
    DivideConcat(Zeros(24), front, [last]);
    assert [last][1..] == [];
  }

  lemma ProductLast(front: Poly, last: bool)
    ensures var p, r := TimesGenerator(Quotient(front)), Remainder(front);
            TimesGenerator(Quotient(front + [last])) == Add(p + [false], Zeros(|front|) + Scale(r[0], Generator()))
  {
    hide *;
    QuotientLast(front, last);
    ProductStep(Quotient(front), Remainder(front)[0]);
  }

  lemma QuotientLast(front: Poly, last: bool)
    ensures Quotient(front + [last]) == Quotient(front) + [Remainder(front)[0]]
  {
    hide Remainder;
    assert (front + [last])[..|front|] == front;
  }

  lemma ProductStep(q: Poly, b: bool)
    ensures TimesGenerator(q + [b]) == Add(TimesGenerator(q) + [false], Zeros(|q|) + Scale(b, Generator()))
  {
    hide Generator, Add, Scale, Zeros;
    assert (q + [b])[..|q|] == q;
  }

  lemma {:induction false} TimesGeneratorLinear(p: Poly, q: Poly)
    requires |p| == |q|
    ensures TimesGenerator(Add(p, q)) == Add(TimesGenerator(p), TimesGenerator(q))
    decreases |p|
  {
    hide Generator;
    if p == [] {
      assert Add(p, q) == [];
    } else {
      var n := |p| - 1;
      assert Add(p, q)[..n] == Add(p[..n], q[..n]);
      TimesGeneratorLinear(p[..n], q[..n]);
    }
  }

  /** The product's leading coefficients are zero exactly as far as the factor's are. */
  lemma {:induction false} TimesGeneratorLeading(q: Poly, i: nat)
    requires i < |q| && forall k :: 0 <= k < i ==> !q[k]
    ensures TimesGenerator(q)[i] == q[i]
    decreases |q|
  {
    hide Generator;
    var n := |q| - 1;
    var p := TimesGenerator(q[..n]);
    assert TimesGenerator(q)[i] == ((p + [false])[i] != (Zeros(n) + Scale(q[n], Generator()))[i]);
    if i < n {
      TimesGeneratorLeading(q[..n], i);
    } else {
      NoFactorNoProduct(q[..n]);
    }
  }

  lemma {:induction false} NoFactorNoProduct(q: Poly)
    requires forall k :: 0 <= k < |q| ==> !q[k]
    ensures TimesGenerator(q) == Zeros(|q| + 24)
    decreases |q|
  {
    hide Generator;
    if q != [] {
      NoFactorNoProduct(q[..|q| - 1]);
    }
  }

  lemma {:induction false} SmallMultipleIsZero(q: Poly, i: nat)
    requires i <= |q| && forall k :: 0 <= k < i ==> !q[k]
    requires forall k :: 0 <= k < |q| ==> !TimesGenerator(q)[k]
    ensures forall k :: 0 <= k < |q| ==> !q[k]
    decreases |q| - i
  {
    if i < |q| {
      TimesGeneratorLeading(q, i);
      SmallMultipleIsZero(q, i + 1);
    }
  }

  lemma SameSum(s: Poly, a: Poly, r: Poly, a': Poly, r': Poly, k: nat)
    requires |a| == |a'| == |s| && |r| == |r'| == 24 <= |s| && k < |s|
    requires s == Add(a, Zeros(|s| - 24) + r) && s == Add(a', Zeros(|s| - 24) + r')
    ensures Add(a, a')[k] == (k >= |s| - 24 && r[k - (|s| - 24)] != r'[k - (|s| - 24)])
  {
    assert s[k] == (a[k] != (Zeros(|s| - 24) + r)[k]);
    assert s[k] == (a'[k] != (Zeros(|s| - 24) + r')[k]);
  }

  /** Quotient and remainder are determined by the division identity. */
  lemma RemainderUnique(bits: Poly, q: Poly, r: Poly)
    requires |q| == |bits| && |r| == 24
    requires Zeros(24) + bits == Add(TimesGenerator(q), Zeros(|bits|) + r)
    ensures q == Quotient(bits) && r == Remainder(bits)
  {
    hide Add, TimesGenerator, Quotient, Remainder, Zeros;
    var n, q', r' := |bits|, Quotient(bits), Remainder(bits);
    DivisionIdentity(bits);
    var d := Add(q, q');
    TimesGeneratorLinear(q, q');
    forall k | 0 <= k < n + 24
      ensures TimesGenerator(d)[k] == (k >= n && r[k - n] != r'[k - n])
    {
      SameSum(Zeros(24) + bits, TimesGenerator(q), r, TimesGenerator(q'), r', k);
    }
    SmallMultipleIsZero(d, 0);
    NoFactorNoProduct(d);
    forall k | 0 <= k < n
      ensures q[k] == q'[k]
    {
      assert !d[k];
    }
    forall k | 0 <= k < 24
      ensures r[k] == r'[k]
    {
      assert !TimesGenerator(d)[n + k];
    }
  }
}

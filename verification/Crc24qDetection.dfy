/**
 Which transmission errors a CRC-24Q check finds (_CRC24Q_Sequence_update in cpukit/crc/crc24q.c): an
 error goes unnoticed exactly when it is a multiple of the generator.
 */
module Crc24qDetection {
  import opened Polynomials
  import opened Crc24qWords
  import opened Crc24q

  /** The bits in which two messages of one length differ. */
  function Difference(a: seq<byte>, b: seq<byte>): (e: Poly)
    requires |a| == |b|
    ensures |e| == 8 * |a|
  {
    Add(MessageBits(a), MessageBits(b))
  }

  lemma {:induction false} PowerOfZero(n: nat)
    ensures TimesXPow(n, Zeros(24)) == Zeros(24)
  {
    if n > 0 {
      assert TimesX(Zeros(24)) == Zeros(24);
      PowerOfZero(n - 1);
    }
  }

  lemma AddIsZero(a: Poly, b: Poly)
    requires |a| == |b|
    ensures Add(a, b) == Zeros(|a|) <==> a == b
  {
    if Add(a, b) == Zeros(|a|) {
      forall i | 0 <= i < |a|
        ensures a[i] == b[i]
      {
        assert !Add(a, b)[i];
      }
    }
  }

  /** The difference alone, fed to the zero state, decides. */
  lemma DifferenceDecides(r: Poly, x: Poly, y: Poly)
    requires |r| == 24 && |x| == |y|
    ensures FeedBits(r, x) == FeedBits(r, y) <==> FeedBits(Zeros(24), Add(x, y)) == Zeros(24)
  {
    hide FeedBits;
    FeedBitsLinear(r, r, x, y);
    AddIsZero(r, r);
    AddIsZero(FeedBits(r, x), FeedBits(r, y));
  }

  /** From the zero state, the register is zero exactly after multiples of the generator. */
  lemma ZeroIffMultiple(e: Poly)
    ensures FeedBits(Zeros(24), e) == Zeros(24) <==> Remainder(e) == Zeros(24)
  {
    hide FeedBits, Divide, TimesXPow;
    PowerOfZero(24);
    FeedBitsDividesAhead(Zeros(24), e);
    if TimesXPow(24, Remainder(e)) == Zeros(24) {
      TimesXPowInjective(24, Remainder(e), Zeros(24));
    }
  }

  lemma RemainderZeroIffProduct(e: Poly)
    ensures Remainder(e) == Zeros(24) <==> (exists q: Poly :: |q| == |e| && Zeros(24) + e == TimesGenerator(q))
  {
    hide Remainder, Quotient, TimesGenerator;
    DivisionIdentity(e);
    var z := Zeros(|e|) + Zeros(24);
    if Remainder(e) == Zeros(24) {
      assert Add(TimesGenerator(Quotient(e)), z) == TimesGenerator(Quotient(e));
    }
    forall q: Poly | |q| == |e| && Zeros(24) + e == TimesGenerator(q)
      ensures Remainder(e) == Zeros(24)
    {
      assert Add(TimesGenerator(q), z) == TimesGenerator(q);
      RemainderUnique(e, q, Zeros(24));
    }
  }

  /**
   Whatever the start value: two messages of one length have the same CRC if and only if their
   difference is a multiple of the generator.
   */
  lemma UndetectedIffMultiple(crc: bv32, a: seq<byte>, b: seq<byte>)
    requires |a| == |b|
    ensures Crc(UpdateAll(crc, a)) == Crc(UpdateAll(crc, b))
       <==> (exists q: Poly :: |q| == 8 * |a| && Zeros(24) + Difference(a, b) == TimesGenerator(q))
  {
    hide *;
    UpdateAllIsFeed(crc, a);
    UpdateAllIsFeed(crc, b);
    assert Difference(a, b) == Add(MessageBits(a), MessageBits(b)) by {
      DifferenceIs(a, b);
    }
    DifferenceDecides(Crc(crc), MessageBits(a), MessageBits(b));
    ZeroIffMultiple(Difference(a, b));
    RemainderZeroIffProduct(Difference(a, b));
  }

  lemma DifferenceIs(a: seq<byte>, b: seq<byte>)
    requires |a| == |b|
    ensures Difference(a, b) == Add(MessageBits(a), MessageBits(b))
  {
    hide MessageBits;
  }

  // ---------------------------------------------------- errors of odd weight

  /** The number of coefficients that are not zero. */
  function Weight(p: Poly): nat {
    if p == [] then 0 else (if p[0] then 1 else 0) + Weight(p[1..])
  }

  lemma {:induction false} WeightConcat(a: Poly, b: Poly)
    ensures Weight(a + b) == Weight(a) + Weight(b)
    decreases |a|
  {
    if a == [] {
      assert a + b == b;
    } else {
      assert (a + b)[1..] == a[1..] + b;
      WeightConcat(a[1..], b);
    }
  }

  lemma {:induction false} WeightAdd(a: Poly, b: Poly)
    requires |a| == |b|
    ensures Weight(Add(a, b)) % 2 == (Weight(a) + Weight(b)) % 2
    decreases |a|
  {
    if a != [] {
      assert Add(a, b)[1..] == Add(a[1..], b[1..]);
      WeightAdd(a[1..], b[1..]);
    }
  }

  lemma {:induction false} WeightZeros(n: nat)
    ensures Weight(Zeros(n)) == 0
  {
    if n > 0 {
      assert Zeros(n)[1..] == Zeros(n - 1);
      WeightZeros(n - 1);
    }
  }

  lemma WeightOfFive(a: bool, b: bool, c: bool, d: bool, e: bool)
    ensures Weight([a, b, c, d, e])
         == (if a then 1 else 0) + (if b then 1 else 0) + (if c then 1 else 0) + (if d then 1 else 0) + (if e then 1 else 0)
  {
    WeightConcat([a, b], [c, d, e]);
    assert [a, b] + [c, d, e] == [a, b, c, d, e];
    assert [a, b][1..] == [b] && [c, d, e][1..] == [d, e] && [d, e][1..] == [e];
    assert Weight([b]) == if b then 1 else 0;
    assert Weight([e]) == if e then 1 else 0;
  }

  lemma GeneratorInFives()
    ensures Generator()
         == [true, true, false, false, false] + [false, true, true, false, false] + [true, false, false, true, true]
            + [false, false, true, true, true] + [true, true, false, true, true]
  {
  }

  /** The generator has fourteen terms. */
  lemma GeneratorWeight()
    ensures Weight(Generator()) == 14
  {
    hide *;
    GeneratorInFives();
    var a, b, c := [true, true, false, false, false], [false, true, true, false, false], [true, false, false, true, true];
    var d, e := [false, false, true, true, true], [true, true, false, true, true];
    WeightOfFive(true, true, false, false, false);
    WeightOfFive(false, true, true, false, false);
    WeightOfFive(true, false, false, true, true);
    WeightOfFive(false, false, true, true, true);
    WeightOfFive(true, true, false, true, true);
    WeightConcat(a, b);
    WeightConcat(a + b, c);
    WeightConcat(a + b + c, d);
    WeightConcat(a + b + c + d, e);
  }

  lemma ZeroInFrontOrBehind(p: Poly)
    ensures Weight(p + [false]) == Weight(p)
    ensures p != [] && !p[0] ==> Weight(p[1..]) == Weight(p)
  {
    WeightConcat(p, [false]);
    assert [false][1..] == [];
  }

  lemma ScaledGeneratorIsEven(c: bool)
    ensures Weight(Scale(c, Generator())) % 2 == 0
  {
    hide Generator, Weight;
    var g := Scale(c, Generator());
    if c {
      assert g == Generator();
      GeneratorWeight();
    } else {
      assert g == Zeros(25);
      WeightZeros(25);
    }
  }

  /** So multiplication by x modulo the generator keeps the parity. */
  lemma TimesXParity(r: Poly)
    requires |r| == 24
    ensures Weight(TimesX(r)) % 2 == Weight(r) % 2
  {
    hide *;
    var g := Scale(r[0], Generator());
    var full := Add(r + [false], g);
    TimesXUnmasked(r);
    WeightAdd(r + [false], g);
    ZeroInFrontOrBehind(r);
    ZeroInFrontOrBehind(full);
    ScaledGeneratorIsEven(r[0]);
  }

  lemma TimesXUnmasked(r: Poly)
    requires |r| == 24
    ensures var full := Add(r + [false], Scale(r[0], Generator()));
            TimesX(r) == full[1..] && !full[0]
  {
    hide Generator;
  }

  lemma {:induction false} FeedParity(r: Poly, bits: Poly)
    requires |r| == 24
    ensures Weight(FeedBits(r, bits)) % 2 == (Weight(r) + Weight(bits)) % 2
    decreases |bits|
  {
    hide TimesX;
    if bits != [] {
      var r' := AddTop(r, bits[0]);
      assert r'[1..] == r[1..];
      TimesXParity(r');
      FeedParity(TimesX(r'), bits[1..]);
    }
  }

  /** Every error in an odd number of bits is found. */
  lemma OddErrorDetected(crc: bv32, a: seq<byte>, b: seq<byte>)
    requires |a| == |b| && Weight(Difference(a, b)) % 2 == 1
    ensures Crc(UpdateAll(crc, a)) != Crc(UpdateAll(crc, b))
  {
    hide Crc, FeedBits, Weight, MessageBits;
    UpdateAllIsFeed(crc, a);
    UpdateAllIsFeed(crc, b);
    FeedParity(Crc(crc), MessageBits(a));
    FeedParity(Crc(crc), MessageBits(b));
    WeightAdd(MessageBits(a), MessageBits(b));
  }

  // ---------------------------------------------------- a window of 25 bits

  /** The only 25 bits, not all zero, that lead the zero state to itself are the generator. */
  lemma GeneratorWindow(e: Poly)
    requires |e| == 25
    ensures FeedBits(Zeros(24), e) == Zeros(24) <==> e == Zeros(25) || e == Generator()
  {
    hide *;
    var tail := e[1..];
    assert e == [e[0]] + tail;
    FeedBitsConcat(Zeros(24), [e[0]], tail);
    FirstBit(e[0]);
    var r := FeedBits(Zeros(24), [e[0]]);
    ZeroAfterItself(r, tail);
    WindowShape(e, r);
  }

  /** Twenty-four bits lead a state to zero exactly if they are that state. */
  lemma ZeroAfterItself(r: Poly, bits: Poly)
    requires |r| == |bits| == 24
    ensures FeedBits(r, bits) == Zeros(24) <==> r == bits
  {
    hide FeedBits, TimesXPow, TimesX;
    FeedFew(r, bits);
    assert bits + Zeros(0) == bits;
    PowerOfZero(24);
    if TimesXPow(24, Add(r, bits)) == Zeros(24) {
      TimesXPowInjective(24, Add(r, bits), Zeros(24));
    }
    AddIsZero(r, bits);
  }

  lemma FirstBit(b: bool)
    ensures FeedBits(Zeros(24), [b]) == if b then Generator()[1..] else Zeros(24)
  {
    assert [b][1..] == [];
    assert AddTop(Zeros(24), b) == [b] + Zeros(23);
    var s := TimesX([b] + Zeros(23));
    assert s == if b then Generator()[1..] else Zeros(24);
  }

  lemma WindowShape(e: Poly, r: Poly)
    requires |e| == 25 && r == if e[0] then Generator()[1..] else Zeros(24)
    ensures r == e[1..] <==> e == Zeros(25) || e == Generator()
  {
    hide Generator;
    assert e == [e[0]] + e[1..];
    assert Generator() == [true] + Generator()[1..];
    assert Zeros(25) == [false] + Zeros(24);
  }

  /**
   One bit more than BurstDetected covers: of two different messages that differ only within 25
   consecutive bits, the CRC misses exactly the difference that is the generator itself.
   */
  lemma BurstOf25(crc: bv32, a: seq<byte>, b: seq<byte>, from: nat)
    requires |a| == |b| && a != b && from + 25 <= 8 * |a|
    requires forall i :: 0 <= i < 8 * |a| && !(from <= i < from + 25) ==> MessageBits(a)[i] == MessageBits(b)[i]
    ensures Crc(UpdateAll(crc, a)) == Crc(UpdateAll(crc, b)) <==> Difference(a, b)[from..from + 25] == Generator()
  {
    hide *;
    var x, y, to := MessageBits(a), MessageBits(b), from + 25;
    assert y[..from] == x[..from] && y[to..] == x[to..];
    UpdateAllIsFeed(crc, a);
    UpdateAllIsFeed(crc, b);
    WindowDecides(Crc(crc), x, y, from, to);
    var e := Add(x[from..to], y[from..to]);
    DifferenceIs(a, b);
    assert Difference(a, b)[from..to] == e;
    GeneratorWindow(e);
    AddIsZero(x[from..to], y[from..to]);
    if x[from..to] == y[from..to] {
      assert x == x[..from] + x[from..to] + x[to..] && y == y[..from] + y[from..to] + y[to..];
      MessageBitsInjective(a, b);
    }
  }

  /** Where two messages differ only within a window, the difference within it decides. */
  lemma WindowDecides(r: Poly, x: Poly, y: Poly, from: nat, to: nat)
    requires |r| == 24 && |x| == |y| && from <= to <= |x| && x[..from] == y[..from] && x[to..] == y[to..]
    ensures FeedBits(r, x) == FeedBits(r, y) <==> FeedBits(Zeros(24), Add(x[from..to], y[from..to])) == Zeros(24)
  {
    hide *;
    var head, tail := x[..from], x[to..];
    var r' := FeedBits(r, head);
    assert x == head + x[from..to] + tail;
    assert y == head + y[from..to] + tail;
    FeedAround(r, head, x[from..to], tail);
    FeedAround(r, head, y[from..to], tail);
    TailInjective(FeedBits(r', x[from..to]), FeedBits(r', y[from..to]), tail);
    DifferenceDecides(r', x[from..to], y[from..to]);
  }

  lemma FeedAround(r: Poly, head: Poly, middle: Poly, tail: Poly)
    requires |r| == 24
    ensures FeedBits(r, head + middle + tail) == FeedBits(FeedBits(FeedBits(r, head), middle), tail)
  {
    hide *;
    FeedBitsConcat(r, head + middle, tail);
    FeedBitsConcat(r, head, middle);
  }

  lemma TailInjective(r: Poly, s: Poly, tail: Poly)
    requires |r| == |s| == 24
    ensures FeedBits(r, tail) == FeedBits(s, tail) <==> r == s
  {
    hide *;
    FeedBitsBijective(r, tail);
    FeedBitsBijective(s, tail);
  }
}

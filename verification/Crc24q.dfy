/**
 CRC-24Q (cpukit/crc/crc24q.c): the table-driven update is long division by the generator
 polynomial 0x1864CFB, one message bit at a time, most significant bit first.

 The running value is an unmasked 32-bit word; only its low 24 bits are the CRC.
 */
module Crc24q {
  import opened Crc24qTable
  import opened Crc24qWords
  import opened Polynomials

  function Update(crc: bv32, b: byte): bv32 {
    WordXor(crc << 8, Entry(ByteXor(b, Byte2(crc))))
  }

  function UpdateAll(crc: bv32, bytes: seq<byte>): bv32 {
    if bytes == [] then crc
    else Update(UpdateAll(crc, bytes[..|bytes| - 1]), bytes[|bytes| - 1])
  }

  method SequenceUpdate(crc: bv32, bytes: seq<byte>) returns (r: bv32)
    ensures r == UpdateAll(crc, bytes)
    ensures Crc(r) == FeedBits(Crc(crc), MessageBits(bytes))
  {
    r := crc;
    for i := 0 to |bytes|
      invariant r == UpdateAll(crc, bytes[..i])
    {
      assert bytes[..i + 1][..i] == bytes[..i];
      r := Update(r, bytes[i]);
    }
    assert bytes[..|bytes|] == bytes;
    UpdateAllIsFeed(crc, bytes);
  }

  // ------------------------------------------------------- one lookup is eight feeds

  lemma {:induction false} FeedFew(r: Poly, bits: Poly)
    requires |r| == 24 && |bits| <= 24
    ensures FeedBits(r, bits) == TimesXPow(|bits|, Add(r, bits + Zeros(24 - |bits|)))
    decreases |bits|
  {
    hide *;
    var n := |bits|;
    if n == 0 {
      FeedNone(r);
      assert bits == [];
    } else {
      var rest := bits[1..];
      assert |rest| == n - 1;
      FeedFirst(r, bits);
      ShiftFirst(r, bits);
      PowerFirst(n, Add(r, bits + Zeros(24 - n)));
      FeedFew(TimesX(AddTop(r, bits[0])), rest);
    }
  }

  lemma FeedNone(r: Poly)
    requires |r| == 24
    ensures FeedBits(r, []) == r && TimesXPow(0, Add(r, [] + Zeros(24))) == r
  {
    assert Add(r, [] + Zeros(24)) == r;
  }

  lemma FeedFirst(r: Poly, bits: Poly)
    requires |r| == 24 && bits != []
    ensures FeedBits(r, bits) == FeedBits(TimesX(AddTop(r, bits[0])), bits[1..])
  {
    hide TimesX, AddTop;
  }

  lemma PowerFirst(n: nat, r: Poly)
    requires |r| == 24 && n > 0
    ensures TimesXPow(n, r) == TimesXPow(n - 1, TimesX(r))
  {
    hide TimesX;
  }

  /** The first of a few bits enters at the top, and the others move up one place. */
  lemma ShiftFirst(r: Poly, bits: Poly)
    requires |r| == 24 && 1 <= |bits| <= 24
    ensures TimesX(Add(r, bits + Zeros(24 - |bits|))) == Add(TimesX(AddTop(r, bits[0])), bits[1..] + Zeros(24 - (|bits| - 1)))
  {
    var n := |bits|;
    var r', rest := AddTop(r, bits[0]), bits[1..];
    var tail := rest + Zeros(24 - n);
    assert Add(r, bits + Zeros(24 - n)) == Add(r', [false] + tail);
    assert TimesX([false] + tail) == tail + [false];
    TimesXLinear(r', [false] + tail);
    assert tail + [false] == rest + Zeros(24 - (n - 1));
  }

  lemma ShiftedOut(r: Poly, n: nat)
    requires |r| == 24 && n <= 24 && forall i :: 0 <= i < n ==> !r[i]
    ensures TimesXPow(n, r) == r[n..] + Zeros(n)
    decreases n
  {
    if n != 0 {
      assert TimesX(r) == r[1..] + [false];
      ShiftedOut(TimesX(r), n - 1);
    }
  }

  lemma WordPow4(w: bv32)
    ensures Crc(WordTimesX4(w)) == TimesXPow(4, Crc(w))
  {
    var w1 := WordTimesX(w);
    var w2 := WordTimesX(w1);
    var w3 := WordTimesX(w2);
    hide WordTimesX, Crc, TimesX;
    CrcTimesX(w);
    CrcTimesX(w1);
    CrcTimesX(w2);
    CrcTimesX(w3);
    assert TimesXPow(4, Crc(w)) == TimesXPow(3, Crc(w1));
    assert TimesXPow(3, Crc(w1)) == TimesXPow(2, Crc(w2));
    assert TimesXPow(2, Crc(w2)) == TimesXPow(1, Crc(w3));
    assert TimesXPow(1, Crc(w3)) == TimesXPow(0, Crc(WordTimesX(w3)));
  }

  lemma ByteOnTop(i: byte)
    ensures Crc((i as bv32) << 16) == BitsOf(i) + Zeros(16)
  {
    var w := (i as bv32) << 16;
    assert Byte2(w) == i && Byte1(w) == 0 && Byte0(w) == 0;
    assert BitsOf(0) == Zeros(8);
    hide *;
  }

  /** Each table entry, read as a polynomial, is its index times x^24 modulo the generator. */
  lemma TableEntry(i: byte)
    ensures Crc(Entry(i)) == TimesXPow(8, BitsOf(i) + Zeros(16))
  {
    EntryCorrect(i);
    ByteOnTop(i);
    var w := (i as bv32) << 16;
    assert ByteRemainder(i) == WordTimesX4(WordTimesX4(w));
    hide *;
    WordPow4(w);
    WordPow4(WordTimesX4(w));
    TimesXPowAdd(4, 4, Crc(w));
  }

  lemma ByteShiftedOut(w: bv32)
    ensures Crc(w << 8) == Crc(w)[8..] + Zeros(8)
  {
    assert Byte2(w << 8) == Byte1(w) && Byte1(w << 8) == Byte0(w) && Byte0(w << 8) == 0;
    assert BitsOf(0) == Zeros(8);
    hide *;
  }

  lemma EightFeeds(r: Poly, bits: Poly)
    requires |r| == 24 && |bits| == 8
    ensures FeedBits(r, bits) == Add(r[8..] + Zeros(8), TimesXPow(8, Add(bits, r[..8]) + Zeros(16)))
  {
    hide TimesX, TimesXPow;
    var low, high := Zeros(8) + r[8..], Add(bits, r[..8]) + Zeros(16);
    assert low[8..] == r[8..];
    ShiftedOut(low, 8);
    TimesXPowLinear(8, low, high);
    assert Add(low, high) == Add(r, bits + Zeros(16));
    FeedFew(r, bits);
  }

  /** One table lookup is eight division steps; the top eight bits of the word play no part. */
  lemma UpdateIsEightFeeds(crc: bv32, b: byte)
    ensures Crc(Update(crc, b)) == FeedBits(Crc(crc), BitsOf(b))
  {
    var i, w := ByteXor(b, Byte2(crc)), crc << 8;
    assert Crc(crc)[..8] == BitsOf(Byte2(crc));
    assert Update(crc, b) == WordXor(w, Entry(i));
    ByteShiftedOut(crc);
    assert Crc(w) == Crc(crc)[8..] + Zeros(8);
    hide *;
    BitsOfXor(b, Byte2(crc));
    CrcXor(w, Entry(i));
    TableEntry(i);
    EightFeeds(Crc(crc), BitsOf(b));
  }

  /** For every start word and message, the CRC bits are those of the bit-serial register. */
  lemma {:induction false} UpdateAllIsFeed(crc: bv32, bytes: seq<byte>)
    ensures Crc(UpdateAll(crc, bytes)) == FeedBits(Crc(crc), MessageBits(bytes))
  {
    hide Update, BitsOf, Crc;
    if bytes != [] {
      var n := |bytes| - 1;
      UpdateAllIsFeed(crc, bytes[..n]);
      FeedBitsConcat(Crc(crc), MessageBits(bytes[..n]), BitsOf(bytes[n]));
      UpdateIsEightFeeds(UpdateAll(crc, bytes[..n]), bytes[n]);
    }
  }

  /** Updating over a concatenation is the composition of updates. */
  lemma {:induction false} UpdateAllConcat(crc: bv32, a: seq<byte>, b: seq<byte>)
    ensures UpdateAll(crc, a + b) == UpdateAll(UpdateAll(crc, a), b)
    decreases |b|
  {
    hide Update;
    if b == [] {
      assert a + b == a;
    } else {
      var n := |b| - 1;
      assert (a + b)[..|a + b| - 1] == a + b[..n];
      UpdateAllConcat(crc, a, b[..n]);
    }
  }

  // ------------------------------------------------------- the CRC is a remainder

  lemma TopBitPower(b: bool)
    ensures TimesXPow(24, Zeros(23) + [b]) == TimesX([b] + Zeros(23))
  {
    var r := Zeros(23) + [b];
    TimesXPowAdd(23, 1, r);
    ShiftedOut(r, 23);
    assert r[23..] + Zeros(23) == [b] + Zeros(23);
    assert TimesXPow(1, [b] + Zeros(23)) == TimesXPow(0, TimesX([b] + Zeros(23)));
  }

  /** Feeding a bit at the top is dividing 24 places further on. */
  lemma FeedIsDivideAhead(r: Poly, b: bool)
    requires |r| == 24
    ensures TimesX(AddTop(TimesXPow(24, r), b)) == TimesXPow(24, Add(TimesX(r), Zeros(23) + [b]))
  {
    hide *;
    var p := TimesXPow(24, r);
    AddTopIsAdd(p, b);
    TimesXLinear(p, [b] + Zeros(23));
    TopBitPower(b);
    OnceMore(24, r);
    TimesXPowLinear(24, TimesX(r), Zeros(23) + [b]);
  }

  lemma AddTopIsAdd(p: Poly, b: bool)
    requires |p| == 24
    ensures AddTop(p, b) == Add(p, [b] + Zeros(23))
  {
  }

  /** One more multiplication by x, before or after the others. */
  lemma OnceMore(n: nat, r: Poly)
    requires |r| == 24
    ensures TimesX(TimesXPow(n, r)) == TimesXPow(n, TimesX(r))
  {
    hide TimesX;
    TimesXPowAdd(n, 1, r);
    assert TimesXPow(n + 1, r) == TimesXPow(n, TimesX(r));
    assert TimesXPow(1, TimesXPow(n, r)) == TimesXPow(0, TimesX(TimesXPow(n, r)));
  }

  lemma {:induction false} FeedBitsDividesAhead(r: Poly, bits: Poly)
    requires |r| == 24
    ensures FeedBits(TimesXPow(24, r), bits) == TimesXPow(24, Divide(r, bits))
    decreases |bits|
  {
    hide TimesX, TimesXPow, AddTop;
    if bits != [] {
      FeedIsDivideAhead(r, bits[0]);
      FeedBitsDividesAhead(Add(TimesX(r), Zeros(23) + [bits[0]]), bits[1..]);
    }
  }

  lemma {:induction false} DivideZeros(r: Poly, n: nat)
    requires |r| == 24
    ensures Divide(r, Zeros(n)) == TimesXPow(n, r)
    decreases n
  {
    hide TimesX;
    if n != 0 {
      assert Zeros(n)[1..] == Zeros(n - 1);
      assert Add(TimesX(r), Zeros(23) + [Zeros(n)[0]]) == TimesX(r);
      DivideZeros(TimesX(r), n - 1);
    }
  }

  lemma {:induction false} FeedZeros(r: Poly, n: nat)
    requires |r| == 24
    ensures FeedBits(r, Zeros(n)) == TimesXPow(n, r)
    decreases n
  {
    hide TimesX;
    if n != 0 {
      assert Zeros(n)[1..] == Zeros(n - 1);
      assert AddTop(r, Zeros(n)[0]) == r;
      FeedZeros(TimesX(r), n - 1);
    }
  }

  /**
   For every start value and message, the CRC is the division register after the message and 24
   zero bits, started where 24 divisions by x take the start value.
   */
  lemma CrcIsDivision(crc: bv32, bytes: seq<byte>)
    ensures Crc(UpdateAll(crc, bytes))
         == Divide(UnfeedBits(Crc(crc), Zeros(24)), MessageBits(bytes) + Zeros(24))
  {
    hide Crc, TimesX;
    var bits, r := MessageBits(bytes), UnfeedBits(Crc(crc), Zeros(24));
    UpdateAllIsFeed(crc, bytes);
    FeedBitsBijective(Crc(crc), Zeros(24));
    FeedZeros(r, 24);
    FeedBitsDividesAhead(r, bits);
    DivideConcat(r, bits, Zeros(24));
    DivideZeros(Divide(r, bits), 24);
  }

  /** Started at zero, the CRC is the remainder of the message followed by 24 zero bits. */
  lemma CrcIsRemainder(bytes: seq<byte>)
    ensures Crc(UpdateAll(0, bytes)) == Remainder(MessageBits(bytes) + Zeros(24))
  {
    assert Crc(0) == Zeros(24);
    hide Crc, TimesX;
    FeedZeros(Zeros(24), 24);
    ShiftedOut(Zeros(24), 24);
    assert Zeros(24)[24..] + Zeros(24) == Zeros(24);
    FeedBitsBijective(Zeros(24), Zeros(24));
    CrcIsDivision(0, bytes);
  }

  // ------------------------------------------------------- what a receiver relies on

  /** For a fixed message, equal CRCs before and equal CRCs after are the same thing. */
  lemma UpdateAllBijective(v: bv32, w: bv32, bytes: seq<byte>)
    ensures Crc(UpdateAll(v, bytes)) == Crc(UpdateAll(w, bytes)) <==> Crc(v) == Crc(w)
  {
    hide Crc, FeedBits, UnfeedBits;
    UpdateAllIsFeed(v, bytes);
    UpdateAllIsFeed(w, bytes);
    FeedBitsBijective(Crc(v), MessageBits(bytes));
    FeedBitsBijective(Crc(w), MessageBits(bytes));
  }

  /** The word with the given low bits. */
  function WordFrom(bits: Poly): bv32 {
    if bits == [] then 0
    else
      var n := |bits| - 1;
      WordXor(Double(WordFrom(bits[..n])), if bits[n] then 1 else 0)
  }

  lemma CrcOfBit(b: bool)
    ensures Crc(if b then 1 else 0) == Zeros(23) + [b]
  {
  }

  lemma {:induction false} CrcOfWordFrom(bits: Poly)
    requires |bits| <= 24
    ensures Crc(WordFrom(bits)) == Zeros(24 - |bits|) + bits
  {
    hide Crc, WordXor, Double;
    if bits == [] {
      CrcOfBit(false);
      assert Zeros(23) + [false] == Zeros(24) + [];
    } else {
      var n := |bits| - 1;
      var front, last := bits[..n], bits[n];
      var w := WordFrom(front);
      assert WordFrom(bits) == WordXor(Double(w), if last then 1 else 0);
      hide *;
      CrcOfWordFrom(front);
      CrcShift(w);
      CrcXor(Double(w), if last then 1 else 0);
      CrcOfBit(last);
      BitBehind(front, last);
      assert front + [last] == bits;
    }
  }

  lemma BitBehind(front: Poly, last: bool)
    requires |front| < 24
    ensures Add((Zeros(24 - |front|) + front)[1..] + [false], Zeros(23) + [last]) == Zeros(23 - |front|) + (front + [last])
  {
    var n := |front|;
    assert (Zeros(24 - n) + front)[1..] + [false] == Zeros(23 - n) + (front + [false]);
  }

  /** For every message, every 24-bit CRC is reached from some start word. */
  lemma UpdateAllOnto(target: Poly, bytes: seq<byte>)
    requires |target| == 24
    ensures exists w: bv32 :: Crc(UpdateAll(w, bytes)) == target
  {
    hide *;
    var start := UnfeedBits(target, MessageBits(bytes));
    CrcOfWordFrom(start);
    assert Zeros(0) + start == start;
    FeedBitsBijective(target, MessageBits(bytes));
    UpdateAllIsFeed(WordFrom(start), bytes);
  }

  function BytesXor(a: seq<byte>, b: seq<byte>): (c: seq<byte>)
    requires |a| == |b|
    ensures |c| == |a| && forall i :: 0 <= i < |a| ==> c[i] == ByteXor(a[i], b[i])
  {
    seq(|a|, i requires 0 <= i < |a| => ByteXor(a[i], b[i]))
  }

  lemma {:induction false} MessageBitsXor(a: seq<byte>, b: seq<byte>)
    requires |a| == |b|
    ensures MessageBits(BytesXor(a, b)) == Add(MessageBits(a), MessageBits(b))
    decreases |a|
  {
    hide BitsOf, ByteXor;
    if a != [] {
      var n := |a| - 1;
      assert BytesXor(a, b)[..n] == BytesXor(a[..n], b[..n]);
      MessageBitsXor(a[..n], b[..n]);
      BitsOfXor(a[n], b[n]);
    }
  }

  /** The update is XOR-linear in start value and message together. */
  lemma UpdateAllLinear(v: bv32, w: bv32, a: seq<byte>, b: seq<byte>)
    requires |a| == |b|
    ensures Crc(UpdateAll(WordXor(v, w), BytesXor(a, b))) == Add(Crc(UpdateAll(v, a)), Crc(UpdateAll(w, b)))
  {
    hide Crc, FeedBits, WordXor;
    UpdateAllIsFeed(WordXor(v, w), BytesXor(a, b));
    UpdateAllIsFeed(v, a);
    UpdateAllIsFeed(w, b);
    CrcXor(v, w);
    MessageBitsXor(a, b);
    FeedBitsLinear(Crc(v), Crc(w), MessageBits(a), MessageBits(b));
  }

  /** Different windows of at most 24 bits lead one state to different states. */
  lemma WindowInjective(r: Poly, m: Poly, m': Poly)
    requires |r| == 24 && |m| == |m'| <= 24
    requires FeedBits(r, m) == FeedBits(r, m')
    ensures m == m'
  {
    hide FeedBits, TimesXPow;
    var p, p' := m + Zeros(24 - |m|), m' + Zeros(24 - |m|);
    FeedFew(r, m);
    FeedFew(r, m');
    TimesXPowInjective(|m|, Add(r, p), Add(r, p'));
    forall i | 0 <= i < |m|
      ensures m[i] == m'[i]
    {
      assert Add(r, p)[i] == Add(r, p')[i];
    }
  }

  lemma AllTestsFail(x: byte)
    requires BitsOf(x) == Zeros(8)
    ensures x == 0
  {
    var z := BitsOf(x);
    assert !z[0] && !z[1] && !z[2] && !z[3] && !z[4] && !z[5] && !z[6] && !z[7];
  }

  lemma XorZero(a: byte, b: byte)
    requires ByteXor(a, b) == 0
    ensures a == b
  {
  }

  lemma BitsOfInjective(a: byte, b: byte)
    requires BitsOf(a) == BitsOf(b)
    ensures a == b
  {
    hide BitsOf, ByteXor;
    BitsOfXor(a, b);
    AllTestsFail(ByteXor(a, b));
    XorZero(a, b);
  }

  lemma {:induction false} MessageBitsInjective(a: seq<byte>, b: seq<byte>)
    requires MessageBits(a) == MessageBits(b)
    ensures a == b
    decreases |a|
  {
    hide BitsOf;
    assert |a| == |b|;
    if a != [] {
      var n := |a| - 1;
      assert MessageBits(a)[..8 * n] == MessageBits(a[..n]) && MessageBits(b)[..8 * n] == MessageBits(b[..n]);
      MessageBitsInjective(a[..n], b[..n]);
      assert MessageBits(a)[8 * n..] == BitsOf(a[n]) && MessageBits(b)[8 * n..] == BitsOf(b[n]);
      BitsOfInjective(a[n], b[n]);
    }
  }

  /**
   Burst detection: two different messages of one length whose bits differ only inside a window
   of 24 consecutive bits, wherever it starts, never have the same CRC.
   */
  lemma BurstDetected(crc: bv32, a: seq<byte>, b: seq<byte>, from: nat, to: nat)
    requires |a| == |b| && a != b
    requires from <= to <= 8 * |a| && to - from <= 24
    requires forall i :: 0 <= i < 8 * |a| && !(from <= i < to) ==> MessageBits(a)[i] == MessageBits(b)[i]
    ensures Crc(UpdateAll(crc, a)) != Crc(UpdateAll(crc, b))
  {
    hide Crc, FeedBits, UnfeedBits, MessageBits;
    var x, y, r := MessageBits(a), MessageBits(b), Crc(crc);
    var head, tail := x[..from], x[to..];
    assert y[..from] == head && y[to..] == tail;
    assert x == head + (x[from..to] + tail) && y == head + (y[from..to] + tail);
    var r' := FeedBits(r, head);
    if Crc(UpdateAll(crc, a)) == Crc(UpdateAll(crc, b)) {
      UpdateAllIsFeed(crc, a);
      UpdateAllIsFeed(crc, b);
      FeedBitsConcat(r, head, x[from..to] + tail);
      FeedBitsConcat(r, head, y[from..to] + tail);
      FeedBitsConcat(r', x[from..to], tail);
      FeedBitsConcat(r', y[from..to], tail);
      FeedBitsBijective(FeedBits(r', x[from..to]), tail);
      FeedBitsBijective(FeedBits(r', y[from..to]), tail);
      WindowInjective(r', x[from..to], y[from..to]);
      MessageBitsInjective(a, b);
    }
  }

  function CrcBytes(w: bv32): seq<byte> {
    [Byte2(w), Byte1(w), Byte0(w)]
  }

  /** A message followed by its own three CRC bytes leaves the zero residue. */
  lemma ResidueZero(crc: bv32, bytes: seq<byte>)
    ensures Crc(UpdateAll(crc, bytes + CrcBytes(UpdateAll(crc, bytes)))) == Zeros(24)
  {
    var w := UpdateAll(crc, bytes);
    var check := CrcBytes(w);
    assert check[..2][..1] == check[..1] && check[..1][..0] == [];
    assert MessageBits(check) == MessageBits(check[..2]) + BitsOf(check[2]);
    assert MessageBits(check[..2]) == MessageBits(check[..1]) + BitsOf(check[1]);
    assert MessageBits(check[..1]) == BitsOf(check[0]);
    assert MessageBits(check) == Crc(w);
    hide Crc, FeedBits, MessageBits, TimesXPow, TimesX;
    UpdateAllConcat(crc, bytes, check);
    UpdateAllIsFeed(w, check);
    FeedFew(Crc(w), Crc(w));
    assert Add(Crc(w), Crc(w) + Zeros(0)) == Zeros(24);
    ShiftedOut(Zeros(24), 24);
    assert Zeros(24)[24..] + Zeros(24) == Zeros(24);
  }
}

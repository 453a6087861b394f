/** The decoder fed one character at a time (cpukit/base64/base64-decode.c). */
module Base64Decode {
  import opened Bytes
  import opened Base64

  datatype Status = Success | Overflow | InvalidInput

  /** The control block: where in a group the decoder is, and the part of the target still free. */
  datatype Decoder = Decoder(state: nat, buf: seq<byte>, target: nat, end: nat) {
    predicate Valid() {
      state < 4 && target <= end <= |buf|
    }
  }

  class Base64DecodeControl {
    var state: nat
    const buf: array<byte>
    var target: nat
    var targetEnd: nat

    ghost function View(): (d: Decoder)
      reads this, buf
    {
      Decoder(state, buf[..], target, targetEnd)
    }

    constructor (target: array<byte>)
      ensures buf == target && View() == Decoder(0, target[..], 0, target.Length) && View().Valid()
    {
      this.state := 0;
      this.buf := target;
      this.target := 0;
      this.targetEnd := target.Length;
    }

    method Decode(ch: byte) returns (status: Status)
      requires View().Valid()
      modifies this, buf
      ensures View().Valid()
      ensures (View(), status) == Step(old(View()), Decoding(ch))
    {
      if ch >= 128 {
        return InvalidInput;
      }
      var decodedCh := Decoding(ch);
      if decodedCh == Space {
        return Success;
      }
      var target := this.target;
      if decodedCh == Pad {
        this.targetEnd := target;
        return Success;
      }
      if decodedCh == Invalid {
        return InvalidInput;
      }
      var v: int := decodedCh.v;
      var targetEnd := this.targetEnd;
      if target == targetEnd {
        return Overflow;
      }
      var nextState: nat, nextCh: byte := 0, 0;
      if this.state == 0 {
        buf[target] := v * 4;
        nextState := 1;
      } else if this.state == 1 {
        buf[target] := OrByte(buf[target], v / 16);
        nextCh := v % 16 * 16;
        target := target + 1;
        if target != targetEnd {
          buf[target] := nextCh;
        } else if nextCh != 0 {
          return Overflow;
        }
        nextState := 2;
      } else if this.state == 2 {
        buf[target] := OrByte(buf[target], v / 4);
        nextCh := v % 4 * 64;
        target := target + 1;
        if target != targetEnd {
          buf[target] := nextCh;
        } else if nextCh != 0 {
          return Overflow;
        }
        nextState := 3;
      } else {
        buf[target] := OrByte(buf[target], v);
        target := target + 1;
        nextState := 0;
      }
      this.state := nextState;
      this.target := target;
      return Success;
    }
  }

  function OrByte(a: byte, b: byte): byte {
    var r := Or(a, b);
    OrBound(a, b, 8);
    assert Pow2(8) == 16 * Pow2(4);
    r
  }

  // ------------------------------------------------------------- the transition function

  /** What a data sextet does: store its bits, and refuse bits that have no byte to go to. */
  function StepData(d: Decoder, v: sextet): (r: (Decoder, Status))
    requires d.Valid()
    ensures r.0.Valid()
  {
    var t := d.target;
    if t == d.end then (d, Overflow)
    else if d.state == 0 then (d.(buf := d.buf[t := v * 4], state := 1), Success)
    else if d.state == 1 then Carry(d, d.buf[t := OrByte(d.buf[t], v / 16)], v % 16 * 16, 2)
    else if d.state == 2 then Carry(d, d.buf[t := OrByte(d.buf[t], v / 4)], v % 4 * 64, 3)
    else (d.(buf := d.buf[t := OrByte(d.buf[t], v)], target := t + 1, state := 0), Success)
  }

  function Carry(d: Decoder, buf: seq<byte>, next: byte, state: nat): (r: (Decoder, Status))
    requires d.Valid() && d.target < d.end && |buf| == |d.buf| && state < 4
    ensures r.0.Valid()
  {
    var t := d.target + 1;
    if t != d.end then (Decoder(state, buf[t := next], t, d.end), Success)
    else if next != 0 then (d.(buf := buf), Overflow)
    else (Decoder(state, buf, t, d.end), Success)
  }

  function Step(d: Decoder, s: Symbol): (r: (Decoder, Status))
    requires d.Valid()
    ensures r.0.Valid()
  {
    match s
    case Invalid => (d, InvalidInput)
    case Space => (d, Success)
    case Pad => (d.(end := d.target), Success)
    case Sextet(v) => StepData(d, v)
  }

  // ------------------------------------------------------------- runs

  /** Success if every symbol is accepted, else the first refusal. */
  function Outcome(d: Decoder, s: seq<Symbol>): Status
    requires d.Valid()
    decreases s
  {
    if s == [] then Success
    else
      var r := Step(d, s[0]);
      if r.1 != Success then r.1 else Outcome(r.0, s[1..])
  }

  /** The control block and target after the symbols up to the first refusal. */
  function After(d: Decoder, s: seq<Symbol>): (d': Decoder)
    requires d.Valid()
    ensures d'.Valid()
    decreases s
  {
    if s == [] then d
    else
      var r := Step(d, s[0]);
      if r.1 != Success then r.0 else After(r.0, s[1..])
  }

  function Symbols(text: seq<byte>): (s: seq<Symbol>)
    ensures |s| == |text| && forall i :: 0 <= i < |text| ==> s[i] == Decoding(text[i])
  {
    seq(|text|, i requires 0 <= i < |text| => Decoding(text[i]))
  }

  function Data(s: seq<Symbol>): seq<sextet> {
    if s == [] then []
    else if s[0].Sextet? then [s[0].v] + Data(s[1..])
    else Data(s[1..])
  }

  function AsSymbols(d: seq<sextet>): (s: seq<Symbol>)
    ensures |s| == |d| && forall i :: 0 <= i < |d| ==> s[i] == Sextet(d[i])
  {
    seq(|d|, i requires 0 <= i < |d| => Sextet(d[i]))
  }

  /** No invalid character, and no data after a pad. */
  predicate WellPlaced(s: seq<Symbol>) {
    if s == [] then true
    else if s[0].Invalid? then false
    else if s[0].Pad? then (forall i :: 0 <= i < |s| ==> s[i].Pad? || s[i].Space?)
    else WellPlaced(s[1..])
  }

  /** A full target refuses data and does not change. */
  lemma {:induction false} FullTarget(d: Decoder, s: seq<Symbol>)
    requires d.Valid() && d.target == d.end
    ensures After(d, s) == d
    ensures Outcome(d, s) == Success <==> forall i :: 0 <= i < |s| ==> s[i].Pad? || s[i].Space?
    decreases |s|
  {
    hide StepData;
    if s != [] {
      if s[0].Pad? || s[0].Space? {
        FullTarget(d, s[1..]);
        assert forall i :: 1 <= i < |s| ==> s[i] == s[1..][i - 1];
      } else {
        assert Step(d, s[0]).1 != Success by { FullRefuses(d); }
        assert Step(d, s[0]).0 == d by { FullRefuses(d); }
      }
    }
  }

  lemma FullRefuses(d: Decoder)
    requires d.Valid() && d.target == d.end
    ensures forall v: sextet :: StepData(d, v) == (d, Overflow)
  {
  }

  lemma {:induction false} NoData(s: seq<Symbol>)
    requires forall i :: 0 <= i < |s| ==> s[i].Pad? || s[i].Space?
    ensures Data(s) == [] && WellPlaced(s)
    decreases |s|
  {
    if s != [] {
      NoData(s[1..]);
    }
  }

  /** Only the data sextets and their place matter: spaces and trailing pads change nothing. */
  lemma {:induction false} OnlyDataMatters(d: Decoder, s: seq<Symbol>)
    requires d.Valid()
    ensures Outcome(d, s) == Success <==> WellPlaced(s) && Outcome(d, AsSymbols(Data(s))) == Success
    ensures Outcome(d, s) == Success ==>
              var d', d'' := After(d, s), After(d, AsSymbols(Data(s)));
              d'.buf == d''.buf && d'.target == d''.target
    decreases |s|
  {
    hide StepData;
    if s == [] {
    } else if s[0].Pad? {
      var closed := d.(end := d.target);
      FullTarget(closed, s[1..]);
      assert forall i :: 1 <= i < |s| ==> s[i] == s[1..][i - 1];
      if WellPlaced(s) {
        NoData(s[1..]);
      }
    } else if s[0].Sextet? {
      var r := StepData(d, s[0].v);
      assert AsSymbols(Data(s))[1..] == AsSymbols(Data(s[1..]));
      if r.1 == Success {
        OnlyDataMatters(r.0, s[1..]);
      }
    } else if s[0].Space? {
      OnlyDataMatters(d, s[1..]);
    }
  }

  // ------------------------------------------------------------- one group of sextets

  lemma OrByteMerges(high: nat, low: nat)
    ensures high < 64 && low < 4 ==> OrByte(high * 4, low) == high * 4 + low
    ensures high < 16 && low < 16 ==> OrByte(high * 16, low) == high * 16 + low
    ensures high < 4 && low < 64 ==> OrByte(high * 64, low) == high * 64 + low
  {
    hide Or;
    OrShifted(high, low);
  }

  function Byte0(a: sextet, b: sextet): byte { a * 4 + b / 16 }

  function Byte1(b: sextet, c: sextet): byte { b % 16 * 16 + c / 4 }

  function Byte2(c: sextet, d: sextet): byte { c % 4 * 64 + d }

  /** After two sextets from the start of a group. */
  lemma TwoSextets(d: Decoder, a: sextet, b: sextet)
    requires d.Valid() && d.state == 0 && d.target < d.end
    ensures StepData(d, a).1 == Success
    ensures var d1 := StepData(d, a).0;
            var buf := d.buf[d.target := Byte0(a, b)];
            if d.target + 1 < d.end
            then StepData(d1, b) == (Decoder(2, buf[d.target + 1 := b % 16 * 16], d.target + 1, d.end), Success)
            else if b % 16 == 0 then StepData(d1, b) == (Decoder(2, buf, d.target + 1, d.end), Success)
            else StepData(d1, b).1 == Overflow
  {
    hide OrByte;
    OrByteMerges(a, b / 16);
    var t := d.target;
    assert d.buf[t := a * 4][t := Byte0(a, b)] == d.buf[t := Byte0(a, b)];
  }

  /** The third sextet. */
  lemma ThirdSextet(d: Decoder, b: sextet, c: sextet)
    requires d.Valid() && d.state == 2 && d.target < d.end && d.buf[d.target] == b % 16 * 16
    ensures var buf := d.buf[d.target := Byte1(b, c)];
            if d.target + 1 < d.end
            then StepData(d, c) == (Decoder(3, buf[d.target + 1 := c % 4 * 64], d.target + 1, d.end), Success)
            else if c % 4 == 0 then StepData(d, c) == (Decoder(3, buf, d.target + 1, d.end), Success)
            else StepData(d, c).1 == Overflow
  {
    hide OrByte;
    OrByteMerges(b % 16, c / 4);
  }

  lemma FourthSextet(d: Decoder, c: sextet, v: sextet)
    requires d.Valid() && d.state == 3 && d.target < d.end && d.buf[d.target] == c % 4 * 64
    ensures StepData(d, v) == (Decoder(0, d.buf[d.target := Byte2(c, v)], d.target + 1, d.end), Success)
  {
    hide OrByte;
    OrByteMerges(c % 4, v);
  }

  function Put(buf: seq<byte>, at: nat, bytes: seq<byte>): (r: seq<byte>)
    requires at + |bytes| <= |buf|
    ensures |r| == |buf|
  {
    buf[..at] + bytes + buf[at + |bytes|..]
  }

  lemma StepThrough(d: Decoder, v: sextet, rest: seq<sextet>)
    requires d.Valid()
    ensures StepData(d, v).1 == Success ==>
              Outcome(d, AsSymbols([v] + rest)) == Outcome(StepData(d, v).0, AsSymbols(rest))
              && After(d, AsSymbols([v] + rest)) == After(StepData(d, v).0, AsSymbols(rest))
    ensures StepData(d, v).1 != Success ==>
              Outcome(d, AsSymbols([v] + rest)) == StepData(d, v).1
              && After(d, AsSymbols([v] + rest)) == StepData(d, v).0
  {
    hide StepData;
    assert AsSymbols([v] + rest)[1..] == AsSymbols(rest);
  }

  /** A whole group with room for its three bytes is taken and the next group starts. */
  lemma FullGroup(d: Decoder, a: sextet, b: sextet, c: sextet, v: sextet, rest: seq<sextet>)
    requires d.Valid() && d.state == 0 && d.target + 3 <= d.end
    ensures var d' := Decoder(0, Put(d.buf, d.target, [Byte0(a, b), Byte1(b, c), Byte2(c, v)]), d.target + 3, d.end);
            d'.Valid()
            && Outcome(d, AsSymbols([a, b, c, v] + rest)) == Outcome(d', AsSymbols(rest))
            && After(d, AsSymbols([a, b, c, v] + rest)) == After(d', AsSymbols(rest))
  {
    hide StepData, Outcome, After;
    var t := d.target;
    TwoSextets(d, a, b);
    var d1 := StepData(d, a).0;
    var d2 := StepData(d1, b).0;
    ThirdSextet(d2, b, c);
    var d3 := StepData(d2, c).0;
    FourthSextet(d3, c, v);
    var d4 := StepData(d3, v).0;
    StepThrough(d, a, [b, c, v] + rest);
    StepThrough(d1, b, [c, v] + rest);
    StepThrough(d2, c, [v] + rest);
    StepThrough(d3, v, rest);
    assert [a, b, c, v] + rest == [a] + ([b, c, v] + rest);
    assert [b, c, v] + rest == [b] + ([c, v] + rest);
    assert [c, v] + rest == [c] + ([v] + rest);
    assert d4.buf == Put(d.buf, t, [Byte0(a, b), Byte1(b, c), Byte2(c, v)]);
  }

  lemma GroupDigits(a: sextet, b: sextet, c: sextet, v: sextet, x: byte, y: byte, z: byte)
    ensures (a == Digit(x, y, z, 0) && b == Digit(x, y, z, 1) && c == Digit(x, y, z, 2) && v == Digit(x, y, z, 3))
       <==> (x == Byte0(a, b) && y == Byte1(b, c) && z == Byte2(c, v))
  {
    hide Digit;
    DigitsOfThree(x, y, z);
    assert x == x / 4 * 4 + x % 4 && y == y / 16 * 16 + y % 16 && z == z / 64 * 64 + z % 64;
    assert b == b / 16 * 16 + b % 16 && c == c / 4 * 4 + c % 4;
  }

  // ------------------------------------------------------------- filling a target exactly

  /** Every sextet is accepted, the target is full at the end and holds `bytes` where it was free. */
  predicate Fills(d: Decoder, data: seq<sextet>, bytes: seq<byte>)
    requires d.Valid() && d.target + |bytes| == d.end
  {
    var d' := After(d, AsSymbols(data));
    Outcome(d, AsSymbols(data)) == Success && d'.target == d.end && d'.buf == Put(d.buf, d.target, bytes)
  }

  /** Less than a group leaves the target short of as many bytes as there are sextets. */
  lemma ShortData(d: Decoder, data: seq<sextet>)
    requires d.Valid() && d.state == 0 && d.target < d.end && |data| < 4 && d.target + |data| <= d.end
    ensures After(d, AsSymbols(data)).target < d.end
  {
    hide StepData, Outcome, After;
    if |data| == 0 {
      EmptyRun(d);
      assert data == [];
    } else if |data| == 1 {
      assert data == [data[0]] + [];
      StepThrough(d, data[0], []);
      FirstSextet(d, data[0]);
      EmptyRun(StepData(d, data[0]).0);
    } else {
      var a, b, rest := data[0], data[1], data[2..];
      assert data == [a] + ([b] + rest);
      var d1 := StepData(d, a).0;
      var d2 := StepData(d1, b).0;
      TwoSextets(d, a, b);
      StepThrough(d, a, [b] + rest);
      StepThrough(d1, b, rest);
      ShortThird(d2, b, rest);
    }
  }

  lemma ShortThird(d: Decoder, b: sextet, rest: seq<sextet>)
    requires d.Valid() && d.state == 2 && d.target + |rest| < d.end && |rest| <= 1 && d.buf[d.target] == b % 16 * 16
    ensures After(d, AsSymbols(rest)).target < d.end
  {
    hide StepData, Outcome, After;
    if rest == [] {
      EmptyRun(d);
    } else {
      assert rest == [rest[0]] + [];
      ThirdSextet(d, b, rest[0]);
      StepThrough(d, rest[0], []);
      EmptyRun(StepData(d, rest[0]).0);
    }
  }

  lemma FirstSextet(d: Decoder, a: sextet)
    requires d.Valid() && d.state == 0 && d.target < d.end
    ensures StepData(d, a).0.target == d.target && StepData(d, a).0.end == d.end
  {
  }

  lemma EmptyRun(d: Decoder)
    requires d.Valid()
    ensures Outcome(d, AsSymbols([])) == Success && After(d, AsSymbols([])) == d
  {
  }

  lemma FullRun(d: Decoder, data: seq<sextet>)
    requires d.Valid() && d.target == d.end
    ensures Outcome(d, AsSymbols(data)) == if data == [] then Success else Overflow
    ensures After(d, AsSymbols(data)) == d
  {
    if data != [] {
      FullRefuses(d);
      hide StepData;
      StepThrough(d, data[0], data[1..]);
      assert data == [data[0]] + data[1..];
    }
  }

  lemma DigitsOfOne(a: sextet, b: sextet, x: byte)
    ensures [a, b] == Sextets([x]) <==> b % 16 == 0 && x == Byte0(a, b)
  {
    hide Digit;
    DigitsOfThree(x, 0, 0);
  }

  lemma DigitsOfTwo(a: sextet, b: sextet, c: sextet, x: byte, y: byte)
    ensures [a, b, c] == Sextets([x, y]) <==> c % 4 == 0 && x == Byte0(a, b) && y == Byte1(b, c)
  {
    DigitsOfThree(x, y, 0);
    hide Digit;
    assert Sextets([x, y]) == [x / 4, x % 4 * 16 + y / 16, y % 16 * 4];
    hide Sextets;
    TwoBytes(a, b, c, x, y);
  }

  lemma TwoBytes(a: sextet, b: sextet, c: sextet, x: byte, y: byte)
    ensures (a == x / 4 && b == x % 4 * 16 + y / 16 && c == y % 16 * 4)
       <==> (c % 4 == 0 && x == Byte0(a, b) && y == Byte1(b, c))
  {
  }

  lemma PutEqual(buf: seq<byte>, t: nat, a: seq<byte>, b: seq<byte>)
    requires |a| == |b| && t + |a| <= |buf|
    ensures Put(buf, t, a) == Put(buf, t, b) <==> a == b
  {
    assert Put(buf, t, a)[t..t + |a|] == a && Put(buf, t, b)[t..t + |a|] == b;
  }

  lemma OneByteLeft(d: Decoder, data: seq<sextet>, x: byte)
    requires d.Valid() && d.state == 0 && d.target + 1 == d.end
    ensures Fills(d, data, [x]) <==> data == Sextets([x])
  {
    hide StepData, Outcome, After, Byte0;
    if |data| <= 1 {
      ShortData(d, data);
    } else {
      var a, b, rest := data[0], data[1], data[2..];
      var d1 := StepData(d, a).0;
      var d2 := StepData(d1, b).0;
      assert data == [a] + ([b] + rest);
      StepThrough(d, a, [b] + rest);
      StepThrough(d1, b, rest);
      TwoSextets(d, a, b);
      DigitsOfOne(a, b, x);
      hide Sextets;
      assert rest == [] ==> data == [a, b];
      assert |Sextets([x])| == 2 by { SextetsLength([x]); }
      if b % 16 == 0 {
        FullRun(d2, rest);
        assert d2.buf == Put(d.buf, d.target, [Byte0(a, b)]);
        PutEqual(d.buf, d.target, [x], [Byte0(a, b)]);
        assert [x] == [Byte0(a, b)] <==> x == Byte0(a, b);
      }
    }
  }

  lemma SextetsLength(bytes: seq<byte>)
    ensures |bytes| == 1 ==> |Sextets(bytes)| == 2
    ensures |bytes| == 2 ==> |Sextets(bytes)| == 3
  {
  }

  lemma TwoBytesLeft(d: Decoder, data: seq<sextet>, x: byte, y: byte)
    requires d.Valid() && d.state == 0 && d.target + 2 == d.end
    ensures Fills(d, data, [x, y]) <==> data == Sextets([x, y])
  {
    hide StepData, Outcome, After, Byte0, Byte1, Put, Sextets;
    SextetsLength([x, y]);
    if |data| <= 2 {
      ShortData(d, data);
    } else {
      var a, b, c, rest := data[0], data[1], data[2], data[3..];
      var bytes := [Byte0(a, b), Byte1(b, c)];
      assert data == [a, b, c] + rest;
      assert rest == [] ==> data == [a, b, c];
      ThreeThenRest(d, a, b, c, rest);
      DigitsOfTwo(a, b, c, x, y);
      if c % 4 == 0 {
        FullRun(Decoder(3, Put(d.buf, d.target, bytes), d.target + 2, d.end), rest);
        PutEqual(d.buf, d.target, [x, y], bytes);
        assert [x, y] == bytes <==> x == bytes[0] && y == bytes[1];
      }
    }
  }

  lemma ThreeThenRest(d: Decoder, a: sextet, b: sextet, c: sextet, rest: seq<sextet>)
    requires d.Valid() && d.state == 0 && d.target + 2 == d.end
    ensures var d3 := Decoder(3, Put(d.buf, d.target, [Byte0(a, b), Byte1(b, c)]), d.target + 2, d.end);
            if c % 4 == 0
            then d3.Valid() && Outcome(d, AsSymbols([a, b, c] + rest)) == Outcome(d3, AsSymbols(rest))
                 && After(d, AsSymbols([a, b, c] + rest)) == After(d3, AsSymbols(rest))
            else Outcome(d, AsSymbols([a, b, c] + rest)) == Overflow
  {
    hide StepData, Outcome, After, Byte0, Byte1;
    var d1 := StepData(d, a).0;
    var d2 := StepData(d1, b).0;
    var d3 := StepData(d2, c).0;
    TwoSextets(d, a, b);
    ThirdSextet(d2, b, c);
    StepThrough(d, a, [b, c] + rest);
    StepThrough(d1, b, [c] + rest);
    StepThrough(d2, c, rest);
    assert [a, b, c] + rest == [a] + ([b, c] + rest);
    assert [b, c] + rest == [b] + ([c] + rest);
    if c % 4 == 0 {
      assert d3.buf == Put(d.buf, d.target, [Byte0(a, b), Byte1(b, c)]);
    }
  }

  /**
   From the start of a group, data sextets are all accepted and fill the free target exactly with
   `bytes` if and only if they are the sextets of `bytes`.
   */
  lemma {:induction false} FillsIffSextets(d: Decoder, data: seq<sextet>, bytes: seq<byte>)
    requires d.Valid() && d.state == 0 && d.target + |bytes| == d.end
    ensures Fills(d, data, bytes) <==> data == Sextets(bytes)
    decreases |bytes|
  {
    hide StepData, Digit;
    var t := d.target;
    if |bytes| == 0 {
      FullRun(d, data);
      assert Put(d.buf, t, bytes) == d.buf;
    } else if |bytes| == 1 {
      assert bytes == [bytes[0]];
      OneByteLeft(d, data, bytes[0]);
    } else if |bytes| == 2 {
      assert bytes == [bytes[0], bytes[1]];
      TwoBytesLeft(d, data, bytes[0], bytes[1]);
    } else if |data| < 4 {
      ShortData(d, data);
    } else {
      hide Outcome, After, Fills;
      var a, b, c, v, rest := data[0], data[1], data[2], data[3], data[4..];
      assert data == [a, b, c, v] + rest;
      FillsGroup(d, a, b, c, v, rest, bytes);
      var d' := Decoder(0, Put(d.buf, t, [Byte0(a, b), Byte1(b, c), Byte2(c, v)]), t + 3, d.end);
      FillsIffSextets(d', rest, bytes[3..]);
      GroupDigits(a, b, c, v, bytes[0], bytes[1], bytes[2]);
    }
  }

  lemma FillsGroup(d: Decoder, a: sextet, b: sextet, c: sextet, v: sextet, rest: seq<sextet>, bytes: seq<byte>)
    requires d.Valid() && d.state == 0 && d.target + |bytes| == d.end && |bytes| >= 3
    ensures var d' := Decoder(0, Put(d.buf, d.target, [Byte0(a, b), Byte1(b, c), Byte2(c, v)]), d.target + 3, d.end);
            Fills(d, [a, b, c, v] + rest, bytes)
            <==> bytes[0] == Byte0(a, b) && bytes[1] == Byte1(b, c) && bytes[2] == Byte2(c, v)
                 && Fills(d', rest, bytes[3..])
  {
    hide StepData, Outcome, After, Byte0, Byte1, Byte2;
    var t, head := d.target, [Byte0(a, b), Byte1(b, c), Byte2(c, v)];
    var d' := Decoder(0, Put(d.buf, t, head), t + 3, d.end);
    FullGroup(d, a, b, c, v, rest);
    SplitPut(d.buf, t, head, bytes);
    AfterKeepsPrefix(d', AsSymbols(rest));
    var buf := After(d', AsSymbols(rest)).buf;
    assert buf[t] == head[0] && buf[t + 1] == head[1] && buf[t + 2] == head[2];
    assert Put(d.buf, t, bytes)[t] == bytes[0] && Put(d.buf, t, bytes)[t + 1] == bytes[1]
           && Put(d.buf, t, bytes)[t + 2] == bytes[2];
    assert bytes[..3] == [bytes[0], bytes[1], bytes[2]];
  }

  lemma SplitPut(buf: seq<byte>, t: nat, head: seq<byte>, bytes: seq<byte>)
    requires t + |bytes| <= |buf| && |head| <= |bytes|
    ensures bytes[..|head|] == head ==>
              Put(Put(buf, t, head), t + |head|, bytes[|head|..]) == Put(buf, t, bytes)
  {
  }

  /** Bytes below the write position never change. */
  lemma {:induction false} AfterKeepsPrefix(d: Decoder, s: seq<Symbol>)
    requires d.Valid()
    ensures |After(d, s).buf| == |d.buf| && d.target <= After(d, s).target
    ensures forall i :: 0 <= i < d.target ==> After(d, s).buf[i] == d.buf[i]
    decreases |s|
  {
    if s != [] {
      StepKeepsPrefix(d, s[0]);
      hide Step;
      if Step(d, s[0]).1 == Success {
        AfterKeepsPrefix(Step(d, s[0]).0, s[1..]);
      }
    }
  }

  lemma StepKeepsPrefix(d: Decoder, s: Symbol)
    requires d.Valid()
    ensures var d' := Step(d, s).0;
            |d'.buf| == |d.buf| && d.target <= d'.target && forall i :: 0 <= i < d.target ==> d'.buf[i] == d.buf[i]
  {
    hide OrByte;
  }
}

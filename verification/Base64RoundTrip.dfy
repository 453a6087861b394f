/** What the encoder and the decoder owe each other. */
module Base64RoundTrip {
  import opened Bytes
  import opened Base64
  import opened Base64Decode
  import Base64Encode

  function Fresh(target: seq<byte>): (d: Decoder)
    ensures d.Valid()
  {
    Decoder(0, target, 0, |target|)
  }

  /**
   A text is accepted character by character and fills the target exactly with `bytes` if and only
   if it is well placed (nothing invalid, no data after a pad) and its data sextets are the data
   part of the encoding of `bytes`.
   */
  lemma AcceptedIffEncoding(text: seq<byte>, target: seq<byte>, bytes: seq<byte>)
    requires |bytes| == |target|
    ensures var d, s := Fresh(target), Symbols(text);
            (Outcome(d, s) == Success && After(d, s).target == |target| && After(d, s).buf == bytes)
            <==> (WellPlaced(s) && Data(s) == Sextets(bytes))
  {
    hide Outcome, After, WellPlaced, Data, Sextets;
    var d, s := Fresh(target), Symbols(text);
    OnlyDataMatters(d, s);
    FillsIffSextets(d, Data(s), bytes);
    assert Put(target, 0, bytes) == bytes;
    AfterEnd(d, Data(s));
  }

  lemma {:induction false} AfterEnd(d: Decoder, data: seq<sextet>)
    requires d.Valid()
    ensures After(d, AsSymbols(data)).end == d.end
    decreases |data|
  {
    hide StepData;
    if data != [] {
      StepThrough(d, data[0], data[1..]);
      assert data == [data[0]] + data[1..];
      StepKeepsEnd(d, data[0]);
      AfterEnd(StepData(d, data[0]).0, data[1..]);
    }
  }

  lemma StepKeepsEnd(d: Decoder, v: sextet)
    requires d.Valid()
    ensures StepData(d, v).0.end == d.end
  {
  }

  /** With less room than the bytes behind the sextets, some sextet overflows. */
  lemma {:induction false} SmallTargetOverflows(d: Decoder, src: seq<byte>)
    requires d.Valid() && d.state == 0 && d.target + |src| > d.end
    ensures Outcome(d, AsSymbols(Sextets(src))) == Overflow
    decreases |src|
  {
    hide StepData, Outcome, After, Digit;
    var data, free := Sextets(src), d.end - d.target;
    if free == 0 {
      FullRun(d, data);
    } else if free >= 3 {
      var a, b, c, v, rest := data[0], data[1], data[2], data[3], Sextets(src[3..]);
      assert data == [a, b, c, v] + rest;
      FullGroup(d, a, b, c, v, rest);
      SmallTargetOverflows(Decoder(0, Put(d.buf, d.target, [Byte0(a, b), Byte1(b, c), Byte2(c, v)]), d.target + 3, d.end), src[3..]);
    } else if free == 2 {
      var a, b, c, rest := data[0], data[1], data[2], data[3..];
      assert data == [a, b, c] + rest;
      ThreeThenRest(d, a, b, c, rest);
      if c % 4 == 0 {
        FullRun(Decoder(3, Put(d.buf, d.target, [Byte0(a, b), Byte1(b, c)]), d.target + 2, d.end), rest);
      }
    } else {
      var a, b, rest := data[0], data[1], data[2..];
      var d1 := StepData(d, a).0;
      assert data == [a] + ([b] + rest);
      TwoSextets(d, a, b);
      StepThrough(d, a, [b] + rest);
      StepThrough(d1, b, rest);
      if b % 16 == 0 {
        FullRun(StepData(d1, b).0, rest);
      }
    }
  }

  // ------------------------------------------------------------- room to spare

  /** The byte behind the data that is cleared when the last group is not whole and there is room for it. */
  function Cleared(n: nat, room: int): (z: seq<byte>)
    ensures room >= n ==> n + |z| <= room
  {
    if n % 3 != 0 && n < room then [0] else []
  }

  /** With enough room every sextet is accepted, and one byte behind the data at most is written. */
  lemma {:induction false} RoomSuffices(d: Decoder, src: seq<byte>)
    requires d.Valid() && d.state == 0 && d.target + |src| <= d.end
    ensures var d' := After(d, AsSymbols(Sextets(src)));
            && Outcome(d, AsSymbols(Sextets(src))) == Success && d'.target == d.target + |src|
            && d'.buf == Put(d.buf, d.target, src + Cleared(|src|, d.end - d.target))
    decreases |src|
  {
    hide StepData, Outcome, After, Digit;
    var t, data := d.target, Sextets(src);
    if src == [] {
      EmptyRun(d);
      assert Put(d.buf, t, []) == d.buf && src + [] == [];
    } else if |src| == 1 {
      assert src == [src[0]];
      RoomForOne(d, src[0]);
    } else if |src| == 2 {
      assert src == [src[0], src[1]];
      RoomForTwo(d, src[0], src[1]);
    } else {
      var a, b, c, v, rest := data[0], data[1], data[2], data[3], Sextets(src[3..]);
      assert data == [a, b, c, v] + rest;
      FullGroup(d, a, b, c, v, rest);
      GroupDigits(a, b, c, v, src[0], src[1], src[2]);
      var head := [Byte0(a, b), Byte1(b, c), Byte2(c, v)];
      assert head == src[..3];
      RoomSuffices(Decoder(0, Put(d.buf, t, head), t + 3, d.end), src[3..]);
      hide *;
      PutInTwo(d.buf, t, src, d.end - t);
    }
  }

  lemma PutInTwo(buf: seq<byte>, t: nat, src: seq<byte>, room: int)
    requires 3 <= |src| <= room && t + room <= |buf|
    ensures Put(Put(buf, t, src[..3]), t + 3, src[3..] + Cleared(|src[3..]|, room - 3)) == Put(buf, t, src + Cleared(|src|, room))
  {
    var z := Cleared(|src|, room);
    assert Cleared(|src[3..]|, room - 3) == z;
    assert (src + z)[..3] == src[..3] && (src + z)[3..] == src[3..] + z;
    SplitPut(buf, t, src[..3], src + z);
  }

  lemma RoomForOne(d: Decoder, x: byte)
    requires d.Valid() && d.state == 0 && d.target + 1 <= d.end
    ensures var d' := After(d, AsSymbols(Sextets([x])));
            && Outcome(d, AsSymbols(Sextets([x]))) == Success && d'.target == d.target + 1
            && d'.buf == Put(d.buf, d.target, [x] + Cleared(1, d.end - d.target))
  {
    hide StepData, Outcome, After, Digit;
    var t, data := d.target, Sextets([x]);
    var a, b := data[0], data[1];
    assert data == [a] + ([b] + []);
    DigitsOfOne(a, b, x);
    var d1 := StepData(d, a).0;
    TwoSextets(d, a, b);
    StepThrough(d, a, [b] + []);
    StepThrough(d1, b, []);
    EmptyRun(StepData(d1, b).0);
  }

  lemma RoomForTwo(d: Decoder, x: byte, y: byte)
    requires d.Valid() && d.state == 0 && d.target + 2 <= d.end
    ensures var d' := After(d, AsSymbols(Sextets([x, y])));
            && Outcome(d, AsSymbols(Sextets([x, y]))) == Success && d'.target == d.target + 2
            && d'.buf == Put(d.buf, d.target, [x, y] + Cleared(2, d.end - d.target))
  {
    hide StepData, Outcome, After, Digit;
    var t, data := d.target, Sextets([x, y]);
    var a, b, c := data[0], data[1], data[2];
    assert data == [a] + ([b] + ([c] + []));
    DigitsOfTwo(a, b, c, x, y);
    hide Sextets, Byte0, Byte1;
    var d1 := StepData(d, a).0;
    TwoSextets(d, a, b);
    var d2 := StepData(d1, b).0;
    ThirdSextet(d2, b, c);
    StepThrough(d, a, [b] + ([c] + []));
    StepThrough(d1, b, [c] + []);
    StepThrough(d2, c, []);
    EmptyRun(StepData(d2, c).0);
  }

  // ------------------------------------------------------------- the symbols of an encoded text

  lemma {:induction false} DataConcat(a: seq<Symbol>, b: seq<Symbol>)
    ensures Data(a + b) == Data(a) + Data(b)
    decreases |a|
  {
    if a == [] {
      assert a + b == b;
    } else {
      assert (a + b)[1..] == a[1..] + b;
      DataConcat(a[1..], b);
    }
  }

  predicate OnlyDataAndSpace(s: seq<Symbol>) {
    forall i :: 0 <= i < |s| ==> s[i].Sextet? || s[i].Space?
  }

  lemma {:induction false} WellPlacedAfter(a: seq<Symbol>, b: seq<Symbol>)
    requires OnlyDataAndSpace(a) && WellPlaced(b)
    ensures WellPlaced(a + b)
    decreases |a|
  {
    if a == [] {
      assert a + b == b;
    } else {
      assert (a + b)[1..] == a[1..] + b;
      assert OnlyDataAndSpace(a[1..]);
      WellPlacedAfter(a[1..], b);
    }
  }

  lemma {:induction false} LettersDecode(data: seq<sextet>, url: bool)
    ensures Symbols(Letters(data, url)) == AsSymbols(data) && Data(AsSymbols(data)) == data
    decreases |data|
  {
    forall i | 0 <= i < |data|
      ensures Symbols(Letters(data, url))[i] == Sextet(data[i])
    {
      DecodingInvertsEncoding(data[i], url);
    }
    if data != [] {
      LettersDecode(data[1..], url);
      assert AsSymbols(data)[1..] == AsSymbols(data[1..]);
    }
  }

  lemma SymbolsConcat(a: seq<byte>, b: seq<byte>)
    ensures Symbols(a + b) == Symbols(a) + Symbols(b)
  {
    hide Decoding;
  }

  /** A line: data, then only pads. */
  lemma TextSymbols(src: seq<byte>, url: bool)
    ensures var s := Symbols(Text(src, url));
            WellPlaced(s) && Data(s) == Sextets(src) && (|src| % 3 == 0 ==> OnlyDataAndSpace(s))
  {
    var data, pads := Sextets(src), Padding(|src|);
    assert |src| % 3 == 0 ==> pads == [];
    SymbolsOfData(data);
    PadsDecode(|src|);
    TextParts(src, url);
    hide *;
    SymbolsConcat(Letters(data, url), pads);
    LettersDecode(data, url);
    DataThenPads(AsSymbols(data), Symbols(pads));
  }

  lemma DataThenPads(data: seq<Symbol>, pads: seq<Symbol>)
    requires OnlyDataAndSpace(data) && forall i :: 0 <= i < |pads| ==> pads[i].Pad?
    ensures WellPlaced(data + pads) && Data(data + pads) == Data(data)
    ensures pads == [] ==> OnlyDataAndSpace(data + pads)
  {
    hide WellPlaced, Data;
    NoData(pads);
    DataConcat(data, pads);
    WellPlacedAfter(data, pads);
  }

  lemma TextParts(src: seq<byte>, url: bool)
    ensures Text(src, url) == Letters(Sextets(src), url) + Padding(|src|)
  {
  }

  lemma PadsDecode(n: nat)
    ensures forall i :: 0 <= i < |Symbols(Padding(n))| ==> Symbols(Padding(n))[i].Pad?
  {
  }

  lemma SymbolsOfData(data: seq<sextet>)
    ensures OnlyDataAndSpace(AsSymbols(data))
  {
  }

  lemma {:induction false} SextetsConcat(a: seq<byte>, b: seq<byte>)
    requires |a| % 3 == 0
    ensures Sextets(a + b) == Sextets(a) + Sextets(b)
    decreases |a|
  {
    hide Digit;
    if a == [] {
      assert a + b == b;
    } else {
      assert (a + b)[3..] == a[3..] + b;
      SextetsConcat(a[3..], b);
    }
  }

  predicate Whitespace(text: seq<byte>) {
    forall i :: 0 <= i < |text| ==> Decoding(text[i]) == Space
  }

  lemma {:induction false} SpacesOnly(s: seq<Symbol>)
    requires forall i :: 0 <= i < |s| ==> s[i].Space?
    ensures Data(s) == []
    decreases |s|
  {
    if s != [] {
      SpacesOnly(s[1..]);
    }
  }

  lemma LineThenRest(line: seq<Symbol>, wordbreak: seq<Symbol>, rest: seq<Symbol>)
    requires OnlyDataAndSpace(line) && WellPlaced(rest)
    requires forall i :: 0 <= i < |wordbreak| ==> wordbreak[i].Space?
    ensures WellPlaced(line + (wordbreak + rest)) && Data(line + (wordbreak + rest)) == Data(line) + Data(rest)
  {
    hide WellPlaced, Data;
    SpacesOnly(wordbreak);
    DataConcat(wordbreak, rest);
    DataConcat(line, wordbreak + rest);
    WellPlacedAfter(wordbreak, rest);
    WellPlacedAfter(line, wordbreak + rest);
  }

  lemma {:induction false} LinesSymbols(src: seq<byte>, groups: nat, wordbreak: seq<byte>, url: bool)
    requires groups >= 1 && Whitespace(wordbreak)
    ensures var s := Symbols(Base64Encode.Join(Base64Encode.Lines(src, groups, url), wordbreak));
            WellPlaced(s) && Data(s) == Sextets(src)
    decreases |src|
  {
    hide Text, Sextets, Data, WellPlaced, Decoding;
    if src == [] {
      EmptySextets();
    } else if |src| <= 3 * groups {
      TextSymbols(src, url);
    } else {
      var head, tail := src[..3 * groups], src[3 * groups..];
      var lines := Base64Encode.Lines(src, groups, url);
      var rest := Base64Encode.Join(lines[1..], wordbreak);
      assert lines[0] == Text(head, url) && lines[1..] == Base64Encode.Lines(tail, groups, url);
      assert Base64Encode.Join(lines, wordbreak) == Text(head, url) + wordbreak + rest;
      assert Text(head, url) + wordbreak + rest == Text(head, url) + (wordbreak + rest);
      SymbolsConcat(wordbreak, rest);
      SymbolsConcat(Text(head, url), wordbreak + rest);
      LinesSymbols(tail, groups, wordbreak, url);
      TextSymbols(head, url);
      hide *;
      LineThenRest(Symbols(Text(head, url)), Symbols(wordbreak), Symbols(rest));
      SextetsConcat(head, tail);
      assert head + tail == src;
    }
  }

  lemma EmptySextets()
    ensures Sextets([]) == [] && WellPlaced([]) && Data([]) == []
  {
  }

  /**
   The round trip: for any source, either alphabet, any word length, any whitespace word break and any
   target with room, every character of the encoding is accepted and the target starts with the
   source. Behind it nothing changes but one byte, which is cleared if the last group is not whole.
   */
  lemma DecodeOfEncode(src: seq<byte>, wordbreak: seq<byte>, wordlen: int, url: bool, target: seq<byte>)
    requires Whitespace(wordbreak) && |target| >= |src|
    ensures var d, s := Fresh(target), Symbols(Base64Encode.EncodedText(src, wordbreak, wordlen, url));
            var z := Cleared(|src|, |target|);
            && Outcome(d, s) == Success && After(d, s).target == |src|
            && After(d, s).buf == src + z + target[|src| + |z|..]
            && (|target| == |src| ==> After(d, s).buf == src)
  {
    hide WellPlaced, Data, Outcome, After, Sextets;
    var d, s := Fresh(target), Symbols(Base64Encode.EncodedText(src, wordbreak, wordlen, url));
    var z := Cleared(|src|, |target|);
    LinesSymbols(src, Base64Encode.GroupsPerLine(wordlen), wordbreak, url);
    OnlyDataMatters(d, s);
    RoomSuffices(d, src);
    assert Put(target, 0, src + z) == src + z + target[|src| + |z|..];
    assert |target| == |src| ==> src + z + target[|src| + |z|..] == src;
  }

  /** A smaller target makes some character overflow, and no character is refused for another reason. */
  lemma DecodeIntoSmallerTarget(src: seq<byte>, wordbreak: seq<byte>, wordlen: int, url: bool, target: seq<byte>)
    requires Whitespace(wordbreak) && |target| < |src|
    ensures Outcome(Fresh(target), Symbols(Base64Encode.EncodedText(src, wordbreak, wordlen, url))) == Overflow
  {
    hide WellPlaced, Data, Outcome;
    var d, s := Fresh(target), Symbols(Base64Encode.EncodedText(src, wordbreak, wordlen, url));
    LinesSymbols(src, Base64Encode.GroupsPerLine(wordlen), wordbreak, url);
    SmallTargetOverflows(d, src);
    OnlyDataMatters(d, s);
    NeverInvalid(d, s);
  }

  lemma {:induction false} WellPlacedHasNoInvalid(s: seq<Symbol>)
    requires WellPlaced(s)
    ensures forall i :: 0 <= i < |s| ==> !s[i].Invalid?
    decreases |s|
  {
    if s != [] && !s[0].Pad? {
      WellPlacedHasNoInvalid(s[1..]);
      assert forall i :: 1 <= i < |s| ==> s[i] == s[1..][i - 1];
    }
  }

  lemma {:induction false} OutcomeNotInvalid(d: Decoder, s: seq<Symbol>)
    requires d.Valid() && forall i :: 0 <= i < |s| ==> !s[i].Invalid?
    ensures Outcome(d, s) != InvalidInput
    decreases |s|
  {
    if s != [] && Step(d, s[0]).1 == Success {
      hide StepData;
      OutcomeNotInvalid(Step(d, s[0]).0, s[1..]);
    }
  }

  lemma NeverInvalid(d: Decoder, s: seq<Symbol>)
    requires d.Valid() && WellPlaced(s)
    ensures Outcome(d, s) != InvalidInput
  {
    WellPlacedHasNoInvalid(s);
    OutcomeNotInvalid(d, s);
  }

  /**
   Whatever is accepted and fills its target encodes back to the same sextets, followed by the pads
   the length asks for.
   */
  lemma EncodeOfDecode(text: seq<byte>, target: seq<byte>, url: bool)
    requires Outcome(Fresh(target), Symbols(text)) == Success
    requires After(Fresh(target), Symbols(text)).target == |target|
    ensures var bytes := After(Fresh(target), Symbols(text)).buf;
            |bytes| == |target|
            && Text(bytes, url) == Letters(Data(Symbols(text)), url) + Padding(|target|)
  {
    var bytes := After(Fresh(target), Symbols(text)).buf;
    AfterKeepsPrefix(Fresh(target), Symbols(text));
    AcceptedIffEncoding(text, target, bytes);
  }
}

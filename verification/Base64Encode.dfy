/** The encoder with word breaks (cpukit/base64/base64-encode.c). */
module Base64Encode {
  import opened Bytes
  import opened Base64

  /** The caller's put_char: every character goes to the end of a stream. */
  class Sink {
    var chars: seq<byte>

    constructor ()
      ensures chars == []
    {
      chars := [];
    }

    method Put(c: byte)
      modifies this
      ensures chars == old(chars) + [c]
    {
      chars := chars + [c];
    }
  }

  // ------------------------------------------------------------- specification

  /** The number of four-character groups on a line: as many as stay below `wordlen`, but at least one. */
  function GroupsPerLine(wordlen: int): (g: nat)
    ensures g >= 1
  {
    var w := if wordlen < 4 then 4 else wordlen;
    if w <= 8 then 1 else (w + 3) / 4 - 1
  }

  /** The lines of the text: the source cut into runs of whole groups, each encoded on its own. */
  function Lines(src: seq<byte>, groups: nat, url: bool): (lines: seq<seq<byte>>)
    requires groups >= 1
    ensures src != [] ==> lines != []
  {
    if src == [] then []
    else if |src| <= 3 * groups then [Text(src, url)]
    else [Text(src[..3 * groups], url)] + Lines(src[3 * groups..], groups, url)
  }

  function Join(lines: seq<seq<byte>>, wordbreak: seq<byte>): seq<byte> {
    if lines == [] then []
    else if |lines| == 1 then lines[0]
    else lines[0] + wordbreak + Join(lines[1..], wordbreak)
  }

  function EncodedText(src: seq<byte>, wordbreak: seq<byte>, wordlen: int, url: bool): seq<byte> {
    Join(Lines(src, GroupsPerLine(wordlen), url), wordbreak)
  }

  /** What is still to come after `loops` groups of the current line. */
  function Rest(src: seq<byte>, wordbreak: seq<byte>, groups: nat, loops: nat, url: bool): seq<byte>
    requires loops < groups
  {
    var k := 3 * (groups - loops);
    if |src| <= k then Text(src, url)
    else Text(src[..k], url) + wordbreak + Join(Lines(src[k..], groups, url), wordbreak)
  }

  function Group(a: byte, b: byte, c: byte, url: bool): (g: seq<byte>)
    ensures |g| == 4
  {
    [Encoding(a / 4, url), Encoding(a % 4 * 16 + b / 16, url), Encoding(b % 16 * 4 + c / 64, url), Encoding(c % 64, url)]
  }

  lemma LettersConcat(a: seq<sextet>, b: seq<sextet>, url: bool)
    ensures Letters(a + b, url) == Letters(a, url) + Letters(b, url)
  {
    hide Encoding;
  }

  lemma LettersOfFour(a: sextet, b: sextet, c: sextet, d: sextet, url: bool)
    ensures Letters([a, b, c, d], url) == [Encoding(a, url), Encoding(b, url), Encoding(c, url), Encoding(d, url)]
  {
    hide Encoding;
  }

  lemma TextGroup(src: seq<byte>, url: bool)
    requires |src| > 2
    ensures Text(src, url) == Group(src[0], src[1], src[2], url) + Text(src[3..], url)
  {
    hide Encoding, Digit, Letters;
    var a, b, c := src[0], src[1], src[2];
    var four := [Digit(a, b, c, 0), Digit(a, b, c, 1), Digit(a, b, c, 2), Digit(a, b, c, 3)];
    assert Sextets(src) == four + Sextets(src[3..]);
    hide Sextets;
    DigitsOfThree(a, b, c);
    LettersOfFour(four[0], four[1], four[2], four[3], url);
    LettersConcat(four, Sextets(src[3..]), url);
  }

  lemma TextTail(src: seq<byte>, url: bool)
    requires |src| <= 2
    ensures |src| == 0 ==> Text(src, url) == []
    ensures |src| == 1 ==> Text(src, url) == [Encoding(src[0] / 4, url), Encoding(src[0] % 4 * 16, url), PAD_CHAR, PAD_CHAR]
    ensures |src| == 2 ==> Text(src, url) == Group(src[0], src[1], 0, url)[..3] + [PAD_CHAR]
  {
    if |src| >= 1 {
      DigitsOfThree(src[0], if |src| == 2 then src[1] else 0, 0);
    }
  }

  lemma TextNonempty(src: seq<byte>, url: bool)
    requires src != []
    ensures |Text(src, url)| >= 4
  {
    if |src| > 2 {
      TextGroup(src, url);
    } else {
      TextTail(src, url);
    }
  }

  lemma RestStart(src: seq<byte>, wordbreak: seq<byte>, groups: nat, url: bool)
    requires groups >= 1
    ensures Rest(src, wordbreak, groups, 0, url) == Join(Lines(src, groups, url), wordbreak)
  {
    if src == [] {
      TextTail(src, url);
    } else if |src| > 3 * groups {
      var lines := Lines(src, groups, url);
      assert lines[1..] == Lines(src[3 * groups..], groups, url);
    }
  }

  lemma RestGroup(src: seq<byte>, wordbreak: seq<byte>, groups: nat, loops: nat, url: bool)
    requires loops < groups && |src| > 3
    ensures Rest(src, wordbreak, groups, loops, url)
         == Group(src[0], src[1], src[2], url) + AfterGroup(src[3..], wordbreak, groups, loops + 1, url)
  {
    hide Text, Group, Join, Lines;
    var k := 3 * (groups - loops);
    var g := Group(src[0], src[1], src[2], url);
    if |src| <= k {
      TextGroup(src, url);
    } else {
      var join := Join(Lines(src[k..], groups, url), wordbreak);
      TextGroup(src[..k], url);
      assert src[..k][3..] == src[3..][..k - 3] && src[k..] == src[3..][k - 3..];
      var t := Text(src[..k][3..], url);
      assert Rest(src, wordbreak, groups, loops, url) == (g + t) + wordbreak + join;
      assert (g + t) + wordbreak + join == g + (t + wordbreak + join);
      if loops + 1 == groups {
        TextTail(src[..k][3..], url);
        RestStart(src[3..], wordbreak, groups, url);
        assert t + wordbreak + join == wordbreak + join;
      } else {
        assert AfterGroup(src[3..], wordbreak, groups, loops + 1, url) == t + wordbreak + join;
      }
    }
  }

  /** The text after a group: more of the line, or the word break and the next line. */
  function AfterGroup(src: seq<byte>, wordbreak: seq<byte>, groups: nat, loops: nat, url: bool): seq<byte>
    requires loops <= groups && groups >= 1
  {
    if loops < groups then Rest(src, wordbreak, groups, loops, url)
    else wordbreak + Rest(src, wordbreak, groups, 0, url)
  }

  lemma RestLastGroup(src: seq<byte>, wordbreak: seq<byte>, groups: nat, loops: nat, url: bool)
    requires loops < groups && |src| == 3
    ensures Rest(src, wordbreak, groups, loops, url) == Group(src[0], src[1], src[2], url)
  {
    TextGroup(src, url);
    TextTail(src[3..], url);
  }

  lemma RestNonempty(src: seq<byte>, wordbreak: seq<byte>, groups: nat, loops: nat, url: bool)
    requires loops < groups && src != []
    ensures |Rest(src, wordbreak, groups, loops, url)| >= 4
  {
    TextNonempty(src, url);
    if |src| > 3 * (groups - loops) {
      TextNonempty(src[..3 * (groups - loops)], url);
    }
  }

  /** The test for a break is met when the line has its groups: when one more would reach `wordlen`. */
  lemma BreakWhenFull(wordlen: int, loops: nat)
    requires 1 <= loops <= GroupsPerLine(wordlen)
    ensures (loops + 1) * 4 >= (if wordlen < 4 then 4 else wordlen) <==> loops == GroupsPerLine(wordlen)
  {
  }

  // ------------------------------------------------------------- the source

  lemma MergedBits(a: byte, b: byte)
    ensures Or(a % 4 * 16, b / 16 % 16) == a % 4 * 16 + b / 16
    ensures Or(a % 16 * 4, b / 64 % 4) == a % 16 * 4 + b / 64
  {
    hide Or;
    OrShifted(a % 4, b / 16);
    OrShifted(a % 16, b / 64);
  }

  /** The four sextets as the source masks and merges them. */
  function First(a: byte): (s: sextet)
    ensures s == a / 4
  {
    a / 4 % 64
  }

  function Second(a: byte, b: byte): (s: sextet)
    ensures s == a % 4 * 16 + b / 16
  {
    MergedBits(a, b);
    Or(a % 4 * 16, b / 16 % 16)
  }

  function Third(b: byte, c: byte): (s: sextet)
    ensures s == b % 16 * 4 + c / 64
  {
    MergedBits(b, c);
    Or(b % 16 * 4, c / 64 % 4)
  }

  method PutGroup(sink: Sink, a: byte, b: byte, c: byte, url: bool)
    modifies sink
    ensures sink.chars == old(sink.chars) + Group(a, b, c, url)
  {
    hide Encoding, First, Second, Third;
    sink.Put(Encoding(First(a), url));
    sink.Put(Encoding(Second(a, b), url));
    sink.Put(Encoding(Third(b, c), url));
    sink.Put(Encoding(c % 64, url));
  }

  method PutTail(sink: Sink, tail: seq<byte>, url: bool) returns (out: int)
    requires |tail| <= 2
    modifies sink
    ensures sink.chars == old(sink.chars) + Text(tail, url)
    ensures out == |Text(tail, url)|
  {
    hide Encoding, First, Second, Third, Text;
    out := 0;
    TextTail(tail, url);
    if |tail| == 2 {
      sink.Put(Encoding(First(tail[0]), url));
      sink.Put(Encoding(Second(tail[0], tail[1]), url));
      sink.Put(Encoding(tail[1] % 16 * 4, url));
      sink.Put(PAD_CHAR);
      out := 4;
    } else if |tail| == 1 {
      sink.Put(Encoding(First(tail[0]), url));
      sink.Put(Encoding(tail[0] % 4 * 16, url));
      sink.Put(PAD_CHAR);
      sink.Put(PAD_CHAR);
      out := 4;
    }
  }

  method PutWord(sink: Sink, word: seq<byte>) returns (out: int)
    modifies sink
    ensures sink.chars == old(sink.chars) + word && out == |word|
  {
    out := 0;
    while out < |word|
      invariant 0 <= out <= |word| && sink.chars == old(sink.chars) + word[..out]
    {
      sink.Put(word[out]);
      out := out + 1;
    }
  }

  /**
   Puts the text of `src` to the sink and returns the number of characters put. A text longer
   than an int would overflow the source's counter.
   */
  method DoEncode(sink: Sink, src: seq<byte>, wordbreak: seq<byte>, wordlen: int, url: bool) returns (out: int)
    requires |EncodedText(src, wordbreak, wordlen, url)| <= INT_MAX
    modifies sink
    ensures sink.chars == old(sink.chars) + EncodedText(src, wordbreak, wordlen, url)
    ensures out == |EncodedText(src, wordbreak, wordlen, url)|
  {
    hide Text, Group, Join, Lines, Rest, GroupsPerLine, EncodedText;
    ghost var goal, groups := sink.chars + EncodedText(src, wordbreak, wordlen, url), GroupsPerLine(wordlen);
    var loops, pos := 0, 0;
    var limit := if wordlen < 4 then 4 else wordlen;
    out := 0;
    assert src[0..] == src;
    ghost var left := EncodedText(src, wordbreak, wordlen, url);
    TextStart(src, wordbreak, wordlen, url);
    while |src| - pos > 2
      invariant 0 <= pos <= |src|
      invariant pos == |src| || loops < groups
      invariant out == |sink.chars| - |old(sink.chars)| && 4 * loops <= out
      invariant left == if pos == |src| then [] else Rest(src[pos..], wordbreak, groups, loops, url)
      invariant goal == sink.chars + left
    {
      ghost var before, rest := sink.chars, src[pos..];
      LeftAfterGroup(goal, before, rest, wordbreak, groups, loops + 1, url);
      BreakWhenFull(wordlen, loops + 1);
      PutGroup(sink, src[pos], src[pos + 1], src[pos + 2], url);
      pos := pos + 3;
      out := out + 4;
      loops := loops + 1;
      assert src[pos..] == rest[3..];
      left := if pos == |src| then [] else AfterGroup(rest[3..], wordbreak, groups, loops, url);
      assert |goal| == |sink.chars| + |left|;
      if pos != |src| && ToInt32((loops + 1) * 4) >= limit {
        loops := 0;
        before := sink.chars;
        left := Rest(rest[3..], wordbreak, groups, 0, url);
        assert before + (wordbreak + left) == (before + wordbreak) + left;
        var n := PutWord(sink, wordbreak);
        out := out + n;
      }
    }
    RestTail(src[pos..], wordbreak, groups, loops, url);
    var n := PutTail(sink, src[pos..], url);
    out := out + n;
  }

  lemma LeftAfterGroup(goal: seq<byte>, before: seq<byte>, rest: seq<byte>, wordbreak: seq<byte>, groups: nat,
                       loops: nat, url: bool)
    requires 1 <= loops <= groups && |rest| > 2
    requires goal == before + Rest(rest, wordbreak, groups, loops - 1, url)
    ensures var left := if |rest| == 3 then [] else AfterGroup(rest[3..], wordbreak, groups, loops, url);
            goal == before + Group(rest[0], rest[1], rest[2], url) + left && (|rest| > 3 ==> |left| >= 4)
  {
    hide Group, Rest;
    if |rest| == 3 {
      RestLastGroup(rest, wordbreak, groups, loops - 1, url);
    } else {
      RestGroup(rest, wordbreak, groups, loops - 1, url);
      RestNonempty(rest[3..], wordbreak, groups, if loops == groups then 0 else loops, url);
      var g, left := Group(rest[0], rest[1], rest[2], url), AfterGroup(rest[3..], wordbreak, groups, loops, url);
      assert before + (g + left) == before + g + left;
    }
  }

  lemma TextStart(src: seq<byte>, wordbreak: seq<byte>, wordlen: int, url: bool)
    ensures EncodedText(src, wordbreak, wordlen, url)
         == if src == [] then [] else Rest(src, wordbreak, GroupsPerLine(wordlen), 0, url)
  {
    RestStart(src, wordbreak, GroupsPerLine(wordlen), url);
  }

  lemma RestTail(src: seq<byte>, wordbreak: seq<byte>, groups: nat, loops: nat, url: bool)
    requires |src| <= 2 && (src == [] || loops < groups)
    ensures Text(src, url) == if src == [] then [] else Rest(src, wordbreak, groups, loops, url)
  {
    TextTail(src, url);
  }

  // ------------------------------------------------------------- lines

  lemma {:induction false} TextLength(src: seq<byte>, url: bool)
    ensures |Text(src, url)| == (|src| + 2) / 3 * 4
    decreases |src|
  {
    hide Text, Encoding;
    if |src| > 2 {
      TextGroup(src, url);
      TextLength(src[3..], url);
    } else {
      TextTail(src, url);
    }
  }

  /** Every line with another behind it has the same length, and the last one at most that. */
  lemma {:induction false} LineLengths(src: seq<byte>, groups: nat, url: bool, k: nat)
    requires groups >= 1 && k < |Lines(src, groups, url)|
    ensures 4 <= |Lines(src, groups, url)[k]| <= 4 * groups
    ensures k + 1 < |Lines(src, groups, url)| ==> |Lines(src, groups, url)[k]| == 4 * groups
    decreases |src|
  {
    hide Text;
    if |src| <= 3 * groups {
      TextLength(src, url);
    } else {
      TextLength(src[..3 * groups], url);
      if k > 0 {
        LineLengths(src[3 * groups..], groups, url, k - 1);
      }
    }
  }

  /**
   The length of a full line against `wordlen`: four for a word length up to four; above that at least
   one character and at most a group short of it. So the break comes after `wordlen` characters, as
   the interface documents, exactly for word lengths up to four, which count as four.
   */
  lemma FullLineLength(wordlen: int)
    ensures wordlen <= 4 ==> 4 * GroupsPerLine(wordlen) == 4
    ensures wordlen > 4 ==> wordlen - 4 <= 4 * GroupsPerLine(wordlen) < wordlen
    ensures 4 * GroupsPerLine(wordlen) == (if wordlen < 4 then 4 else wordlen) <==> wordlen <= 4
  {
  }

  /** Every line has at least one group and fits `wordlen`, strictly above 4, with the exact length of full lines. */
  lemma LinesFit(src: seq<byte>, wordlen: int, url: bool, k: nat)
    requires k < |Lines(src, GroupsPerLine(wordlen), url)|
    ensures var lines := Lines(src, GroupsPerLine(wordlen), url);
            && 4 <= |lines[k]| <= (if wordlen < 4 then 4 else wordlen)
            && (wordlen > 4 ==> |lines[k]| < wordlen)
            && (k + 1 < |lines| ==> |lines[k]| == 4 * GroupsPerLine(wordlen))
            && (k + 1 < |lines| && wordlen > 4 ==> wordlen - 4 <= |lines[k]|)
  {
    hide Lines;
    LineLengths(src, GroupsPerLine(wordlen), url, k);
    FullLineLength(wordlen);
  }

  /** A letter, a digit, one of the two characters special to the alphabet, or a pad. */
  predicate InAlphabet(c: byte, url: bool) {
    || 'A' as int <= c <= 'Z' as int || 'a' as int <= c <= 'z' as int || '0' as int <= c <= '9' as int
    || c == '=' as int || (if url then c == '-' as int || c == '_' as int else c == '+' as int || c == '/' as int)
  }

  lemma EncodingInAlphabet(s: sextet, url: bool)
    ensures InAlphabet(Encoding(s, url), url) && Encoding(s, url) != '=' as int
  {
  }

  /** The text: characters of the alphabet only, pads only at its end, as many as the last group is short of bytes. */
  lemma TextCharacters(src: seq<byte>, url: bool, i: nat)
    requires i < |Text(src, url)|
    ensures var pads := if |src| % 3 == 1 then 2 else if |src| % 3 == 2 then 1 else 0;
            InAlphabet(Text(src, url)[i], url) && (Text(src, url)[i] == '=' as int <==> i >= |Text(src, url)| - pads)
  {
    hide Encoding, Sextets, InAlphabet;
    var d := Sextets(src);
    assert InAlphabet(PAD_CHAR, url) && PAD_CHAR == '=' as int by {
      PadInAlphabet(url);
    }
    if i < |d| {
      EncodingInAlphabet(d[i], url);
    }
  }

  lemma PadInAlphabet(url: bool)
    ensures InAlphabet(PAD_CHAR, url) && PAD_CHAR == '=' as int
  {
  }

  lemma {:induction false} TextConcat(a: seq<byte>, b: seq<byte>, url: bool)
    requires |a| % 3 == 0
    ensures Text(a + b, url) == Text(a, url) + Text(b, url)
    decreases |a|
  {
    hide Text, Group;
    if a == [] {
      TextTail(a, url);
      assert a + b == b;
      assert [] + Text(b, url) == Text(b, url);
    } else {
      TextGroup(a, url);
      TextGroup(a + b, url);
      assert (a + b)[3..] == a[3..] + b;
      TextConcat(a[3..], b, url);
      var g := Group(a[0], a[1], a[2], url);
      assert g + (Text(a[3..], url) + Text(b, url)) == (g + Text(a[3..], url)) + Text(b, url);
    }
  }

  lemma JoinCons(line: seq<byte>, lines: seq<seq<byte>>)
    requires lines != []
    ensures Join([line] + lines, []) == line + Join(lines, [])
  {
    assert ([line] + lines)[1..] == lines;
    assert line + [] == line;
  }

  /** One break between any two lines, and none in front of the first or behind the last. */
  lemma {:induction false} JoinIs(lines: seq<seq<byte>>, last: seq<byte>, wordbreak: seq<byte>)
    ensures Join([last], wordbreak) == last
    ensures lines != [] ==> Join(lines + [last], wordbreak) == Join(lines, wordbreak) + wordbreak + last
    decreases |lines|
  {
    if |lines| == 1 {
      assert (lines + [last])[1..] == [last];
    } else if |lines| > 1 {
      JoinIs(lines[1..], last, wordbreak);
      assert (lines + [last])[1..] == lines[1..] + [last];
      var x, y := lines[0] + wordbreak, Join(lines[1..], wordbreak);
      assert x + (y + wordbreak + last) == x + y + wordbreak + last;
    }
  }

  /** Without the word breaks the lines are the one-line text: breaks fall between groups only. */
  lemma {:induction false} LinesWithoutBreaks(src: seq<byte>, groups: nat, url: bool)
    requires groups >= 1
    ensures Join(Lines(src, groups, url), []) == Text(src, url)
    decreases |src|
  {
    hide Text;
    if src == [] {
      TextTail(src, url);
    } else if |src| > 3 * groups {
      var head, tail := src[..3 * groups], src[3 * groups..];
      var lines := Lines(src, groups, url);
      assert lines == [Text(head, url)] + Lines(tail, groups, url) && Lines(tail, groups, url) != [];
      hide Lines;
      JoinCons(Text(head, url), Lines(tail, groups, url));
      hide Join;
      LinesWithoutBreaks(tail, groups, url);
      TextConcat(head, tail, url);
      assert head + tail == src;
    }
  }
}

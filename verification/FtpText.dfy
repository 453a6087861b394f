/**
 The ASCII representation type (section 3.1.1.1 of RFC 959): line feeds travel as CR LF. The
 sender's expansion, the receiver's one-character-at-a-time transducer, and their laws.
 */
module FtpText {
  import opened Bytes

  function Flatten(chunks: seq<seq<byte>>): seq<byte> {
    if chunks == [] then [] else chunks[0] + Flatten(chunks[1..])
  }

  /** What the sender makes of a file: every LF becomes CR LF. */
  function Expand(s: seq<byte>): seq<byte> {
    if s == [] then []
    else if s[0] == LF then [CR, LF] + Expand(s[1..])
    else [s[0]] + Expand(s[1..])
  }

  lemma {:induction false} ExpandConcat(a: seq<byte>, b: seq<byte>)
    ensures Expand(a + b) == Expand(a) + Expand(b)
    decreases |a|
  {
    if a == [] {
      assert a + b == b;
    } else {
      assert (a + b)[1..] == a[1..] + b;
      ExpandConcat(a[1..], b);
    }
  }

  lemma {:induction false} ExpandPlain(s: seq<byte>)
    requires LF !in s
    ensures Expand(s) == s
  {
    if s != [] {
      ExpandPlain(s[1..]);
    }
  }

  // ------------------------------------------------------------- the receiver's transducer

  /** Output so far, whether a CR is held back, and the line feeds that came without a CR. */
  datatype Receiver = Receiver(out: seq<byte>, pending: bool, bare: nat)

  const START := Receiver([], false, 0)

  function Feed(r: Receiver, c: byte): Receiver {
    if c == CR then Receiver(if r.pending then r.out + [CR] else r.out, true, r.bare)
    else if c == LF then Receiver(r.out + [LF], false, if r.pending then r.bare else r.bare + 1)
    else Receiver(if r.pending then r.out + [CR, c] else r.out + [c], false, r.bare)
  }

  function FeedAll(r: Receiver, s: seq<byte>): Receiver {
    if s == [] then r else Feed(FeedAll(r, s[..|s| - 1]), s[|s| - 1])
  }

  lemma {:induction false} FeedAllConcat(r: Receiver, a: seq<byte>, b: seq<byte>)
    ensures FeedAll(r, a + b) == FeedAll(FeedAll(r, a), b)
    decreases |b|
  {
    if b == [] {
      assert a + b == a;
    } else {
      assert (a + b)[..|a + b| - 1] == a + b[..|b| - 1];
      FeedAllConcat(r, a, b[..|b| - 1]);
    }
  }

  // ------------------------------------------------------------- what the transducer means

  /** Drop each CR that stands before an LF, and a CR at the very end. */
  function Collapse(s: seq<byte>): seq<byte> {
    if s == [] then []
    else if s[0] == CR && (|s| == 1 || s[1] == LF) then Collapse(s[1..])
    else [s[0]] + Collapse(s[1..])
  }

  predicate BareAt(s: seq<byte>, i: nat)
    requires i < |s|
  {
    s[i] == LF && (i == 0 || s[i - 1] != CR)
  }

  function BareLineFeeds(s: seq<byte>): set<nat> {
    set i: nat | i < |s| && BareAt(s, i)
  }

  function HeldBack(s: seq<byte>): seq<byte> {
    if s != [] && s[|s| - 1] == CR then [CR] else []
  }

  lemma {:induction false} CollapseAppend(s: seq<byte>, c: byte)
    ensures Collapse(s + [c]) == Collapse(s) + (if c == LF then [LF] else HeldBack(s) + (if c == CR then [] else [c]))
    decreases |s|
  {
    if s == [] {
      assert s + [c] == [c] && [c][1..] == [];
    } else {
      assert (s + [c])[1..] == s[1..] + [c];
      CollapseAppend(s[1..], c);
      if |s| == 1 {
        assert s[1..] == [] && [c][1..] == [];
      } else {
        assert HeldBack(s) == HeldBack(s[1..]);
      }
    }
  }

  lemma BareAppend(s: seq<byte>, c: byte)
    ensures BareLineFeeds(s + [c])
         == BareLineFeeds(s) + (if c == LF && HeldBack(s) == [] then {|s|} else {})
  {
    forall i: nat | i < |s|
      ensures BareAt(s + [c], i) == BareAt(s, i)
    {
    }
    assert BareAt(s + [c], |s|) == (c == LF && HeldBack(s) == []);
  }

  /**
   The transducer's output is the stream with every CR LF collapsed to LF and a final CR dropped;
   it counts exactly the line feeds that no CR precedes.
   */
  lemma {:induction false} ReceiverMeaning(s: seq<byte>)
    ensures FeedAll(START, s).out == Collapse(s)
    ensures FeedAll(START, s).pending <==> HeldBack(s) != []
    ensures FeedAll(START, s).bare == |BareLineFeeds(s)|
    decreases |s|
  {
    if s == [] {
      assert BareLineFeeds(s) == {};
    } else {
      var front, c := s[..|s| - 1], s[|s| - 1];
      assert s == front + [c];
      ReceiverMeaning(front);
      CollapseAppend(front, c);
      BareAppend(front, c);
      assert |front| !in BareLineFeeds(front);
    }
  }

  // ------------------------------------------------------------- the round trip

  function DropFinalCr(s: seq<byte>): seq<byte> {
    s[..|s| - |HeldBack(s)|]
  }

  lemma {:induction false} ExpandLast(s: seq<byte>)
    ensures HeldBack(Expand(s)) == HeldBack(s)
    decreases |s|
  {
    if s != [] {
      var front, c := s[..|s| - 1], s[|s| - 1];
      assert s == front + [c];
      ExpandConcat(front, [c]);
      assert Expand([c]) == if c == LF then [CR, LF] else [c];
    }
  }

  lemma CollapseCrLf(e: seq<byte>)
    ensures Collapse(e + [CR] + [LF]) == Collapse(e) + HeldBack(e) + [LF]
    ensures BareLineFeeds(e + [CR] + [LF]) == BareLineFeeds(e)
  {
    hide Collapse, BareLineFeeds;
    CollapseAppend(e, CR);
    CollapseAppend(e + [CR], LF);
    BareAppend(e, CR);
    BareAppend(e + [CR], LF);
    assert HeldBack(e + [CR]) == [CR];
  }

  /** Receiving what was sent gives the file back, less a CR at its very end; no LF arrives bare. */
  lemma {:induction false} CollapseExpand(s: seq<byte>)
    ensures Collapse(Expand(s)) == DropFinalCr(s)
    ensures BareLineFeeds(Expand(s)) == {}
    decreases |s|
  {
    if s != [] {
      var front, c := s[..|s| - 1], s[|s| - 1];
      var e := Expand(front);
      assert s == front + [c];
      CollapseExpand(front);
      ExpandConcat(front, [c]);
      assert Expand([c]) == if c == LF then [CR, LF] else [c];
      ExpandLast(front);
      CollapseAppend(e, c);
      BareAppend(e, c);
      hide Collapse, BareLineFeeds, Expand;
      if c == LF {
        assert Expand(s) == (e + [CR]) + [LF];
        CollapseCrLf(e);
      } else {
        assert Expand(s) == e + [c];
      }
      assert DropFinalCr(front) + HeldBack(front) == front;
    }
  }

  /** The stored file is the original exactly when the original does not end in CR. */
  lemma RoundTripExact(s: seq<byte>)
    ensures Collapse(Expand(s)) == s <==> s == [] || s[|s| - 1] != CR
  {
    CollapseExpand(s);
  }

  // ------------------------------------------------------------- by position

  /** How many line feeds a text has. */
  function LineFeeds(s: seq<byte>): nat {
    if s == [] then 0 else LineFeeds(s[..|s| - 1]) + if s[|s| - 1] == '\n' as int then 1 else 0
  }

  /**
   What is sent, by position: every byte of the file in order, behind as many carriage returns as line feeds came
   before it, and a line feed behind one more.
   */
  lemma {:induction false} ExpandAt(s: seq<byte>, i: nat)
    ensures |Expand(s)| == |s| + LineFeeds(s)
    ensures i < |s| ==>
              var k := i + LineFeeds(s[..i]);
              if s[i] == '\n' as int then k + 1 < |Expand(s)| && Expand(s)[k] == '\r' as int && Expand(s)[k + 1] == '\n' as int
              else k < |Expand(s)| && Expand(s)[k] == s[i]
    decreases |s|
  {
    if s != [] {
      var n := |s| - 1;
      var front, last := s[..n], s[n..];
      assert s == front + last && last[1..] == [];
      ExpandConcat(front, last);
      assert Expand(last) == if s[n] == LF then [CR, LF] + [] else [s[n]] + [];
      ExpandAt(front, i);
      assert i < n ==> front[..i] == s[..i];
    }
  }

  /** A byte that the receiver keeps: any but a carriage return before a line feed or at the very end. */
  predicate Kept(s: seq<byte>, i: nat)
    requires i < |s|
  {
    s[i] != '\r' as int || (i + 1 < |s| && s[i + 1] != '\n' as int)
  }

  /** How many bytes of the text are kept from `i` on. */
  function KeptFrom(s: seq<byte>, i: nat): nat
    requires i <= |s|
    decreases |s| - i
  {
    if i == |s| then 0 else (if Kept(s, i) then 1 else 0) + KeptFrom(s, i + 1)
  }

  /** What is stored, by position: the bytes that are kept, in order. */
  lemma {:induction false} CollapseAt(s: seq<byte>, i: nat)
    requires i <= |s|
    ensures |Collapse(s[i..])| == KeptFrom(s, i)
    ensures i < |s| && Kept(s, i) ==> Collapse(s[i..]) == [s[i]] + Collapse(s[i + 1..])
    ensures i < |s| && !Kept(s, i) ==> Collapse(s[i..]) == Collapse(s[i + 1..])
    decreases |s| - i
  {
    if i < |s| {
      assert s[i..][0] == s[i] && s[i..][1..] == s[i + 1..] && (i + 1 < |s| ==> s[i..][1] == s[i + 1]);
      CollapseAt(s, i + 1);
    }
  }
}

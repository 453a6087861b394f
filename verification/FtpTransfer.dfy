/**
 The RETR and STOR transfer loops of the FTP daemon (command_retrieve and command_store in
 cpukit/ftpd/ftpd.c). What read and recv deliver is a list of non-empty chunks and how it ends;
 what send and write do with a buffer is up to the environment.
 */
module FtpTransfer {
  import opened Bytes
  import opened FtpText

  /** A descriptor written to. A call may take less than it is given; `failed` remembers that. */
  class Output {
    var taken: seq<byte>
    ghost var failed: bool

    constructor ()
      ensures taken == [] && !failed
    {
      taken, failed := [], false;
    }

    method Write(data: seq<byte>) returns (n: int)
      modifies this
      ensures -1 <= n <= |data|
      ensures taken == old(taken) + data[..if n < 0 then 0 else n]
      ensures failed <==> old(failed) || n != |data|
    {
      n :| -1 <= n <= |data|;
      taken := taken + data[..if n < 0 then 0 else n];
      failed := failed || n != |data|;
    }
  }

  /** How a run of read or recv calls ends: at the end of the data or with an error. */
  datatype End = Eof | Error

  datatype Mode = Ascii | Binary

  predicate NonEmptyChunks(chunks: seq<seq<byte>>) {
    forall i :: 0 <= i < |chunks| ==> chunks[i] != []
  }

  // ------------------------------------------------------------- RETR

  /** The bytes a file becomes on the data connection. */
  function OnTheWire(mode: Mode, file: seq<byte>): seq<byte> {
    if mode == Ascii then Expand(file) else file
  }

  /**
   The transfer part of RETR. It replies 226 exactly when every send was taken whole, the file was
   read to its end and closed; then the wire has seen the file in the representation of the mode.
   Otherwise the reply is 451 and the wire has seen a prefix of that.
   */
  method Retrieve(s: Output, mode: Mode, chunks: seq<seq<byte>>, end: End, closes: bool) returns (reply: nat)
    requires NonEmptyChunks(chunks) && !s.failed
    modifies s
    ensures reply == if !s.failed && end == Eof && closes then 226 else 451
    ensures !s.failed ==> s.taken == old(s.taken) + OnTheWire(mode, Flatten(chunks))
    ensures s.taken <= old(s.taken) + OnTheWire(mode, Flatten(chunks))
  {
    var n;
    if mode == Binary {
      n := RetrieveBinary(s, chunks, end);
    } else {
      n := RetrieveAscii(s, chunks, end);
    }
    reply := if n == 0 && closes then 226 else 451;
  }

  /** The loop of the binary branch; returns the last value read returned. */
  method RetrieveBinary(s: Output, chunks: seq<seq<byte>>, end: End) returns (n: int)
    requires NonEmptyChunks(chunks) && !s.failed
    modifies s
    ensures n == 0 <==> !s.failed && end == Eof
    ensures !s.failed ==> s.taken == old(s.taken) + Flatten(chunks)
    ensures s.taken <= old(s.taken) + Flatten(chunks)
  {
    var next := 0;
    n := -1;
    ghost var done: seq<byte> := [];
    while true
      invariant 0 <= next <= |chunks| && !s.failed
      invariant s.taken == old(s.taken) + done && done + Flatten(chunks[next..]) == Flatten(chunks)
      decreases |chunks| - next
    {
      if next == |chunks| {
        n := if end == Eof then 0 else -1;
        assert done + [] == done;
        return;
      }
      var buf := chunks[next];
      ghost var tail := Flatten(chunks[next + 1..]);
      assert chunks[next..][1..] == chunks[next + 1..];
      n := |buf|;
      next := next + 1;
      var k := s.Write(buf);
      SentBuffer(old(s.taken), done, buf, tail, if k < 0 then 0 else k);
      if k != n {
        return;
      }
      done := done + buf;
    }
  }

  lemma SentBuffer(before: seq<byte>, done: seq<byte>, buf: seq<byte>, tail: seq<byte>, k: nat)
    requires k <= |buf|
    ensures before + done + buf == before + (done + buf)
    ensures (done + buf) + tail == done + (buf + tail)
    ensures before + done + buf[..k] <= before + (done + (buf + tail))
  {
  }

  /** The loop of the ASCII branch; returns the last value read returned. */
  method RetrieveAscii(s: Output, chunks: seq<seq<byte>>, end: End) returns (n: int)
    requires NonEmptyChunks(chunks) && !s.failed
    modifies s
    ensures n == 0 <==> !s.failed && end == Eof
    ensures !s.failed ==> s.taken == old(s.taken) + Expand(Flatten(chunks))
    ensures s.taken <= old(s.taken) + Expand(Flatten(chunks))
  {
    var next, rest := 0, 0;
    n := -1;
    ghost var done: seq<byte> := [];
    while rest == 0
      invariant 0 <= next <= |chunks| && (rest == 0 <==> !s.failed) && (rest != 0 ==> n != 0)
      invariant done + Flatten(chunks[next..]) == Flatten(chunks)
      invariant s.taken <= old(s.taken) + Expand(done)
      invariant rest == 0 ==> s.taken == old(s.taken) + Expand(done)
      decreases |chunks| - next, rest == 0
    {
      if next == |chunks| {
        n := if end == Eof then 0 else -1;
        assert done + [] == done;
        return;
      }
      var buf := chunks[next];
      assert chunks[next..][1..] == chunks[next + 1..];
      assert done + (buf + Flatten(chunks[next + 1..])) == (done + buf) + Flatten(chunks[next + 1..]);
      n := |buf|;
      next := next + 1;
      rest := SendExpanded(s, old(s.taken), buf, done);
      done := done + buf;
    }
    ExpandConcat(done, Flatten(chunks[next..]));
    PrefixPart(old(s.taken), Expand(done), |Expand(done)|, Expand(Flatten(chunks[next..])));
  }

  lemma PrefixPart(before: seq<byte>, piece: seq<byte>, k: nat, tail: seq<byte>)
    requires k <= |piece|
    ensures before + piece[..k] <= before + piece + tail
  {
  }

  predicate IsPrefix(a: seq<byte>, b: seq<byte>) {
    a <= b
  }

  lemma PrefixOfItself(a: seq<byte>)
    ensures IsPrefix(a, a)
  {
  }

  /** The inner loops of the ASCII branch, on one buffer. Returns what is left of `rest`. */
  method SendExpanded(s: Output, ghost before: seq<byte>, buf: seq<byte>, ghost done: seq<byte>) returns (rest: nat)
    requires buf != [] && !s.failed && s.taken == before + Expand(done)
    modifies s
    ensures rest == 0 <==> !s.failed
    ensures rest == 0 ==> s.taken == before + Expand(done + buf)
    ensures IsPrefix(s.taken, before + Expand(done + buf))
  {
    hide Expand, IsPrefix;
    var e := 0;
    rest := |buf|;
    assert done + buf[..0] == done;
    while true
      invariant 0 <= e && e + rest == |buf| && rest > 0 && !s.failed
      invariant s.taken == before + Expand(done + buf[..e])
      decreases rest
    {
      var b := e;
      var lf, i := ScanToLf(buf, b);
      e := b + i;
      var k := s.Write(buf[b..e]);
      SentPiece(before, done, buf, b, e, if k < 0 then 0 else k);
      if k != i {
        break;
      }
      assert s.taken == before + Expand(done + buf[..e]);
      if lf {
        var k2 := s.Write([CR, LF]);
        SentLf(before, done, buf, e, if k2 < 0 then 0 else k2);
        if k2 != 2 {
          break;
        }
        i, e := i + 1, e + 1;
      }
      rest := rest - i;
      if rest <= 0 {
        assert done + buf[..e] == done + buf;
        assert s.taken == before + Expand(done + buf);
        PrefixOfItself(s.taken);
        break;
      }
    }
  }

  /** The length of the stretch from `b` to the next LF or the end. */
  method ScanToLf(buf: seq<byte>, b: nat) returns (lf: bool, i: nat)
    requires b < |buf|
    ensures b + i <= |buf| && LF !in buf[b..b + i]
    ensures if lf then b + i < |buf| && buf[b + i] == LF else b + i == |buf|
  {
    lf, i := false, 0;
    while b + i < |buf|
      invariant b + i <= |buf| && LF !in buf[b..b + i]
    {
      if buf[b + i] == LF {
        lf := true;
        return;
      }
      i := i + 1;
    }
  }

  lemma SentPiece(before: seq<byte>, done: seq<byte>, buf: seq<byte>, b: nat, e: nat, k: nat)
    requires b <= e <= |buf| && LF !in buf[b..e] && k <= e - b
    ensures before + Expand(done + buf[..b]) + buf[b..e] == before + Expand(done + buf[..e])
    ensures IsPrefix(before + Expand(done + buf[..b]) + buf[b..e][..k], before + Expand(done + buf))
  {
    hide Expand;
    var sent, piece := done + buf[..b], buf[b..e];
    assert done + buf[..e] == sent + piece;
    ExpandConcat(sent, piece);
    ExpandPlain(piece);
    assert done + buf == (sent + piece) + buf[e..];
    ExpandConcat(sent + piece, buf[e..]);
    PrefixPart(before + Expand(sent), piece, k, Expand(buf[e..]));
    assert before + Expand(sent) + piece + Expand(buf[e..]) == before + Expand(done + buf);
  }

  lemma SentLf(before: seq<byte>, done: seq<byte>, buf: seq<byte>, e: nat, k: nat)
    requires e < |buf| && buf[e] == LF && k <= 2
    ensures before + Expand(done + buf[..e]) + [CR, LF] == before + Expand(done + buf[..e + 1])
    ensures IsPrefix(before + Expand(done + buf[..e]) + [CR, LF][..k], before + Expand(done + buf))
  {
    var sent := done + buf[..e];
    assert done + buf[..e + 1] == sent + [LF];
    ExpandConcat(sent, [LF]);
    assert Expand([LF]) == [CR, LF] + Expand([]);
    assert done + buf == (sent + [LF]) + buf[e + 1..];
    ExpandConcat(sent + [LF], buf[e + 1..]);
    PrefixPart(before + Expand(sent), [CR, LF], k, Expand(buf[e + 1..]));
    assert before + Expand(sent) + [CR, LF] + Expand(buf[e + 1..]) == before + Expand(done + buf);
  }

  // ------------------------------------------------------------- STOR

  /** What the receiver must put in the file. */
  function OnTheDisk(mode: Mode, stream: seq<byte>): seq<byte> {
    if mode == Ascii then Collapse(stream) else stream
  }

  /**
   The transfer part of STOR to a file. It replies 226 exactly when every write was taken whole and
   the file was closed, whether recv ended with end of stream or an error, and 452 otherwise. With
   226 the file holds the received stream, in ASCII mode with CR LF collapsed and a final CR
   dropped, and the reply warns of the line feeds that came without a CR; otherwise it holds a
   prefix of that.
   */
  method Store(fd: Output, mode: Mode, chunks: seq<seq<byte>>, closes: bool) returns (reply: nat, bareLfs: nat)
    requires NonEmptyChunks(chunks) && !fd.failed
    modifies fd
    ensures reply == if !fd.failed && closes then 226 else 452
    ensures !fd.failed ==> fd.taken == old(fd.taken) + OnTheDisk(mode, Flatten(chunks))
    ensures IsPrefix(fd.taken, old(fd.taken) + OnTheDisk(mode, Flatten(chunks)))
    ensures reply == 226 ==> bareLfs == if mode == Ascii then |BareLineFeeds(Flatten(chunks))| else 0
  {
    var res;
    bareLfs := 0;
    if mode == Binary {
      res := StoreBinary(fd, chunks);
    } else {
      res, bareLfs := StoreAscii(fd, chunks);
      ReceiverMeaning(Flatten(chunks));
    }
    reply := if !closes || !res then 452 else 226;
  }

  method StoreBinary(fd: Output, chunks: seq<seq<byte>>) returns (res: bool)
    requires NonEmptyChunks(chunks) && !fd.failed
    modifies fd
    ensures res == !fd.failed
    ensures res ==> fd.taken == old(fd.taken) + Flatten(chunks)
    ensures IsPrefix(fd.taken, old(fd.taken) + Flatten(chunks))
  {
    var next := 0;
    res := true;
    ghost var done: seq<byte> := [];
    while next < |chunks|
      invariant 0 <= next <= |chunks| && res == !fd.failed && res
      invariant fd.taken == old(fd.taken) + done && done + Flatten(chunks[next..]) == Flatten(chunks)
    {
      var buf := chunks[next];
      ghost var tail := Flatten(chunks[next + 1..]);
      assert chunks[next..][1..] == chunks[next + 1..];
      next := next + 1;
      var k := fd.Write(buf);
      SentBuffer(old(fd.taken), done, buf, tail, if k < 0 then 0 else k);
      if k != |buf| {
        res := false;
        return;
      }
      done := done + buf;
    }
    assert done + [] == done;
  }

  /** What the loop of the ASCII branch has done: `r` is the transducer's state after the stream so far. */
  ghost predicate Stored(fd: Output, before: seq<byte>, r: Receiver, pendedCr: bool, bareLfs: nat)
    reads fd
  {
    fd.taken == before + r.out && pendedCr == r.pending && bareLfs == r.bare
  }

  method StoreAscii(fd: Output, chunks: seq<seq<byte>>) returns (res: bool, bareLfs: nat)
    requires NonEmptyChunks(chunks) && !fd.failed
    modifies fd
    ensures res == !fd.failed
    ensures res ==> fd.taken == old(fd.taken) + FeedAll(START, Flatten(chunks)).out
    ensures res ==> bareLfs == FeedAll(START, Flatten(chunks)).bare
    ensures IsPrefix(fd.taken, old(fd.taken) + FeedAll(START, Flatten(chunks)).out)
  {
    hide FeedAll, IsPrefix;
    FeedAllEmpty(START);
    var next, pendedCr := 0, false;
    res, bareLfs := true, 0;
    ghost var done: seq<byte> := [];
    assert fd.taken + START.out == fd.taken;
    PrefixOfItself(fd.taken);
    while res && next < |chunks|
      invariant 0 <= next <= |chunks| && res == !fd.failed
      invariant done + Flatten(chunks[next..]) == Flatten(chunks)
      invariant res ==> Stored(fd, old(fd.taken), FeedAll(START, done), pendedCr, bareLfs)
      invariant IsPrefix(fd.taken, old(fd.taken) + FeedAll(START, done).out)
      decreases |chunks| - next
    {
      var buf := chunks[next];
      assert chunks[next..][1..] == chunks[next + 1..];
      assert done + (buf + Flatten(chunks[next + 1..])) == (done + buf) + Flatten(chunks[next + 1..]);
      next := next + 1;
      res, pendedCr, bareLfs := StoreBuffer(fd, old(fd.taken), FeedAll(START, done), buf, pendedCr, bareLfs);
      FeedAllConcat(START, done, buf);
      done := done + buf;
    }
    if res {
      assert done + [] == done;
    }
    FeedAllConcat(START, done, Flatten(chunks[next..]));
    PrefixOfMore(fd.taken, old(fd.taken), FeedAll(START, done), Flatten(chunks[next..]));
  }

  /** One received buffer of the ASCII branch. */
  method StoreBuffer(fd: Output, ghost before: seq<byte>, ghost r: Receiver, buf: seq<byte>, pended: bool, bare: nat)
      returns (res: bool, pendedCr: bool, bareLfs: nat)
    requires buf != [] && !fd.failed && Stored(fd, before, r, pended, bare)
    modifies fd
    ensures res == !fd.failed
    ensures res ==> Stored(fd, before, FeedAll(r, buf), pendedCr, bareLfs)
    ensures IsPrefix(fd.taken, before + FeedAll(r, buf).out)
  {
    hide FeedAll, IsPrefix;
    PrefixOfItself(fd.taken);
    PrefixOfMore(fd.taken, before, r, buf);
    res, pendedCr, bareLfs := true, pended, bare;
    var e, rest := 0, |buf|;
    // The transducer after buf[..e], counting a CR flushed ahead of time as already output.
    ghost var now := r;
    if pendedCr && buf[0] != LF {
      pendedCr := false;
      var k := fd.Write([CR]);
      now := Receiver(r.out + [CR], false, r.bare);
      PrefixOfAppended(before, r.out, [CR], if k < 0 then 0 else k);
      FlushedEarly(r, buf);
      PrefixOfMore(fd.taken, before, now, buf);
      if k != 1 {
        res := false;
        return;
      }
    }
    assert buf[0..] == buf;
    while true
      invariant 0 <= e && e + rest == |buf| && rest > 0 && res == !fd.failed
      invariant FeedAll(now, buf[e..]) == FeedAll(r, buf)
      invariant pendedCr == now.pending && bareLfs == now.bare && (pendedCr ==> buf[e] == LF)
      invariant res ==> fd.taken == before + now.out
      invariant IsPrefix(fd.taken, before + FeedAll(r, buf).out)
      decreases rest
    {
      var b, i, sub := e, 0, 0;
      ghost var seg;
      i, sub, pendedCr, bareLfs, seg := ScanSegment(buf, b, pendedCr, bareLfs, now);
      e := e + i;
      if !res {
        break;
      }
      var count := i as int - sub as int - (if pendedCr then 1 else 0);
      ghost var stretch := Written(buf, b, count);
      var ok: bool;
      ghost var n: nat;
      ok, n := WriteStretch(fd, buf, b, count);
      PrefixOfAppended(before, now.out, stretch, n);
      PrefixOfAppended(before, now.out + stretch, if sub == 2 then [LF] else [], 0);
      PrefixTransitive(fd.taken, before + (now.out + stretch), before + seg.out);
      PrefixOfMore(fd.taken, before, seg, buf[e..]);
      if !ok {
        res := false;
        break;
      }
      if sub == 2 {
        var k := fd.Write([buf[e - 1]]);
        PrefixOfAppended(before, now.out + stretch, [LF], if k < 0 then 0 else k);
        PrefixOfMore(fd.taken, before, seg, buf[e..]);
        if k != 1 {
          res := false;
        }
      }
      now := seg;
      rest := rest - i;
      if rest <= 0 {
        assert buf[e..] == [];
        FeedAllEmpty(now);
        break;
      }
    }
  }

  method WriteStretch(fd: Output, buf: seq<byte>, b: nat, count: int) returns (res: bool, ghost n: nat)
    requires b <= |buf| && b + count <= |buf| && !fd.failed
    modifies fd
    ensures res == !fd.failed
    ensures n <= |Written(buf, b, count)| && (res <==> n == |Written(buf, b, count)|)
    ensures fd.taken == old(fd.taken) + Written(buf, b, count)[..n]
  {
    res, n := true, 0;
    if count > 0 {
      var k := fd.Write(buf[b..b + count]);
      n := if k < 0 then 0 else k;
      if k != count {
        res := false;
      }
    }
  }

  lemma {:induction false} FeedAllGrows(r: Receiver, s: seq<byte>)
    ensures r.out <= FeedAll(r, s).out
    decreases |s|
  {
    if s != [] {
      FeedAllGrows(r, s[..|s| - 1]);
    }
  }

  lemma PrefixOfMore(taken: seq<byte>, before: seq<byte>, r: Receiver, s: seq<byte>)
    requires IsPrefix(taken, before + r.out)
    ensures IsPrefix(taken, before + FeedAll(r, s).out)
  {
    FeedAllGrows(r, s);
    hide FeedAll;
  }

  lemma PrefixOfAppended(before: seq<byte>, out: seq<byte>, piece: seq<byte>, k: nat)
    requires k <= |piece|
    ensures before + out + piece == before + (out + piece)
    ensures IsPrefix(before + out + piece[..k], before + (out + piece))
    ensures IsPrefix(before + out, before + (out + piece))
    ensures k == |piece| ==> piece[..k] == piece
  {
  }

  lemma PrefixTransitive(a: seq<byte>, b: seq<byte>, c: seq<byte>)
    ensures IsPrefix(a, b) && IsPrefix(b, c) ==> IsPrefix(a, c)
  {
  }

  lemma FeedAllEmpty(r: Receiver)
    ensures FeedAll(r, []) == r
  {
  }

  /**
   The scan for the next CR LF from `b`. It consumes `i` characters; all but the last `sub` of them
   and a CR held back are output as they stand, and after `sub` == 2 a lone LF.
   */
  method ScanSegment(buf: seq<byte>, b: nat, pended: bool, bare: nat, ghost now: Receiver)
      returns (i: nat, sub: nat, pendedCr: bool, bareLfs: nat, ghost seg: Receiver)
    requires b < |buf|
    requires pended == now.pending && bare == now.bare && (pended ==> buf[b] == LF)
    ensures 0 < i <= |buf| - b && (sub == 0 || sub == 2) && (sub == 0 ==> i == |buf| - b)
    ensures FeedAll(seg, buf[b + i..]) == FeedAll(now, buf[b..])
    ensures pendedCr == seg.pending && bareLfs == seg.bare
    ensures sub == 2 ==> buf[b + i - 1] == LF && !pendedCr
    ensures seg.out == now.out + Written(buf, b, i - sub - (if pendedCr then 1 else 0)) + (if sub == 2 then [LF] else [])
  {
    hide FeedAll, Segment;
    i, sub, pendedCr, bareLfs, seg := 0, 0, pended, bare, now;
    var e := b;
    while e < |buf|
      invariant b <= e == b + i <= |buf| && sub == 0
      invariant FeedAll(seg, buf[e..]) == FeedAll(now, buf[b..])
      invariant pendedCr == seg.pending && bareLfs == seg.bare
      invariant i == 0 ==> seg == now
      invariant i > 0 ==> !now.pending && Segment(now, seg, buf[b..e])
    {
      var pcr := pendedCr;
      pendedCr := false;
      FeedAllFirst(seg, buf[e..]);
      assert buf[e..][1..] == buf[e + 1..];
      if buf[e] == CR {
        pendedCr := true;
      } else if buf[e] == LF {
        if pcr {
          CrLfEndsSegment(now, seg, buf, b, e);
          sub := 2;
          seg := Feed(seg, LF);
          i, e := i + 1, e + 1;
          return;
        }
        bareLfs := bareLfs + 1;
      }
      SegmentStep(now, seg, buf[b..e], buf[e]);
      assert buf[b..e] + [buf[e]] == buf[b..e + 1];
      seg := Feed(seg, buf[e]);
      i, e := i + 1, e + 1;
    }
    assert buf[b..e] == buf[b..];
    BufferEndsSegment(now, seg, buf, b);
  }

  /** The `count` characters from `b`, none if `count` is not positive. */
  function Written(buf: seq<byte>, b: nat, count: int): seq<byte>
    requires b <= |buf| && b + count <= |buf|
  {
    if count > 0 then buf[b..b + count] else []
  }

  lemma CrLfEndsSegment(now: Receiver, seg: Receiver, buf: seq<byte>, b: nat, e: nat)
    requires b <= e < |buf| && seg.pending
    requires (b == e && seg == now) || (b < e && Segment(now, seg, buf[b..e]))
    ensures seg.out + [LF] == now.out + Written(buf, b, e - b - 1) + [LF]
  {
    if b < e {
      assert buf[b..e][..e - b - 1] == buf[b..e - 1];
    }
  }

  lemma BufferEndsSegment(now: Receiver, seg: Receiver, buf: seq<byte>, b: nat)
    requires b < |buf| && Segment(now, seg, buf[b..])
    ensures seg.out == now.out + Written(buf, b, |buf| - b - (if seg.pending then 1 else 0)) + []
  {
    var piece := buf[b..];
    var count := |piece| - (if seg.pending then 1 else 0);
    assert piece[..count] == buf[b..b + count];
  }

  /** Within a stretch that meets no CR LF, the output is the stretch itself, less a CR held back. */
  predicate Segment(start: Receiver, now: Receiver, piece: seq<byte>) {
    now.out == start.out + piece[..|piece| - |HeldBack(piece)|] && now.pending == (HeldBack(piece) != [])
  }

  lemma SegmentStep(start: Receiver, now: Receiver, piece: seq<byte>, c: byte)
    requires (piece == [] && start == now) || (!start.pending && Segment(start, now, piece))
    requires !(now.pending && c == LF) && !start.pending
    ensures Segment(start, Feed(now, c), piece + [c])
  {
  }

  lemma {:induction false} FeedAllFirst(r: Receiver, s: seq<byte>)
    requires s != []
    ensures FeedAll(r, s) == FeedAll(Feed(r, s[0]), s[1..])
  {
    FeedAllConcat(r, [s[0]], s[1..]);
    assert [s[0]] + s[1..] == s;
    assert FeedAll(r, [s[0]]) == Feed(FeedAll(r, []), s[0]);
  }

  /** Writing a held-back CR before a character other than LF is what the transducer does. */
  lemma FlushedEarly(r: Receiver, buf: seq<byte>)
    requires buf != [] && r.pending && buf[0] != LF
    ensures FeedAll(Receiver(r.out + [CR], false, r.bare), buf) == FeedAll(r, buf)
  {
    FeedAllFirst(r, buf);
    FeedAllFirst(Receiver(r.out + [CR], false, r.bare), buf);
    assert r.out + [CR] + [buf[0]] == r.out + [CR, buf[0]];
  }

  // ------------------------------------------------------------- RETR then STOR

  /**
   A file sent by RETR in ASCII mode and stored by STOR in ASCII mode, cut into buffers
   independently on both sides, comes back as it was, less a CR at its very end, and without a
   warning.
   */
  lemma RoundTrip(file: seq<seq<byte>>, received: seq<seq<byte>>)
    requires Flatten(received) == OnTheWire(Ascii, Flatten(file))
    ensures OnTheDisk(Ascii, Flatten(received)) == DropFinalCr(Flatten(file))
    ensures |BareLineFeeds(Flatten(received))| == 0
  {
    CollapseExpand(Flatten(file));
  }

  /** In binary mode the file arrives and is stored as it is, whatever the chunks. */
  lemma BinaryRoundTrip(file: seq<seq<byte>>, received: seq<seq<byte>>)
    requires Flatten(received) == OnTheWire(Binary, Flatten(file))
    ensures Flatten(received) == Flatten(file) && OnTheDisk(Binary, Flatten(received)) == Flatten(file)
  {
  }

  /** The two transfers run one after the other on a fresh connection and a fresh file. */
  method SendAndStore(conn: Output, fd: Output, file: seq<seq<byte>>, received: seq<seq<byte>>, end: End,
                      closes: bool, closes': bool) returns (sent: nat, stored: nat, bareLfs: nat)
    requires conn != fd && !conn.failed && !fd.failed && conn.taken == [] && fd.taken == []
    requires NonEmptyChunks(file) && NonEmptyChunks(received)
    modifies conn, fd
    ensures sent == 226 && stored == 226 && Flatten(received) == conn.taken ==>
              fd.taken == DropFinalCr(Flatten(file)) && bareLfs == 0
  {
    sent := Retrieve(conn, Ascii, file, end, closes);
    stored, bareLfs := Store(fd, Ascii, received, closes');
    if sent == 226 && Flatten(received) == conn.taken {
      assert [] + OnTheWire(Ascii, Flatten(file)) == OnTheWire(Ascii, Flatten(file));
      RoundTrip(file, received);
      assert [] + OnTheDisk(Ascii, Flatten(received)) == OnTheDisk(Ascii, Flatten(received));
    }
  }
}

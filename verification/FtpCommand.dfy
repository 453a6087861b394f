/**
 The FTP command splitter (split_command and skip_options in cpukit/ftpd/ftpd.c): it cuts a
 NUL-terminated line into command, options and arguments by writing NULs into it.
 */
module FtpCommand {
  import opened Bytes

  const NUL: byte := 0

  function ToUpper(c: byte): byte {
    if 97 <= c <= 122 then c - 32 else c
  }

  // ------------------------------------------------------------- the tokenizer

  function Word(t: seq<byte>): (n: nat)
    ensures n <= |t|
  {
    if t == [] || IsSpace(t[0]) then 0 else 1 + Word(t[1..])
  }

  function Line(t: seq<byte>): (n: nat)
    ensures n <= |t|
  {
    if t == [] || t[0] == CR || t[0] == LF then 0 else 1 + Line(t[1..])
  }

  function Upper(t: seq<byte>): (u: seq<byte>)
    ensures |u| == |t| && forall i :: 0 <= i < |t| ==> u[i] == ToUpper(t[i])
  {
    seq(|t|, i requires 0 <= i < |t| => ToUpper(t[i]))
  }

  /** The leading options of a text: how far they reach, and where the arguments start. */
  datatype Options = Options(end: nat, args: nat)

  predicate EndsOptions(word: seq<byte>) {
    word == [MINUS, MINUS]
  }

  /** The first word is an option. */
  predicate StartsOption(t: seq<byte>) {
    Spaces(t) < |t| && t[Spaces(t)] == MINUS
  }

  /** Where the first word, an option, ends. */
  function OptionEnd(t: seq<byte>): (n: nat)
    requires StartsOption(t)
    ensures Spaces(t) < n <= |t|
  {
    var w := Spaces(t);
    WordNonempty(t[w..]);
    w + Word(t[w..])
  }

  /** Words that start with a minus are options, up to and including a word "--". */
  function ScanOptions(t: seq<byte>): (o: Options)
    ensures o.end <= o.args <= |t|
  {
    if !StartsOption(t) then Options(0, Spaces(t))
    else
      var n := OptionEnd(t);
      if EndsOptions(t[Spaces(t)..n]) then Options(n, n + Spaces(t[n..]))
      else Behind(n, ScanOptions(t[n..]))
  }

  /** The options of a text whose first option word ends at `n`, given the options behind it. */
  function Behind(n: nat, o: Options): Options {
    Options(if o.end == 0 then n else n + o.end, n + o.args)
  }

  datatype Tokens = Tokens(cmd: seq<byte>, opts: seq<byte>, args: seq<byte>)

  function Tokenize(t: seq<byte>): Tokens {
    var a := Spaces(t);
    var eoc := a + Word(t[a..]);
    var rest := t[eoc + Spaces(t[eoc..])..];
    var o := ScanOptions(rest);
    var args := rest[o.args..];
    Tokens(Upper(t[a..eoc]), rest[..o.end], args[..Line(args)])
  }

  lemma WordNonempty(t: seq<byte>)
    requires t != [] && !IsSpace(t[0])
    ensures Word(t) >= 1
  {
  }

  // ------------------------------------------------------------- C strings

  /** The string at `i`: up to the next NUL. */
  function CString(s: seq<byte>, i: nat): seq<byte>
    decreases |s| - i
  {
    if i >= |s| || s[i] == NUL then [] else [s[i]] + CString(s, i + 1)
  }

  lemma {:induction false} CStringIs(s: seq<byte>, i: nat, j: nat)
    requires i <= j < |s| && s[j] == NUL && NUL !in s[i..j]
    ensures CString(s, i) == s[i..j]
    decreases j - i
  {
    if i < j {
      assert s[i] == s[i..j][0];
      assert s[i + 1..j] == s[i..j][1..];
      CStringIs(s, i + 1, j);
    }
  }

  // ------------------------------------------------------------- scanning

  /** From `p` on, `buf` holds the text `t` and a NUL behind it. */
  ghost predicate Terminated(buf: array<byte>, t: seq<byte>, p: nat)
    reads buf
  {
    && p <= |t| < buf.Length && buf[|t|] == NUL
    && forall i :: p <= i < |t| ==> buf[i] == t[i] != NUL
  }

  method SkipSpaces(buf: array<byte>, p: nat, ghost t: seq<byte>) returns (q: nat)
    requires Terminated(buf, t, p)
    ensures q == p + Spaces(t[p..]) && q <= |t|
    ensures q < |t| ==> !IsSpace(t[q])
  {
    q := p;
    while IsSpace(buf[q])
      invariant p <= q <= |t| && q + Spaces(t[q..]) == p + Spaces(t[p..])
      decreases |t| - q
    {
      assert buf[q] == t[q] && t[q..][1..] == t[q + 1..];
      q := q + 1;
    }
    if q < |t| {
      assert buf[q] == t[q];
    }
  }

  method SkipWord(buf: array<byte>, p: nat, ghost t: seq<byte>) returns (q: nat)
    requires Terminated(buf, t, p)
    ensures q == p + Word(t[p..]) && q <= |t|
    ensures q < |t| ==> IsSpace(t[q])
  {
    q := p;
    while buf[q] != NUL && !IsSpace(buf[q])
      invariant p <= q <= |t| && q + Word(t[q..]) == p + Word(t[p..])
      decreases |t| - q
    {
      assert buf[q] == t[q] && t[q..][1..] == t[q + 1..];
      q := q + 1;
    }
  }

  lemma WordSplit(t: seq<byte>, k: nat)
    requires k <= |t| && forall i :: 0 <= i < k ==> !IsSpace(t[i])
    ensures Word(t) == k + Word(t[k..])
  {
    if k > 0 {
      WordSplit(t[1..], k - 1);
      assert t[1..][k - 1..] == t[k..];
    }
  }

  /**
   One word that starts with a minus, from `word`: `end` is where it ends; after a word "--" that
   something follows, `done` is set and `q` is past the spaces behind it, else `q` is `end`.
   */
  method SkipOption(buf: array<byte>, word: nat, ghost t: seq<byte>) returns (q: nat, end: nat, done: bool)
    requires Terminated(buf, t, word) && word < |t| && t[word] == MINUS
    ensures end == word + Word(t[word..]) && word < end <= q <= |t|
    ensures done ==> t[word..end] == [MINUS, MINUS] && q == end + Spaces(t[end..])
    ensures !done ==> q == end && (t[word..end] == [MINUS, MINUS] ==> end == |t|)
  {
    done := false;
    q := word + 1;
    if buf[q] == MINUS {
      assert q < |t| && t[q] == MINUS;
      q := q + 1;
      WordSplit(t[word..], 2);
      assert t[word..][2..] == t[q..];
      if IsSpace(buf[q]) {
        assert q < |t| && buf[q] == t[q];
        end, done := q, true;
        q := SkipSpaces(buf, q, t);
        return;
      }
    } else {
      WordSplit(t[word..], 1);
      assert t[word..][1..] == t[q..];
      assert q < |t| ==> buf[q] == t[q];
    }
    var from := q;
    q := SkipWord(buf, q, t);
    end := q;
    if t[word..end] == [MINUS, MINUS] {
      assert t[word..end][1] == t[word + 1];
      assert end == from;
    }
  }

  /**
   skip_options: returns the start of the arguments and ends the options with a NUL, which lands
   before the arguments or on the terminator.
   */
  method SkipOptions(buf: array<byte>, p: nat, ghost t: seq<byte>) returns (q: nat)
    requires Terminated(buf, t, p)
    modifies buf
    ensures q == p + ScanOptions(t[p..]).args && q <= |t|
    ensures var end := ScanOptions(t[p..]).end;
            buf[..] == if end == 0 then old(buf[..]) else old(buf[..])[p + end := NUL]
  {
    hide ScanOptions, Spaces, Word, IsSpace, Continue;
    q := p;
    var last := -1;
    ghost var whole := ScanOptions(t[p..]);
    ContinueStart(p, whole);
    while true
      invariant p <= q <= |t| && buf[..] == old(buf[..])
      invariant -1 <= last <= |t| && (last != -1 ==> p < last)
      invariant whole == Continue(last, p, q, ScanOptions(t[q..]))
      decreases |t| - q
    {
      ghost var start := q;
      q := SkipSpaces(buf, q, t);
      if buf[q] != MINUS {
        assert q < |t| ==> buf[q] == t[q];
        NoOption(t, start, q);
        ContinueStep(whole, last, p, start, start + 1, ScanOptions(t[start..]), ScanOptions(t[start..]));
        break;
      }
      assert q < |t| && buf[q] == t[q];
      ghost var word := q;
      OptionWord(t, start, word);
      var end, done;
      q, end, done := SkipOption(buf, q, t);
      ContinueStep(whole, last, p, start, end, ScanOptions(t[start..]), ScanOptions(t[end..]));
      last := end;
      if done {
        break;
      }
    }
    if last != -1 {
      buf[last] := NUL;
    }
  }

  /** The options of a text, given the end of the last one seen and those still ahead of `q`. */
  function Continue(last: int, p: nat, q: nat, ahead: Options): Options
    requires p <= q && (last == -1 || p < last)
  {
    Options(if ahead.end != 0 then q - p + ahead.end else if last == -1 then 0 else last - p, q - p + ahead.args)
  }

  lemma ContinueStart(p: nat, o: Options)
    ensures Continue(-1, p, p, o) == o
  {
  }

  lemma ContinueStep(whole: Options, last: int, p: nat, start: nat, end: nat, here: Options, ahead: Options)
    requires p <= start < end && (last == -1 || p < last) && whole == Continue(last, p, start, here)
    ensures here == Continue(end, start, end, ahead) ==> whole == Continue(end, p, end, ahead)
    ensures here.end == end - start ==> whole == Options(end - p, start - p + here.args)
    ensures here.end == 0 ==> whole == Options(if last == -1 then 0 else last - p, start - p + here.args)
  {
  }

  lemma {:induction false} NoOption(t: seq<byte>, start: nat, q: nat)
    requires start <= q <= |t| && q == start + Spaces(t[start..]) && (q == |t| || t[q] != MINUS)
    ensures ScanOptions(t[start..]) == Options(0, q - start)
  {
    hide Spaces, Word, IsSpace;
    assert q < |t| ==> t[start..][q - start] == t[q];
  }

  /** An option word ends the options if it is "--"; at the very end of the text that makes no difference. */
  lemma {:induction false} OptionWord(t: seq<byte>, start: nat, q: nat)
    requires start <= q < |t| && q == start + Spaces(t[start..]) && t[q] == MINUS
    ensures var end := q + Word(t[q..]);
            end > q
            && (t[q..end] == [MINUS, MINUS] ==>
                  ScanOptions(t[start..]) == Options(end - start, end - start + Spaces(t[end..])))
            && (t[q..end] != [MINUS, MINUS] || end == |t| ==>
                  ScanOptions(t[start..]) == Continue(end, start, end, ScanOptions(t[end..])))
  {
    hide ScanOptions, Spaces, Word, IsSpace;
    var u, w, k := t[start..], q - start, Word(t[q..]);
    assert u[w..] == t[q..];
    assert u[w..w + k] == t[q..q + k] && u[w + k..] == t[q + k..];
    OptionAt(u, w, k);
    if q + k == |t| {
      EndOfText(t[q + k..]);
    }
  }

  lemma {:induction false} OptionAt(t: seq<byte>, w: nat, k: nat)
    requires w == Spaces(t) < |t| && t[w] == MINUS && k == Word(t[w..])
    ensures k >= 1
    ensures ScanOptions(t) == if EndsOptions(t[w..w + k]) then Options(w + k, w + k + Spaces(t[w + k..]))
                              else Behind(w + k, ScanOptions(t[w + k..]))
  {
    hide *;
    OptionEndsAt(t, w, k);
    OptionStep(t);
  }

  lemma OptionEndsAt(t: seq<byte>, w: nat, k: nat)
    requires w == Spaces(t) < |t| && t[w] == MINUS && k == Word(t[w..])
    ensures StartsOption(t) && OptionEnd(t) == w + k && k >= 1
  {
    WordNonempty(t[w..]);
    hide Spaces, Word;
  }

  lemma {:induction false} OptionStep(t: seq<byte>)
    requires StartsOption(t)
    ensures var n := OptionEnd(t);
            ScanOptions(t) == if EndsOptions(t[Spaces(t)..n]) then Options(n, n + Spaces(t[n..])) else Behind(n, ScanOptions(t[n..]))
  {
    hide Spaces, Behind, EndsOptions, OptionEnd, StartsOption;
  }

  lemma EndOfText(t: seq<byte>)
    requires t == []
    ensures Spaces(t) == 0 && ScanOptions(t) == Options(0, 0)
  {
  }

  // ------------------------------------------------------------- split_command

  /** The text `t` in the buffer, the command in upper case with a NUL behind it. */
  ghost predicate CommandCut(t: seq<byte>, before: seq<byte>, cut: seq<byte>, cmd: nat, eoc: nat, rest: nat) {
    && |t| < |before| == |cut| && NUL !in t && before[|t|] == NUL
    && cmd == Spaces(t) && eoc == cmd + Word(t[cmd..]) <= |t| && rest == eoc + Spaces(t[eoc..]) <= |t|
    && cut[eoc] == NUL && (forall i :: eoc < i < |cut| ==> cut[i] == before[i])
    && (forall i :: rest <= i < |t| && i != eoc ==> before[i] == t[i])
    && (forall i :: cmd <= i < eoc ==> cut[i] == ToUpper(t[i]))
    && (rest == eoc ==> eoc == |t|)
  }

  /** Then the NUL behind the options, if there are any, and the one behind the arguments. */
  ghost predicate LineCut(t: seq<byte>, cut: seq<byte>, after: seq<byte>, eoc: nat, rest: nat, args: nat, opts: nat)
    requires rest <= |t| < |cut|
  {
    var o := ScanOptions(t[rest..]);
    && args == rest + o.args && opts == (if args == rest then eoc else rest)
    && (o.end == 0 <==> o.args == 0) && (o.end == o.args && o.end != 0 ==> rest + o.end == |t|)
    && after == (if o.end == 0 then cut else cut[rest + o.end := NUL])[args + Line(t[args..]) := NUL]
  }

  /** The in-place loop that upper-cases the command word at `p`. */
  method UpperWord(buf: array<byte>, p: nat, ghost t: seq<byte>) returns (q: nat)
    requires Terminated(buf, t, p)
    modifies buf
    ensures q == p + Word(t[p..]) && q <= |t| && (q < |t| ==> IsSpace(t[q]))
    ensures forall i :: 0 <= i < buf.Length && !(p <= i < q) ==> buf[i] == old(buf[i])
    ensures forall i :: p <= i < q ==> buf[i] == ToUpper(t[i])
  {
    q := p;
    while buf[q] != NUL && !IsSpace(buf[q])
      invariant p <= q <= |t| && q + Word(t[q..]) == p + Word(t[p..])
      invariant forall i :: 0 <= i < buf.Length && !(p <= i < q) ==> buf[i] == old(buf[i])
      invariant forall i :: p <= i < q ==> buf[i] == ToUpper(t[i])
      decreases |t| - q
    {
      assert t[q..][1..] == t[q + 1..];
      buf[q] := ToUpper(buf[q]);
      q := q + 1;
    }
  }

  /** Ends the arguments at the first CR or LF from `p`. */
  method CutLine(buf: array<byte>, p: nat, ghost t: seq<byte>)
    requires Terminated(buf, t, p)
    modifies buf
    ensures buf[..] == old(buf[..])[p + Line(t[p..]) := NUL]
  {
    var q := p;
    while buf[q] != NUL && buf[q] != CR && buf[q] != LF
      invariant p <= q <= |t| && q + Line(t[q..]) == p + Line(t[p..]) && buf[..] == old(buf[..])
      decreases |t| - q
    {
      assert t[q..][1..] == t[q + 1..];
      q := q + 1;
    }
    if buf[q] != NUL {
      buf[q] := NUL;
    }
  }

  /**
   split_command: the three strings it leaves behind are the tokens of the line, and nothing past
   the terminator changes.
   */
  method SplitCommand(buf: array<byte>, ghost t: seq<byte>) returns (cmd: nat, opts: nat, args: nat)
    requires Terminated(buf, t, 0)
    modifies buf
    ensures cmd <= |t| && opts <= |t| && args <= |t|
    ensures Tokens(CString(buf[..], cmd), CString(buf[..], opts), CString(buf[..], args)) == Tokenize(t)
    ensures forall i :: |t| <= i < buf.Length ==> buf[i] == old(buf[i])
  {
    hide *;
    ghost var before := buf[..];
    var eoc, rest;
    cmd, eoc, rest := CutCommand(buf, t);
    ghost var cut := buf[..];
    opts, args := CutRest(buf, eoc, rest, t);
    Assembled(t, before, cut, buf[..], cmd, eoc, rest, args, opts);
  }

  /** The command in upper case and the NUL behind it. */
  method CutCommand(buf: array<byte>, ghost t: seq<byte>) returns (cmd: nat, eoc: nat, rest: nat)
    requires Terminated(buf, t, 0)
    modifies buf
    ensures CommandCut(t, old(buf[..]), buf[..], cmd, eoc, rest) && Terminated(buf, t, rest)
    ensures cmd <= |t| && eoc <= rest <= |t| < buf.Length && (rest < |t| ==> !IsSpace(t[rest]))
  {
    hide Spaces, Word, IsSpace;
    assert t[0..] == t;
    var p := SkipSpaces(buf, 0, t);
    cmd := p;
    p := UpperWord(buf, p, t);
    eoc := p;
    if buf[p] != NUL {
      buf[p] := NUL;
      p := p + 1;
      SpacesAfter(t, eoc);
    }
    p := SkipSpaces(buf, p, t);
    rest := p;
  }

  /** The NULs behind options and arguments. */
  method CutRest(buf: array<byte>, eoc: nat, rest: nat, ghost t: seq<byte>) returns (opts: nat, args: nat)
    requires Terminated(buf, t, rest) && eoc <= rest <= |t| < buf.Length && (rest < |t| ==> !IsSpace(t[rest]))
    modifies buf
    ensures LineCut(t, old(buf[..]), buf[..], eoc, rest, args, opts) && opts <= |t| && args <= |t|
  {
    hide ScanOptions, Spaces, Word, IsSpace, Line;
    var p := rest;
    opts := p;
    p := SkipOptions(buf, p, t);
    args := p;
    OptionsGap(t[rest..]);
    if opts == p {
      opts := eoc;
    }
    CutLine(buf, p, t);
  }

  /** Where each inserted NUL stands, and that it spares the three strings. */
  lemma Assembled(t: seq<byte>, before: seq<byte>, cut: seq<byte>, after: seq<byte>,
                  cmd: nat, eoc: nat, rest: nat, args: nat, opts: nat)
    requires CommandCut(t, before, cut, cmd, eoc, rest) && LineCut(t, cut, after, eoc, rest, args, opts)
    ensures cmd <= |after| && opts <= |after| && args <= |after|
    ensures Tokens(CString(after, cmd), CString(after, opts), CString(after, args)) == Tokenize(t)
    ensures |after| == |before| && forall i :: |t| <= i < |before| ==> after[i] == before[i]
  {
    hide ScanOptions, Spaces, Word, IsSpace, Line, Tokenize, CString, ToUpper;
    var o, eol := ScanOptions(t[rest..]), args + Line(t[args..]);
    assert |after| == |before| && after[eoc] == NUL && after[eol] == NUL && (o.end != 0 ==> after[rest + o.end] == NUL);
    assert forall i :: 0 <= i < |after| && i != eol && (o.end == 0 || i != rest + o.end) ==> after[i] == cut[i];
    CommandString(after, t, cmd, eoc);
    OptionsString(after, t, eoc, rest, o, opts);
    ArgumentString(after, t, args, eol);
    TokensAt(t, cmd, eoc, rest, args);
  }

  lemma TokensAt(t: seq<byte>, cmd: nat, eoc: nat, rest: nat, args: nat)
    requires cmd == Spaces(t) && eoc == cmd + Word(t[cmd..]) && rest == eoc + Spaces(t[eoc..])
    requires args == rest + ScanOptions(t[rest..]).args
    ensures Tokenize(t) == Tokens(Upper(t[cmd..eoc]), t[rest..][..ScanOptions(t[rest..]).end], t[args..][..Line(t[args..])])
  {
    hide ScanOptions, Spaces, Word, IsSpace, Line, Upper;
    assert t[rest..][args - rest..] == t[args..];
  }

  lemma CommandString(s: seq<byte>, t: seq<byte>, cmd: nat, eoc: nat)
    requires cmd <= eoc <= |t| && eoc < |s| && s[eoc] == NUL
    requires forall i :: cmd <= i < eoc ==> s[i] == ToUpper(t[i]) && t[i] != NUL
    ensures CString(s, cmd) == Upper(t[cmd..eoc])
  {
    CStringIs(s, cmd, eoc);
    assert s[cmd..eoc] == Upper(t[cmd..eoc]);
  }

  lemma OptionsString(s: seq<byte>, t: seq<byte>, eoc: nat, rest: nat, o: Options, opts: nat)
    requires eoc <= rest <= |t| < |s| && rest + o.end <= |t| && s[eoc] == NUL
    requires opts == if o.args == 0 then eoc else rest
    requires o.args == 0 ==> o.end == 0
    requires o.args != 0 ==> s[rest + o.end] == NUL
    requires forall i :: rest <= i < rest + o.end ==> s[i] == t[i] != NUL
    ensures CString(s, opts) == t[rest..][..o.end]
  {
    if o.args == 0 {
      CStringIs(s, eoc, eoc);
    } else {
      CStringIs(s, rest, rest + o.end);
      assert s[rest..rest + o.end] == t[rest..][..o.end];
    }
  }

  lemma ArgumentString(s: seq<byte>, t: seq<byte>, args: nat, eol: nat)
    requires args <= eol <= |t| < |s| && s[eol] == NUL
    requires forall i :: args <= i < eol ==> s[i] == t[i] != NUL
    ensures CString(s, args) == t[args..][..eol - args]
  {
    CStringIs(s, args, eol);
    assert s[args..eol] == t[args..][..eol - args];
  }

  lemma SpacesAfter(t: seq<byte>, p: nat)
    requires p < |t| && IsSpace(t[p])
    ensures Spaces(t[p..]) == 1 + Spaces(t[p + 1..])
  {
    assert t[p..][1..] == t[p + 1..];
  }

  lemma {:induction false} WordEndsAtSpace(t: seq<byte>)
    ensures Word(t) < |t| ==> IsSpace(t[Word(t)]) && Spaces(t[Word(t)..]) >= 1
    decreases |t|
  {
    if t != [] && !IsSpace(t[0]) {
      WordEndsAtSpace(t[1..]);
      assert t[1..][Word(t[1..])..] == t[Word(t)..];
    }
  }

  lemma {:induction false} ArgsAfterSpaces(t: seq<byte>)
    ensures ScanOptions(t).args >= Spaces(t)
  {
  }

  /** Between the options and the arguments there is a space for the NUL, unless the text ends there. */
  lemma {:induction false} OptionsGap(t: seq<byte>)
    ensures var o := ScanOptions(t);
            o.end == o.args && o.end != 0 ==> o.end == |t|
    ensures t == [] || !IsSpace(t[0]) ==> (ScanOptions(t).end == 0 <==> ScanOptions(t).args == 0)
    decreases |t|
  {
    var w := Spaces(t);
    if w < |t| && t[w] == MINUS {
      var k := Word(t[w..]);
      OptionAt(t, w, k);
      var rest := t[w + k..];
      WordEndsAtSpace(t[w..]);
      assert t[w..][k..] == rest;
      if t[w..w + k] != [MINUS, MINUS] {
        OptionsGap(rest);
        ArgsAfterSpaces(rest);
      }
    }
  }
}

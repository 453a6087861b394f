/**
 What the command splitter of the FTP daemon cuts a line into (split_command and skip_options in
 cpukit/ftpd/ftpd.c), said by character and without the tokenizer's own functions.
 */
module FtpTokens {
  import opened Bytes
  import opened FtpCommand

  /** isspace: space, and tab to carriage return. */
  predicate White(c: byte) {
    c == ' ' as int || 9 <= c <= 13
  }

  predicate AllWhite(s: seq<byte>) {
    forall i :: 0 <= i < |s| ==> White(s[i])
  }

  predicate NoWhite(s: seq<byte>) {
    forall i :: 0 <= i < |s| ==> !White(s[i])
  }

  /** A word starts at `i` of a text that is read from `from`. */
  predicate WordStart(t: seq<byte>, from: nat, i: nat)
    requires i < |t|
  {
    from <= i && !White(t[i]) && (i == from || White(t[i - 1]))
  }

  /** The word at `i` is exactly "--". */
  predicate DoubleDash(t: seq<byte>, i: nat) {
    i + 2 <= |t| && t[i] == '-' as int && t[i + 1] == '-' as int && (i + 2 == |t| || White(t[i + 2]))
  }

  // ------------------------------------------------------------- the pieces

  lemma {:induction false} SpacesMean(t: seq<byte>)
    ensures AllWhite(t[..Spaces(t)]) && (Spaces(t) < |t| ==> !White(t[Spaces(t)]))
    decreases |t|
  {
    if t != [] && IsSpace(t[0]) {
      SpacesMean(t[1..]);
      assert forall i :: 1 <= i < Spaces(t) ==> t[i] == t[1..][i - 1];
    }
  }

  lemma {:induction false} WordMeans(t: seq<byte>)
    ensures NoWhite(t[..Word(t)]) && (Word(t) < |t| ==> White(t[Word(t)]))
    decreases |t|
  {
    if t != [] && !IsSpace(t[0]) {
      WordMeans(t[1..]);
      assert forall i :: 1 <= i < Word(t) ==> t[i] == t[1..][i - 1];
    }
  }

  lemma {:induction false} LineMeans(t: seq<byte>)
    ensures forall i :: 0 <= i < Line(t) ==> t[i] != '\r' as int && t[i] != '\n' as int
    ensures Line(t) < |t| ==> t[Line(t)] == '\r' as int || t[Line(t)] == '\n' as int
    decreases |t|
  {
    if t != [] && t[0] != CR && t[0] != LF {
      LineMeans(t[1..]);
      assert forall i :: 1 <= i < Line(t) ==> t[i] == t[1..][i - 1];
    }
  }

  // ------------------------------------------------------------- options

  /**
   The options of a text end at `end`, and what follows them starts at `args`: every word among them starts with a
   minus, a word "--" is the last, and they stop there or before the first word that does not start with a minus.
   */
  ghost predicate AreOptions(t: seq<byte>, from: nat, end: nat, args: nat) {
    && from <= end <= args <= |t|
    && (forall i :: from <= i < end && WordStart(t, from, i) ==> t[i] == '-' as int)
    && (forall i :: from <= i < end && WordStart(t, from, i) && DoubleDash(t, i) ==> i + 2 == end)
    && (forall i :: end <= i < args ==> White(t[i])) && (args < |t| ==> !White(t[args]))
    && (from < end ==> !White(t[from]) && !White(t[end - 1]) && (args < |t| ==> end < args))
    && (EndsWithDoubleDash(t, from, end) || args == |t| || t[args] != '-' as int)
  }

  ghost predicate EndsWithDoubleDash(t: seq<byte>, from: nat, end: nat)
    requires end <= |t|
  {
    end >= from + 2 && WordStart(t, from, end - 2) && DoubleDash(t, end - 2)
  }

  /** From the first word on; no options end where they would start. */
  function OptionsEnd(t: seq<byte>, o: Options): nat {
    if o.end == 0 then Spaces(t) else o.end
  }

  lemma {:induction false} OptionsMean(t: seq<byte>)
    ensures AreOptions(t, Spaces(t), OptionsEnd(t, ScanOptions(t)), ScanOptions(t).args)
    ensures ScanOptions(t).end != 0 ==> ScanOptions(t).end > Spaces(t)
    ensures ScanOptions(t).end == 0 ==> ScanOptions(t).args == Spaces(t)
    decreases |t|
  {
    SpacesMean(t);
    var w := Spaces(t);
    if StartsOption(t) {
      var n := OptionEnd(t);
      FirstWord(t);
      if EndsOptions(t[w..n]) {
        OptionStep(t);
        LastOption(t, n);
      } else {
        OptionsMean(t[n..]);
        OptionStep(t);
        NextOption(t, n);
      }
    } else {
      NoOptions(t);
    }
  }

  lemma NoOptions(t: seq<byte>)
    requires !StartsOption(t)
    ensures ScanOptions(t) == Options(0, Spaces(t)) && AreOptions(t, Spaces(t), Spaces(t), Spaces(t))
  {
    SpacesMean(t);
    hide Spaces;
  }

  /** The first word of a text that starts with an option. */
  lemma FirstWord(t: seq<byte>)
    requires StartsOption(t)
    ensures var w, n := Spaces(t), OptionEnd(t);
            && w < n <= |t| && t[w] == '-' as int && (forall i :: w <= i < n ==> !White(t[i])) && (n < |t| ==> White(t[n]))
  {
    hide Spaces, Word, White;
    var w := Spaces(t);
    WordIn(t, w);
  }

  lemma WordIn(t: seq<byte>, p: nat)
    requires p <= |t|
    ensures var q := p + Word(t[p..]);
            q <= |t| && (forall i :: p <= i < q ==> !White(t[i])) && (q < |t| ==> White(t[q]))
  {
    var u := t[p..];
    WordMeans(u);
    hide Word, White;
    forall i | p <= i < p + Word(u)
      ensures !White(t[i])
    {
      assert t[i] == u[..Word(u)][i - p];
    }
  }

  lemma LastOption(t: seq<byte>, n: nat)
    requires StartsOption(t) && n == OptionEnd(t) && EndsOptions(t[Spaces(t)..n])
    ensures AreOptions(t, Spaces(t), n, n + Spaces(t[n..]))
  {
    FirstWord(t);
    SpacesMean(t[n..]);
    var w, k := Spaces(t), Spaces(t[n..]);
    hide Spaces, OptionEnd, StartsOption, Word;
    assert |t[w..n]| == 2 && t[w] == t[w..n][0] && t[w + 1] == t[w..n][1];
    assert forall i :: n <= i < n + k ==> t[i] == t[n..][..k][i - n];
    assert n + k < |t| ==> t[n + k] == t[n..][k];
    assert n < |t| ==> t[n..][0] == t[n];
  }

  lemma NextOption(t: seq<byte>, n: nat)
    requires StartsOption(t) && n == OptionEnd(t) && !EndsOptions(t[Spaces(t)..n]) && n <= |t|
    requires var u := t[n..];
             && AreOptions(u, Spaces(u), OptionsEnd(u, ScanOptions(u)), ScanOptions(u).args)
             && (ScanOptions(u).end != 0 ==> ScanOptions(u).end > Spaces(u))
             && (ScanOptions(u).end == 0 ==> ScanOptions(u).args == Spaces(u))
    ensures var o := Behind(n, ScanOptions(t[n..]));
            AreOptions(t, Spaces(t), o.end, o.args)
  {
    hide *;
    var o := ScanOptions(t[n..]);
    SpaceBehindOption(t, n);
    OptionsBehind(n, t[n..], o);
    if o.end == 0 {
      OneOption(t, Spaces(t), n, Spaces(t[n..]));
    } else {
      MoreOptions(t, Spaces(t), n, Spaces(t[n..]), o.end, o.args);
    }
  }

  lemma OptionsBehind(n: nat, u: seq<byte>, o: Options)
    ensures OptionsEnd(u, o) == (if o.end == 0 then Spaces(u) else o.end)
    ensures Behind(n, o) == Options(if o.end == 0 then n else n + o.end, n + o.args)
  {
    hide Spaces;
  }

  lemma SpaceBehindOption(t: seq<byte>, n: nat)
    requires StartsOption(t) && n == OptionEnd(t) && !EndsOptions(t[Spaces(t)..n])
    ensures n <= |t| && OptionThenSpace(t, Spaces(t), n, Spaces(t[n..]))
  {
    hide Spaces, OptionEnd, StartsOption, Word, EndsOptions, White, DoubleDash;
    FirstWord(t);
    SpacesIn(t, n);
    NotDoubleDash(t, Spaces(t), n);
  }

  lemma SpacesIn(t: seq<byte>, p: nat)
    requires p <= |t|
    ensures var q := p + Spaces(t[p..]);
            q <= |t| && (forall i :: p <= i < q ==> White(t[i])) && (p < |t| && White(t[p]) ==> q > p)
  {
    var k := Spaces(t[p..]);
    SpacesMean(t[p..]);
    hide Spaces, White;
    forall i | p <= i < p + k
      ensures White(t[i])
    {
      assert t[i] == t[p..][..k][i - p];
    }
    assert p < |t| ==> t[p..][0] == t[p];
  }

  /** A first word [w, n) that starts with a minus and is not "--", with k white-space characters behind it. */
  ghost predicate OptionThenSpace(t: seq<byte>, w: nat, n: nat, k: nat) {
    && w < n <= n + k <= |t| && t[w] == '-' as int && !DoubleDash(t, w)
    && (forall i :: w <= i < n ==> !White(t[i])) && (forall i :: n <= i < n + k ==> White(t[i]))
    && (n < |t| ==> k > 0)
  }

  lemma OneOption(t: seq<byte>, w: nat, n: nat, k: nat)
    requires OptionThenSpace(t, w, n, k) && AreOptions(t[n..], k, k, k)
    ensures AreOptions(t, w, n, n + k)
  {
    assert n + k < |t| ==> t[n + k] == t[n..][k];
  }

  lemma MoreOptions(t: seq<byte>, w: nat, n: nat, k: nat, e: nat, a: nat)
    requires OptionThenSpace(t, w, n, k) && AreOptions(t[n..], k, e, a) && e > k
    ensures AreOptions(t, w, n + e, n + a)
  {
    var u := t[n..];
    assert forall i :: n <= i < |t| ==> t[i] == u[i - n];
    forall i | w <= i < n + e && WordStart(t, w, i)
      ensures t[i] == '-' as int && (DoubleDash(t, i) ==> i + 2 == n + e)
    {
      if i >= n {
        assert WordStart(u, k, i - n);
        assert DoubleDash(t, i) ==> DoubleDash(u, i - n);
      }
    }
    if EndsWithDoubleDash(u, k, e) {
      assert EndsWithDoubleDash(t, w, n + e);
    }
  }

  lemma NotDoubleDash(t: seq<byte>, w: nat, n: nat)
    requires w < n <= |t| && (forall i :: w <= i < n ==> !White(t[i])) && (n < |t| ==> White(t[n]))
    requires !EndsOptions(t[w..n])
    ensures !DoubleDash(t, w)
  {
    if n == w + 2 {
      assert t[w..n] == [t[w], t[w + 1]];
    }
  }

  // ------------------------------------------------------------- the whole line

  /** Upper case: 32 less exactly for a to z. */
  lemma UpperMeans(t: seq<byte>, i: nat)
    requires i < |t|
    ensures |Upper(t)| == |t| && Upper(t)[i] == (if 97 <= t[i] <= 122 then t[i] - 32 else t[i]) && !(97 <= Upper(t)[i] <= 122)
  {
  }

  /**
   The line is white space, a word, white space, options, white space, arguments and the rest. The command is that
   word in upper case; the arguments have no CR and no LF and run to the first of these or to the end.
   */
  lemma TokensMean(t: seq<byte>) returns (word: nat, wordEnd: nat, opts: nat, optsEnd: nat, args: nat, argsEnd: nat)
    ensures word <= wordEnd <= opts <= optsEnd <= args <= argsEnd <= |t|
    ensures AllWhite(t[..word]) && NoWhite(t[word..wordEnd]) && (word < |t| ==> word < wordEnd) && AllWhite(t[wordEnd..opts])
    ensures AreOptions(t, opts, optsEnd, args)
    ensures var k := Tokenize(t);
            && |k.cmd| == wordEnd - word && k.opts == t[opts..optsEnd] && k.args == t[args..argsEnd]
            && (forall i :: 0 <= i < |k.cmd| ==>
                  var c := t[word + i];
                  k.cmd[i] == (if 97 <= c <= 122 then c - 32 else c) && !(97 <= k.cmd[i] <= 122))
    ensures forall i :: args <= i < argsEnd ==> t[i] != '\r' as int && t[i] != '\n' as int
    ensures argsEnd < |t| ==> t[argsEnd] == '\r' as int || t[argsEnd] == '\n' as int
  {
    hide *;
    word, wordEnd := FirstPieces(t);
    SpacesOf(t, wordEnd);
    opts := wordEnd + Spaces(t[wordEnd..]);
    var o := ScanOptions(t[opts..]);
    NoSpaceLeft(t, opts);
    OptionsFromStart(t[opts..]);
    optsEnd, args := opts + o.end, opts + o.args;
    OptionsShifted(t, opts, o.end, o.args);
    LineOf(t, args);
    argsEnd := args + Line(t[args..]);
    TokensAt(t, word, wordEnd, opts, args);
    CommandIs(t, word, wordEnd);
    assert t[opts..][..o.end] == t[opts..optsEnd];
    assert t[args..][..Line(t[args..])] == t[args..argsEnd];
  }

  lemma OptionsFromStart(u: seq<byte>)
    requires Spaces(u) == 0
    ensures var o := ScanOptions(u);
            o.end <= o.args <= |u| && AreOptions(u, 0, o.end, o.args)
  {
    OptionsMean(u);
    hide Spaces, ScanOptions, AreOptions;
  }

  lemma FirstPieces(t: seq<byte>) returns (word: nat, wordEnd: nat)
    ensures word == Spaces(t) && wordEnd == word + Word(t[word..]) <= |t| && (word < |t| ==> word < wordEnd)
    ensures AllWhite(t[..word]) && NoWhite(t[word..wordEnd])
  {
    word := Spaces(t);
    SpacesMean(t);
    WordMeans(t[word..]);
    wordEnd := word + Word(t[word..]);
    assert t[word..wordEnd] == t[word..][..Word(t[word..])];
    if word < |t| {
      WordNonempty(t[word..]);
    }
  }

  lemma SpacesOf(t: seq<byte>, p: nat)
    requires p <= |t|
    ensures var q := p + Spaces(t[p..]);
            q <= |t| && AllWhite(t[p..q]) && (q < |t| ==> !White(t[q]))
  {
    SpacesMean(t[p..]);
    assert t[p..p + Spaces(t[p..])] == t[p..][..Spaces(t[p..])];
  }

  lemma NoSpaceLeft(t: seq<byte>, p: nat)
    requires p <= |t| && (p < |t| ==> !White(t[p]))
    ensures Spaces(t[p..]) == 0
  {
  }

  lemma OptionsShifted(t: seq<byte>, p: nat, end: nat, args: nat)
    requires p <= |t| && AreOptions(t[p..], 0, end, args)
    ensures AreOptions(t, p, p + end, p + args)
  {
    var u := t[p..];
    assert forall i :: p <= i < |t| ==> t[i] == u[i - p];
    forall i | p <= i < p + end && WordStart(t, p, i)
      ensures t[i] == '-' as int && (DoubleDash(t, i) ==> i + 2 == p + end)
    {
      assert WordStart(u, 0, i - p);
      assert DoubleDash(t, i) ==> DoubleDash(u, i - p);
    }
    if EndsWithDoubleDash(u, 0, end) {
      assert EndsWithDoubleDash(t, p, p + end);
    }
  }

  lemma LineOf(t: seq<byte>, p: nat)
    requires p <= |t|
    ensures var q := p + Line(t[p..]);
            && q <= |t| && (forall i :: p <= i < q ==> t[i] != '\r' as int && t[i] != '\n' as int)
            && (q < |t| ==> t[q] == '\r' as int || t[q] == '\n' as int)
  {
    LineMeans(t[p..]);
    hide Line;
    assert forall i :: p <= i < |t| ==> t[i] == t[p..][i - p];
  }

  lemma CommandIs(t: seq<byte>, word: nat, wordEnd: nat)
    requires word <= wordEnd <= |t|
    ensures var cmd := Upper(t[word..wordEnd]);
            && |cmd| == wordEnd - word
            && (forall i :: 0 <= i < |cmd| ==>
                  var c := t[word + i];
                  cmd[i] == (if 97 <= c <= 122 then c - 32 else c) && !(97 <= cmd[i] <= 122))
  {
    var s := t[word..wordEnd];
    forall i | 0 <= i < |s|
      ensures var c := t[word + i];
              Upper(s)[i] == (if 97 <= c <= 122 then c - 32 else c) && !(97 <= Upper(s)[i] <= 122)
    {
      UpperMeans(s, i);
    }
  }
}

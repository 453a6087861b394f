/**
 The descriptor table that all FTP sessions share (cpukit/ftpd/ftpd.c): sessions open and close
 descriptors in any order, and a STOR to /dev/null closes descriptor 0 without having opened it.
 */
module FtpDescriptors {
  /**
   The descriptors that are open, and the counts of descriptors opened, of closes of an open one, of
   stray closes, which are those of a descriptor that is not open, and of stores to /dev/null.
   */
  datatype Table = Table(owned: set<nat>, opens: nat, closes: nat, strays: nat, nulls: nat)

  const EMPTY := Table({}, 0, 0, 0, 0)

  function OpenIn(t: Table, s: nat): (t': Table)
    ensures t'.strays == t.strays && t'.nulls == t.nulls
  {
    t.(owned := t.owned + {s}, opens := t.opens + 1)
  }

  function CloseIn(t: Table, s: nat): (t': Table)
    ensures t'.strays >= t.strays && t'.nulls == t.nulls
  {
    if s in t.owned then t.(owned := t.owned - {s}, closes := t.closes + 1) else t.(strays := t.strays + 1)
  }

  function NullIn(t: Table): (t': Table)
    ensures t'.strays >= t.strays && t'.nulls == t.nulls + 1
  {
    CloseIn(t, 0).(nulls := t.nulls + 1)
  }

  // ------------------------------------------------------------- the account

  /**
   The account of the table, `named` being the descriptors that sessions will still close, counted as
   often as they are named. A descriptor that is open is named, one opened is open or closed, and
   the stray closes made and to come are as many as the stores to /dev/null.
   */
  ghost predicate Kept(t: Table, named: multiset<nat>) {
    && (forall n :: n in t.owned ==> n in named)
    && t.opens == t.closes + |t.owned|
    && t.strays + |named| == t.nulls + |t.owned|
  }

  lemma KeptOpen(t: Table, named: multiset<nat>, s: nat)
    requires Kept(t, named) && s !in t.owned
    ensures Kept(OpenIn(t, s), named + multiset{s})
  {
  }

  lemma KeptClose(t: Table, named: multiset<nat>, s: nat)
    requires Kept(t, named) && s in named
    ensures Kept(CloseIn(t, s), named - multiset{s})
  {
  }

  lemma KeptNull(t: Table, named: multiset<nat>)
    requires Kept(t, named)
    ensures Kept(NullIn(t), named)
  {
  }

  lemma {:induction false} SetAsMultiset(a: set<nat>)
    ensures |multiset(a)| == |a|
  {
    if a != {} {
      var x :| x in a;
      SetAsMultiset(a - {x});
      assert multiset(a) == multiset(a - {x}) + multiset{x};
    }
  }

  lemma SameSize(a: multiset<nat>, b: multiset<nat>)
    requires a <= b
    ensures |a| <= |b| && (|a| == |b| <==> a == b)
  {
    assert b == a + (b - a);
  }

  /** Stray closes are never ahead of stores to /dev/null, and level exactly when each name is open and nobody else's. */
  lemma KeptEven(t: Table, named: multiset<nat>)
    requires Kept(t, named)
    ensures t.strays <= t.nulls && (t.strays == t.nulls <==> named == multiset(t.owned))
  {
    SetAsMultiset(t.owned);
    SameSize(multiset(t.owned), named);
  }

  // ------------------------------------------------------------- any interleaving

  /** The table and, for each session, the descriptors it names. */
  datatype State = State(table: Table, held: seq<multiset<nat>>)

  datatype Step = Open(i: nat, s: nat) | Close(i: nat, s: nat) | Null(i: nat)

  predicate Enabled(st: State, step: Step) {
    && step.i < |st.held|
    && match step
       case Open(_, s) => s !in st.table.owned
       case Close(i, s) => s in st.held[i]
       case Null(_) => true
  }

  function Next(st: State, step: Step): State
    requires Enabled(st, step)
  {
    match step
    case Open(i, s) => State(OpenIn(st.table, s), st.held[i := st.held[i] + multiset{s}])
    case Close(i, s) => State(CloseIn(st.table, s), st.held[i := st.held[i] - multiset{s}])
    case Null(_) => st.(table := NullIn(st.table))
  }

  function Named(held: seq<multiset<nat>>): multiset<nat> {
    if held == [] then multiset{} else held[0] + Named(held[1..])
  }

  lemma {:induction false} NamedUpdate(held: seq<multiset<nat>>, i: nat, m: multiset<nat>)
    requires i < |held|
    ensures held[i] <= Named(held) && Named(held[i := m]) == Named(held) - held[i] + m
    decreases |held|
  {
    if i == 0 {
      assert held[i := m][1..] == held[1..];
    } else {
      assert held[i := m][1..] == held[1..][i - 1 := m];
      NamedUpdate(held[1..], i - 1, m);
    }
  }

  lemma StepKept(st: State, step: Step)
    requires Enabled(st, step) && Kept(st.table, Named(st.held))
    ensures Kept(Next(st, step).table, Named(Next(st, step).held))
  {
    hide Kept, Named, OpenIn, CloseIn, NullIn;
    var named := Named(st.held);
    match step
    case Open(i, s) =>
      KeptOpen(st.table, named, s);
      NamedUpdate(st.held, i, st.held[i] + multiset{s});
      assert named - st.held[i] + (st.held[i] + multiset{s}) == named + multiset{s};
    case Close(i, s) =>
      NamedUpdate(st.held, i, st.held[i] - multiset{s});
      assert named - st.held[i] + (st.held[i] - multiset{s}) == named - multiset{s};
      KeptClose(st.table, named, s);
    case Null(_) =>
      KeptNull(st.table, named);
  }

  ghost predicate IsRun(st: State, steps: seq<Step>, last: State)
    decreases |steps|
  {
    if steps == [] then last == st else Enabled(st, steps[0]) && IsRun(Next(st, steps[0]), steps[1..], last)
  }

  /** How many of the steps are stores to /dev/null. */
  function Nulls(steps: seq<Step>): nat {
    if steps == [] then 0 else (if steps[0].Null? then 1 else 0) + Nulls(steps[1..])
  }

  lemma {:induction false} RunKept(st: State, steps: seq<Step>, last: State)
    requires Kept(st.table, Named(st.held)) && IsRun(st, steps, last)
    ensures Kept(last.table, Named(last.held)) && |last.held| == |st.held|
    ensures last.table.nulls == st.table.nulls + Nulls(steps)
    decreases |steps|
  {
    if steps != [] {
      StepKept(st, steps[0]);
      hide Kept;
      RunKept(Next(st, steps[0]), steps[1..], last);
    }
  }

  ghost predicate Init(st: State) {
    st.table == EMPTY && forall i :: 0 <= i < |st.held| ==> st.held[i] == multiset{}
  }

  lemma {:induction false} NothingNamed(held: seq<multiset<nat>>)
    requires forall i :: 0 <= i < |held| ==> held[i] == multiset{}
    ensures Named(held) == multiset{}
    decreases |held|
  {
    if held != [] {
      NothingNamed(held[1..]);
    }
  }

  lemma Reachable(st: State, steps: seq<Step>, last: State)
    requires Init(st) && IsRun(st, steps, last)
    ensures Kept(last.table, Named(last.held)) && last.table.nulls == Nulls(steps)
  {
    NothingNamed(st.held);
    RunKept(st, steps, last);
  }

  /**
   Whatever the sessions and their interleaving: when every session has closed what it named, nothing
   is open, every descriptor opened was closed, and the stray closes are exactly as many as the stores
   to /dev/null. So no close was stray if and only if no session made such a store.
   */
  lemma AllBack(st: State, steps: seq<Step>, last: State)
    requires Init(st) && IsRun(st, steps, last) && forall i :: 0 <= i < |last.held| ==> last.held[i] == multiset{}
    ensures last.table.owned == {} && last.table.opens == last.table.closes
    ensures last.table.strays == Nulls(steps)
    ensures last.table.strays == 0 <==> Nulls(steps) == 0
  {
    Reachable(st, steps, last);
    NothingNamed(last.held);
    assert forall n :: n in last.table.owned ==> n in multiset{};
  }

  /**
   At any point of any run: while no store to /dev/null was made, no close was stray, and every session's
   descriptors are open and nobody else's.
   */
  lemma NoNullNoStray(st: State, steps: seq<Step>, last: State)
    requires Init(st) && IsRun(st, steps, last)
    ensures last.table.strays <= Nulls(steps)
    ensures last.table.strays == Nulls(steps) <==> Named(last.held) == multiset(last.table.owned)
    ensures Nulls(steps) == 0 ==> last.table.strays == 0 && Named(last.held) == multiset(last.table.owned)
  {
    Reachable(st, steps, last);
    KeptEven(last.table, Named(last.held));
  }

  /**
   The session that makes the store need not be the one that suffers: session 0, whose control connection
   is descriptor 0, makes none, session 1 does, and the close of session 0 is the stray one.
   */
  lemma Interference()
    ensures var steps := [Open(0, 0), Open(1, 1), Null(1), Close(0, 0), Close(1, 1)];
            && IsRun(State(EMPTY, [multiset{}, multiset{}]), steps, State(Table({}, 2, 2, 1, 1), [multiset{}, multiset{}]))
            && forall k :: 0 <= k < |steps| && steps[k].i == 0 ==> !steps[k].Null?
  {
    var s0 := State(EMPTY, [multiset{}, multiset{}]);
    var s1 := State(Table({0}, 1, 0, 0, 0), [multiset{0}, multiset{}]);
    var s2 := State(Table({0, 1}, 2, 0, 0, 0), [multiset{0}, multiset{1}]);
    var s3 := State(Table({1}, 2, 1, 0, 1), [multiset{0}, multiset{1}]);
    var s4 := State(Table({1}, 2, 1, 1, 1), [multiset{}, multiset{1}]);
    var s5 := State(Table({}, 2, 2, 1, 1), [multiset{}, multiset{}]);
    hide *;
    InterferenceOpens(s0, s1, s2);
    InterferenceCloses(s2, s3, s4, s5);
    RunCons(s4, Close(1, 1), [], s5);
    assert [Close(1, 1)] + [] == [Close(1, 1)];
    RunCons(s3, Close(0, 0), [Close(1, 1)], s5);
    assert [Close(0, 0)] + [Close(1, 1)] == [Close(0, 0), Close(1, 1)];
    RunCons(s2, Null(1), [Close(0, 0), Close(1, 1)], s5);
    assert [Null(1)] + [Close(0, 0), Close(1, 1)] == [Null(1), Close(0, 0), Close(1, 1)];
    RunCons(s1, Open(1, 1), [Null(1), Close(0, 0), Close(1, 1)], s5);
    assert [Open(1, 1)] + [Null(1), Close(0, 0), Close(1, 1)] == [Open(1, 1), Null(1), Close(0, 0), Close(1, 1)];
    RunCons(s0, Open(0, 0), [Open(1, 1), Null(1), Close(0, 0), Close(1, 1)], s5);
    assert [Open(0, 0)] + [Open(1, 1), Null(1), Close(0, 0), Close(1, 1)]
        == [Open(0, 0), Open(1, 1), Null(1), Close(0, 0), Close(1, 1)];
  }

  lemma InterferenceOpens(s0: State, s1: State, s2: State)
    requires s0 == State(EMPTY, [multiset{}, multiset{}])
    requires s1 == State(Table({0}, 1, 0, 0, 0), [multiset{0}, multiset{}])
    requires s2 == State(Table({0, 1}, 2, 0, 0, 0), [multiset{0}, multiset{1}])
    ensures Enabled(s0, Open(0, 0)) && Next(s0, Open(0, 0)) == s1
    ensures Enabled(s1, Open(1, 1)) && Next(s1, Open(1, 1)) == s2
  {
    assert {0} + {1} == {0, 1};
    OneName(0);
    OneName(1);
    assert s1.held == s0.held[0 := s0.held[0] + multiset{0}];
    assert s2.held == s1.held[1 := s1.held[1] + multiset{1}];
  }

  lemma InterferenceCloses(s2: State, s3: State, s4: State, s5: State)
    requires s2 == State(Table({0, 1}, 2, 0, 0, 0), [multiset{0}, multiset{1}])
    requires s3 == State(Table({1}, 2, 1, 0, 1), [multiset{0}, multiset{1}])
    requires s4 == State(Table({1}, 2, 1, 1, 1), [multiset{}, multiset{1}])
    requires s5 == State(Table({}, 2, 2, 1, 1), [multiset{}, multiset{}])
    ensures Enabled(s2, Null(1)) && Next(s2, Null(1)) == s3
    ensures Enabled(s3, Close(0, 0)) && Next(s3, Close(0, 0)) == s4
    ensures Enabled(s4, Close(1, 1)) && Next(s4, Close(1, 1)) == s5
  {
    assert {0, 1} - {0} == {1} && {1} - {1} == {};
    OneName(0);
    OneName(1);
    assert s4.held == s3.held[0 := s3.held[0] - multiset{0}];
    assert s5.held == s4.held[1 := s4.held[1] - multiset{1}];
  }

  lemma OneName(n: nat)
    ensures multiset{} + multiset{n} == multiset{n} && multiset{n} - multiset{n} == multiset{}
  {
  }

  lemma RunCons(st: State, step: Step, steps: seq<Step>, last: State)
    requires Enabled(st, step) && IsRun(Next(st, step), steps, last)
    ensures IsRun(st, [step] + steps, last) && (steps == [] ==> last == Next(st, step))
  {
    assert ([step] + steps)[1..] == steps;
  }

  // ------------------------------------------------------------- one session and the others

  /** `steps` led to the table, session 0 naming `mine` and all the others together naming `others`. */
  ghost predicate Traced(steps: seq<Step>, t: Table, mine: multiset<nat>, others: multiset<nat>) {
    IsRun(State(EMPTY, [multiset{}, multiset{}]), steps, State(t, [mine, others]))
  }

  /** The steps that session 0 made. */
  function Mine(steps: seq<Step>): seq<Step> {
    if steps == [] then []
    else
      var n := |steps| - 1;
      Mine(steps[..n]) + if steps[n].i == 0 then [steps[n]] else []
  }

  lemma MineAppend(steps: seq<Step>, step: Step)
    ensures Mine(steps + [step]) == Mine(steps) + if step.i == 0 then [step] else []
  {
    assert (steps + [step])[..|steps|] == steps;
  }

  lemma TracedStart()
    ensures Traced([], EMPTY, multiset{}, multiset{})
  {
  }

  lemma TracedKept(steps: seq<Step>, t: Table, mine: multiset<nat>, others: multiset<nat>)
    requires Traced(steps, t, mine, others)
    ensures Kept(t, mine + others) && t.nulls == Nulls(steps)
  {
    var last := State(t, [mine, others]);
    Reachable(State(EMPTY, [multiset{}, multiset{}]), steps, last);
    assert last.held[1..] == [others] && [others][1..] == [];
    assert Named([others]) == others + Named([]);
    assert others + multiset{} == others;
  }

  lemma {:induction false} RunSnoc(st: State, steps: seq<Step>, last: State, step: Step)
    requires IsRun(st, steps, last) && Enabled(last, step)
    ensures IsRun(st, steps + [step], Next(last, step))
    decreases |steps|
  {
    if steps == [] {
      RunCons(st, step, [], Next(st, step));
      assert [] + [step] == [step] + [];
    } else {
      RunSnoc(Next(st, steps[0]), steps[1..], last, step);
      assert (steps + [step])[1..] == steps[1..] + [step];
    }
  }

  /** This session opens, closes or stores to /dev/null. */
  lemma TracedMine(steps: seq<Step>, t: Table, mine: multiset<nat>, others: multiset<nat>, s: nat)
    requires Traced(steps, t, mine, others)
    ensures s !in t.owned ==> Traced(steps + [Open(0, s)], OpenIn(t, s), mine + multiset{s}, others)
    ensures s in mine ==> Traced(steps + [Close(0, s)], CloseIn(t, s), mine - multiset{s}, others)
    ensures Traced(steps + [Null(0)], NullIn(t), mine, others)
  {
    hide IsRun, OpenIn, CloseIn, NullIn;
    var st, last := State(EMPTY, [multiset{}, multiset{}]), State(t, [mine, others]);
    assert last.held[0 := mine + multiset{s}] == [mine + multiset{s}, others];
    assert last.held[0 := mine - multiset{s}] == [mine - multiset{s}, others];
    if s !in t.owned {
      RunSnoc(st, steps, last, Open(0, s));
    }
    if s in mine {
      RunSnoc(st, steps, last, Close(0, s));
    }
    RunSnoc(st, steps, last, Null(0));
  }

  /** Another session does. */
  lemma TracedOthers(steps: seq<Step>, t: Table, mine: multiset<nat>, others: multiset<nat>, s: nat)
    requires Traced(steps, t, mine, others)
    ensures s !in t.owned ==> Traced(steps + [Open(1, s)], OpenIn(t, s), mine, others + multiset{s})
    ensures s in others ==> Traced(steps + [Close(1, s)], CloseIn(t, s), mine, others - multiset{s})
    ensures Traced(steps + [Null(1)], NullIn(t), mine, others)
  {
    hide IsRun, OpenIn, CloseIn, NullIn;
    var st, last := State(EMPTY, [multiset{}, multiset{}]), State(t, [mine, others]);
    assert last.held[1 := others + multiset{s}] == [mine, others + multiset{s}];
    assert last.held[1 := others - multiset{s}] == [mine, others - multiset{s}];
    if s !in t.owned {
      RunSnoc(st, steps, last, Open(1, s));
    }
    if s in others {
      RunSnoc(st, steps, last, Close(1, s));
    }
    RunSnoc(st, steps, last, Null(1));
  }
}

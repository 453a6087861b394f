/**
 The pool of session entries of the FTP daemon (task_pool_init, task_pool_obtain and
 task_pool_release in cpukit/ftpd/ftpd.c): a ring guarded by a mutex and a counting semaphore.

 The critical sections are methods on the ring; any number of tasks runs them in any interleaving
 as the atomic steps wait, pop, push and post.
 */
module FtpPool {

  // An entry is named by its index in the array of session structures.
  type Entry = nat

  datatype Ring = Ring(slots: seq<Entry>, head: nat, tail: nat) {
    predicate Valid() {
      head < |slots| && tail < |slots|
    }
  }

  function Advance(i: nat, count: nat): nat {
    if i + 1 >= count then 0 else i + 1
  }

  function AllEntries(count: nat): (all: seq<Entry>)
    ensures |all| == count && forall i :: 0 <= i < count ==> all[i] == i
  {
    seq(count, i => i)
  }

  function InitialRing(count: nat): Ring {
    Ring(AllEntries(count), 0, 0)
  }

  function PopRing(r: Ring): (r': Ring)
    requires r.Valid()
    ensures r'.Valid() && |r'.slots| == |r.slots|
  {
    r.(head := Advance(r.head, |r.slots|))
  }

  function PushRing(r: Ring, e: Entry): (r': Ring)
    requires r.Valid()
    ensures r'.Valid() && |r'.slots| == |r.slots|
  {
    Ring(r.slots[r.tail := e], r.head, Advance(r.tail, |r.slots|))
  }

  // ------------------------------------------------------------- the source

  class TaskPool {
    var queue: array<Entry>
    var count: nat
    var head: nat
    var tail: nat

    ghost function View(): Ring
      reads this, queue
    {
      Ring(queue[..], head, tail)
    }

    ghost predicate Valid()
      reads this, queue
    {
      count == queue.Length && View().Valid()
    }

    constructor ()
      ensures count == 0
    {
      queue, count, head, tail := new Entry[0], 0, 0, 0;
    }

    /** Fill the ring with every entry, provided there is memory and the task of each one could be created and started. */
    method Init(count: nat, memory: bool, starts: seq<bool>) returns (ok: bool)
      requires count > 0 && |starts| == count
      modifies this
      ensures ok <==> memory && forall i :: 0 <= i < count ==> starts[i]
      ensures ok ==> Valid() && this.count == count && View() == InitialRing(count)
      ensures !ok ==> this.count == 0
    {
      this.count, head, tail := 0, 0, 0;
      if !memory {
        return false;
      }
      queue := new Entry[count];
      var i := 0;
      while i < count
        invariant 0 <= i <= count && fresh(queue) && queue.Length == count
        invariant this.count == head == tail == 0
        invariant forall j :: 0 <= j < i ==> starts[j] && queue[j] == j
      {
        if !starts[i] {
          return false;
        }
        queue[i] := i;
        i := i + 1;
      }
      this.count := count;
      return true;
    }

    /** The critical section of task_pool_obtain. */
    method ObtainLocked() returns (info: Entry)
      requires Valid()
      modifies this
      ensures Valid() && count == old(count) && queue == old(queue)
      ensures View() == PopRing(old(View())) && info == old(View()).slots[old(head)]
    {
      info := queue[head];
      head := head + 1;
      if head >= count {
        head := 0;
      }
    }

    /** The critical section of task_pool_release. */
    method ReleaseLocked(info: Entry)
      requires Valid()
      modifies this, queue
      ensures Valid() && count == old(count) && queue == old(queue)
      ensures View() == PushRing(old(View()), info)
    {
      queue[tail] := info;
      tail := tail + 1;
      if tail >= count {
        tail := 0;
      }
    }
  }

  // ------------------------------------------------------------- all interleavings

  /** Where a task is: before the semaphore, between wait and pop, owner of an entry, between push and post. */
  datatype Phase = Idle | Waited | Holding(e: Entry) | Posting

  /** `handed` and `returned` record the entries popped and pushed so far, in order. */
  datatype State = State(ring: Ring, sem: nat, actors: seq<Phase>, handed: seq<Entry>, returned: seq<Entry>)

  ghost predicate Init(s: State, count: nat) {
    && count > 0
    && s.ring == InitialRing(count) && s.sem == count
    && (forall i :: 0 <= i < |s.actors| ==> s.actors[i] == Idle)
    && s.handed == [] && s.returned == []
  }

  datatype Step = Wait(i: nat) | Pop(i: nat) | Handoff(i: nat, j: nat) | Push(i: nat) | Post(i: nat)

  predicate Enabled(s: State, step: Step) {
    && step.i < |s.actors| && s.ring.Valid()
    && match step
       case Wait(i) => s.actors[i] == Idle && s.sem > 0
       case Pop(i) => s.actors[i] == Waited
       case Handoff(i, j) => j < |s.actors| && s.actors[i].Holding? && s.actors[j] == Idle
       case Push(i) => s.actors[i].Holding?
       case Post(i) => s.actors[i] == Posting
  }

  function Next(s: State, step: Step): State
    requires Enabled(s, step)
  {
    match step
    case Wait(i) => s.(sem := s.sem - 1, actors := s.actors[i := Waited])
    case Pop(i) =>
      var e := s.ring.slots[s.ring.head];
      s.(ring := PopRing(s.ring), actors := s.actors[i := Holding(e)], handed := s.handed + [e])
    case Handoff(i, j) => s.(actors := s.actors[j := s.actors[i]][i := Idle])
    case Push(i) =>
      var e := s.actors[i].e;
      s.(ring := PushRing(s.ring, e), actors := s.actors[i := Posting], returned := s.returned + [e])
    case Post(i) => s.(sem := s.sem + 1, actors := s.actors[i := Idle])
  }

  // ------------------------------------------------------------- counting tasks by phase

  function Count(actors: seq<Phase>, p: Phase): nat {
    if actors == [] then 0 else (if actors[0] == p then 1 else 0) + Count(actors[1..], p)
  }

  function HeldBy(p: Phase): multiset<Entry> {
    if p.Holding? then multiset{p.e} else multiset{}
  }

  function Held(actors: seq<Phase>): multiset<Entry> {
    if actors == [] then multiset{} else HeldBy(actors[0]) + Held(actors[1..])
  }

  lemma {:induction false} CountUpdate(actors: seq<Phase>, i: nat, q: Phase, p: Phase)
    requires i < |actors|
    ensures Count(actors[i := q], p)
         == Count(actors, p) - (if actors[i] == p then 1 else 0) + (if q == p then 1 else 0)
    decreases |actors|
  {
    if i == 0 {
      assert actors[0 := q][1..] == actors[1..];
    } else {
      assert actors[i := q][1..] == actors[1..][i - 1 := q];
      CountUpdate(actors[1..], i - 1, q, p);
    }
  }

  lemma {:induction false} HeldUpdate(actors: seq<Phase>, i: nat, q: Phase)
    requires i < |actors|
    ensures HeldBy(actors[i]) <= Held(actors)
    ensures Held(actors[i := q]) == Held(actors) - HeldBy(actors[i]) + HeldBy(q)
    decreases |actors|
  {
    if i == 0 {
      assert actors[0 := q][1..] == actors[1..];
    } else {
      assert actors[i := q][1..] == actors[1..][i - 1 := q];
      HeldUpdate(actors[1..], i - 1, q);
    }
  }

  // ------------------------------------------------------------- the invariant

  /** Every entry ever in the ring, in order: first the initial ones, then those returned. */
  function Entered(s: State): seq<Entry> {
    AllEntries(|s.ring.slots|) + s.returned
  }

  /** The entries waiting in the ring, next to be handed out first. */
  function Free(s: State): seq<Entry>
    requires |s.handed| <= |Entered(s)|
  {
    Entered(s)[|s.handed|..]
  }

  /** The slot `k` places behind the head. */
  function SlotAt(r: Ring, k: nat): (i: nat)
    requires r.Valid() && k <= |r.slots|
    ensures i < |r.slots|
  {
    if r.head + k >= |r.slots| then r.head + k - |r.slots| else r.head + k
  }

  /** The ring holds exactly `free`, from head on. */
  ghost predicate Represents(r: Ring, free: seq<Entry>) {
    && r.Valid() && |free| <= |r.slots|
    && r.tail == SlotAt(r, |free|)
    && forall k :: 0 <= k < |free| ==> r.slots[SlotAt(r, k)] == free[k]
  }

  /** The semaphore and the tasks in flight account for `free`; it and the owned entries are all entries. */
  ghost predicate Accounted(sem: nat, actors: seq<Phase>, free: seq<Entry>, count: nat) {
    && |free| == sem + Count(actors, Waited) + Count(actors, Posting)
    && multiset(free) + Held(actors) == multiset(AllEntries(count))
  }

  ghost predicate Inv(s: State) {
    && s.handed <= Entered(s)
    && Represents(s.ring, Free(s))
    && Accounted(s.sem, s.actors, Free(s), |s.ring.slots|)
  }

  lemma {:induction false} IdleCounts(actors: seq<Phase>)
    requires forall i :: 0 <= i < |actors| ==> actors[i] == Idle
    ensures Count(actors, Waited) == Count(actors, Posting) == 0 && Held(actors) == multiset{}
    decreases |actors|
  {
    if actors != [] {
      IdleCounts(actors[1..]);
    }
  }

  lemma InitInv(s: State, count: nat)
    requires Init(s, count)
    ensures Inv(s)
  {
    IdleCounts(s.actors);
    assert Entered(s) == AllEntries(count);
    assert Free(s) == AllEntries(count);
  }

  lemma PopRepresents(r: Ring, free: seq<Entry>)
    requires Represents(r, free) && free != []
    ensures r.slots[r.head] == free[0] && Represents(PopRing(r), free[1..])
  {
    assert r.slots[SlotAt(r, 0)] == free[0];
    forall k | 0 <= k < |free| - 1
      ensures r.slots[SlotAt(PopRing(r), k)] == free[1..][k]
    {
      assert SlotAt(PopRing(r), k) == SlotAt(r, k + 1);
    }
  }

  lemma PushRepresents(r: Ring, free: seq<Entry>, e: Entry)
    requires Represents(r, free) && |free| < |r.slots|
    ensures Represents(PushRing(r, e), free + [e])
    ensures forall k :: 0 <= k < |free| ==> SlotAt(r, k) != r.tail
  {
    forall k | 0 <= k < |free| + 1
      ensures PushRing(r, e).slots[SlotAt(PushRing(r, e), k)] == (free + [e])[k]
    {
      assert SlotAt(PushRing(r, e), k) == SlotAt(r, k);
    }
  }

  lemma SizeOfAll(free: seq<Entry>, held: multiset<Entry>, count: nat)
    requires multiset(free) + held == multiset(AllEntries(count))
    ensures |free| + |held| == count
  {
    assert |multiset(free) + held| == |multiset(free)| + |held|;
  }

  lemma HoldersLeaveRoom(sem: nat, actors: seq<Phase>, free: seq<Entry>, count: nat, i: nat)
    requires Accounted(sem, actors, free, count) && i < |actors| && actors[i].Holding?
    ensures |free| < count
  {
    ActorUpdate(actors, i, Idle);
    SizeOfAll(free, Held(actors), count);
    assert actors[i].e in Held(actors);
  }

  lemma {:induction false} CountPositive(actors: seq<Phase>, i: nat)
    requires i < |actors|
    ensures Count(actors, actors[i]) >= 1
    decreases |actors|
  {
    if i > 0 {
      CountPositive(actors[1..], i - 1);
    }
  }

  lemma ActorUpdate(actors: seq<Phase>, i: nat, q: Phase)
    requires i < |actors|
    ensures Count(actors[i := q], Waited)
         == Count(actors, Waited) - (if actors[i] == Waited then 1 else 0) + (if q == Waited then 1 else 0)
    ensures Count(actors[i := q], Posting)
         == Count(actors, Posting) - (if actors[i] == Posting then 1 else 0) + (if q == Posting then 1 else 0)
    ensures HeldBy(actors[i]) <= Held(actors)
    ensures Held(actors[i := q]) == Held(actors) - HeldBy(actors[i]) + HeldBy(q)
  {
    hide Count, Held;
    HeldUpdate(actors, i, q);
    CountUpdate(actors, i, q, Waited);
    CountUpdate(actors, i, q, Posting);
  }

  // The entries waiting in the ring before and after a pop and a push.

  lemma FreeAfterPop(s: State, e: Entry)
    requires s.handed <= Entered(s) && Free(s) != [] && e == Free(s)[0]
    ensures s.handed + [e] <= Entered(s) && Entered(s)[|s.handed| + 1..] == Free(s)[1..]
  {
  }

  lemma FreeAfterPush(s: State, e: Entry)
    requires s.handed <= Entered(s)
    ensures s.handed <= Entered(s) + [e] && (Entered(s) + [e])[|s.handed|..] == Free(s) + [e]
  {
  }

  lemma AccountedPop(sem: nat, actors: seq<Phase>, free: seq<Entry>, count: nat, i: nat)
    requires Accounted(sem, actors, free, count) && i < |actors| && actors[i] == Waited
    ensures free != [] && Accounted(sem, actors[i := Holding(free[0])], free[1..], count)
  {
    hide Count, Held;
    CountPositive(actors, i);
    ActorUpdate(actors, i, Holding(free[0]));
    assert free == [free[0]] + free[1..];
    assert multiset(free) == multiset{free[0]} + multiset(free[1..]);
  }

  lemma AccountedPush(sem: nat, actors: seq<Phase>, free: seq<Entry>, count: nat, i: nat)
    requires Accounted(sem, actors, free, count) && i < |actors| && actors[i].Holding?
    ensures Accounted(sem, actors[i := Posting], free + [actors[i].e], count)
  {
    hide Count, Held;
    ActorUpdate(actors, i, Posting);
    assert multiset(free + [actors[i].e]) == multiset(free) + multiset{actors[i].e};
  }

  lemma AccountedHandoff(sem: nat, actors: seq<Phase>, free: seq<Entry>, count: nat, i: nat, j: nat)
    requires Accounted(sem, actors, free, count)
    requires i < |actors| && j < |actors| && actors[i].Holding? && actors[j] == Idle
    ensures Accounted(sem, actors[j := actors[i]][i := Idle], free, count)
  {
    hide Count, Held;
    var mid := actors[j := actors[i]];
    ActorUpdate(actors, j, actors[i]);
    ActorUpdate(mid, i, Idle);
    assert mid[i] == actors[i];
    assert Held(mid[i := Idle]) == Held(actors);
  }

  lemma AccountedSemaphore(sem: nat, actors: seq<Phase>, free: seq<Entry>, count: nat, i: nat)
    requires Accounted(sem, actors, free, count) && i < |actors|
    ensures actors[i] == Idle && sem > 0 ==> Accounted(sem - 1, actors[i := Waited], free, count)
    ensures actors[i] == Posting ==> Accounted(sem + 1, actors[i := Idle], free, count)
  {
    hide Count, Held;
    ActorUpdate(actors, i, Waited);
    ActorUpdate(actors, i, Idle);
    assert HeldBy(Waited) == HeldBy(Idle) == HeldBy(Posting) == multiset{};
  }

  /** Every step of every task keeps the invariant. */
  lemma StepInv(s: State, step: Step)
    requires Inv(s) && Enabled(s, step)
    ensures Inv(Next(s, step)) && |Next(s, step).ring.slots| == |s.ring.slots|
  {
    hide Accounted, Represents, Count, Held, PopRing, PushRing;
    var s', free, n := Next(s, step), Free(s), |s.ring.slots|;
    match step {
      case Wait(i) =>
        AccountedSemaphore(s.sem, s.actors, free, n, i);
      case Pop(i) =>
        AccountedPop(s.sem, s.actors, free, n, i);
        PopRepresents(s.ring, free);
        FreeAfterPop(s, free[0]);
        assert Entered(s') == Entered(s);
      case Handoff(i, j) =>
        AccountedHandoff(s.sem, s.actors, free, n, i, j);
      case Push(i) =>
        var e := s.actors[i].e;
        HoldersLeaveRoom(s.sem, s.actors, free, n, i);
        AccountedPush(s.sem, s.actors, free, n, i);
        PushRepresents(s.ring, free, e);
        FreeAfterPush(s, e);
        assert Entered(s') == Entered(s) + [e];
      case Post(i) =>
        AccountedSemaphore(s.sem, s.actors, free, n, i);
    }
  }

  // ------------------------------------------------------------- every run

  /** A run: each step is enabled where it is taken. */
  ghost predicate IsRun(s: State, steps: seq<Step>, last: State)
    decreases steps
  {
    if steps == [] then s == last
    else Enabled(s, steps[0]) && IsRun(Next(s, steps[0]), steps[1..], last)
  }

  lemma {:induction false} RunInv(s: State, steps: seq<Step>, last: State)
    requires Inv(s) && IsRun(s, steps, last)
    ensures Inv(last) && |last.ring.slots| == |s.ring.slots|
    decreases |steps|
  {
    hide Inv, Next;
    if steps != [] {
      StepInv(s, steps[0]);
      RunInv(Next(s, steps[0]), steps[1..], last);
    }
  }

  lemma Reachable(s0: State, count: nat, steps: seq<Step>, s: State)
    requires Init(s0, count) && IsRun(s0, steps, s)
    ensures Inv(s) && |s.ring.slots| == count
  {
    InitInv(s0, count);
    RunInv(s0, steps, s);
  }

  lemma {:induction false} NoDuplicates(count: nat, e: Entry)
    ensures multiset(AllEntries(count))[e] <= 1
  {
    if count > 0 {
      NoDuplicates(count - 1, e);
      var all := AllEntries(count);
      assert all == AllEntries(count - 1) + [count - 1];
      assert count - 1 !in AllEntries(count - 1);
    }
  }

  lemma HeldTwice(actors: seq<Phase>, i: nat, j: nat)
    requires i < j < |actors| && actors[i].Holding? && actors[i] == actors[j]
    ensures Held(actors)[actors[i].e] >= 2
  {
    HeldUpdate(actors, i, Idle);
    HeldUpdate(actors[i := Idle], j, Idle);
  }

  lemma FreeTwice(free: seq<Entry>, k: nat, l: nat)
    requires k < l < |free| && free[k] == free[l]
    ensures multiset(free)[free[k]] >= 2
  {
    assert free == free[..l] + free[l..];
    assert free[..l][k] == free[k] && free[l..][0] == free[l];
    assert multiset(free)[free[k]] == multiset(free[..l])[free[k]] + multiset(free[l..])[free[k]];
    assert free[k] in free[..l] && free[k] in free[l..];
  }

  /** No entry has two owners, and none is both owned and in the ring, or in the ring twice. */
  lemma SingleOwner(s0: State, count: nat, steps: seq<Step>, s: State, i: nat)
    requires Init(s0, count) && IsRun(s0, steps, s)
    requires i < |s.actors| && s.actors[i].Holding?
    ensures forall j :: 0 <= j < |s.actors| && j != i ==> s.actors[j] != s.actors[i]
    ensures s.handed <= Entered(s) && s.actors[i].e !in Free(s)
  {
    Reachable(s0, count, steps, s);
    var e, free, held := s.actors[i].e, Free(s), Held(s.actors);
    NoDuplicates(count, e);
    HeldUpdate(s.actors, i, Idle);
    assert (multiset(free) + held)[e] == multiset(free)[e] + held[e];
    assert e in free ==> multiset(free)[e] >= 1;
    hide Held;
    assert held[e] >= 1;
    forall j | 0 <= j < |s.actors| && j != i
      ensures s.actors[j] != s.actors[i]
    {
      if s.actors[j] == s.actors[i] {
        HeldTwice(s.actors, if i < j then i else j, if i < j then j else i);
      }
    }
  }

  lemma RingHasNoDuplicates(s0: State, count: nat, steps: seq<Step>, s: State, k: nat, l: nat)
    requires Init(s0, count) && IsRun(s0, steps, s)
    requires s.handed <= Entered(s) && k < l < |Free(s)|
    ensures Free(s)[k] != Free(s)[l]
  {
    Reachable(s0, count, steps, s);
    var free, held := Free(s), Held(s.actors);
    NoDuplicates(count, free[k]);
    assert (multiset(free) + held)[free[k]] == multiset(free)[free[k]] + held[free[k]];
    if free[k] == free[l] {
      FreeTwice(free, k, l);
    }
  }

  /**
   Nothing is lost: the entries in the ring and the entries owned are together all of them, and the
   ring's occupancy is what the semaphore counts plus the waits and posts in flight.
   */
  lemma Conservation(s0: State, count: nat, steps: seq<Step>, s: State)
    requires Init(s0, count) && IsRun(s0, steps, s)
    ensures s.handed <= Entered(s)
    ensures multiset(Free(s)) + Held(s.actors) == multiset(AllEntries(count))
    ensures |Free(s)| + |Held(s.actors)| == count
    ensures s.sem + Count(s.actors, Waited) + Count(s.actors, Posting) == |Free(s)|
  {
    Reachable(s0, count, steps, s);
    SizeOfAll(Free(s), Held(s.actors), count);
  }

  /** A pop finds the oldest live entry in its slot. */
  lemma PopIsSafe(s0: State, count: nat, steps: seq<Step>, s: State, i: nat)
    requires Init(s0, count) && IsRun(s0, steps, s) && Enabled(s, Pop(i))
    ensures s.handed <= Entered(s) && Free(s) != [] && s.ring.slots[s.ring.head] == Free(s)[0]
  {
    Reachable(s0, count, steps, s);
    CountPositive(s.actors, i);
    PopRepresents(s.ring, Free(s));
  }

  /** A push never lands on a slot that holds an entry not yet handed out. */
  lemma PushIsSafe(s0: State, count: nat, steps: seq<Step>, s: State, i: nat)
    requires Init(s0, count) && IsRun(s0, steps, s) && Enabled(s, Push(i))
    ensures s.handed <= Entered(s) && Represents(s.ring, Free(s))
    ensures forall k :: 0 <= k < |Free(s)| ==> SlotAt(s.ring, k) != s.ring.tail
  {
    Reachable(s0, count, steps, s);
    HoldersLeaveRoom(s.sem, s.actors, Free(s), count, i);
    PushRepresents(s.ring, Free(s), s.actors[i].e);
  }

  /** Entries are handed out in the order in which they came into the ring. */
  lemma HandOutIsFifo(s0: State, count: nat, steps: seq<Step>, s: State)
    requires Init(s0, count) && IsRun(s0, steps, s)
    ensures s.handed <= AllEntries(count) + s.returned
  {
    Reachable(s0, count, steps, s);
  }

  /** A task blocks on the semaphore only while every entry is owned or on its way in or out. */
  lemma BlockedOnlyWhenAllTaken(s0: State, count: nat, steps: seq<Step>, s: State)
    requires Init(s0, count) && IsRun(s0, steps, s) && s.sem == 0
    ensures |Held(s.actors)| + Count(s.actors, Waited) + Count(s.actors, Posting) == count
  {
    Conservation(s0, count, steps, s);
  }
}

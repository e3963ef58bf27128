/**
 * The lock-free reference count, as threads that interleave at every atomic access, against the
 * version that holds a lock.
 */
module RefCount {
  import opened Parsing

  const MAX: nat := 0xffff_ffff   // CRYPTO_REFCOUNT_MAX

  datatype Op = Inc | Dec

  datatype Outcome = Incremented | Tested(isZero: bool) | Aborted

  // ---- The locked version ----

  function Locked(count: nat, op: Op): (nat, Outcome) {
    match op
    case Inc => (if count < MAX then count + 1 else count, Incremented)
    case Dec =>
      if count == 0 then (count, Aborted)
      else
        var after := if count < MAX then count - 1 else count;
        (after, Tested(after == 0))
  }

  class LockedCount {
    var count: nat

    constructor (count: nat)
      requires count <= MAX
      ensures this.count == count
    {
      this.count := count;
    }

    method Increment()
      requires count <= MAX
      modifies this
      ensures count == Locked(old(count), Inc).0 <= MAX
    {
      if count < MAX {
        count := count + 1;
      }
    }

    method DecrementAndTestZero() returns (outcome: Outcome)
      requires count <= MAX
      modifies this
      ensures (count, outcome) == Locked(old(count), Dec) && count <= MAX
    {
      if count == 0 {
        return Aborted;
      }
      if count < MAX {
        count := count - 1;
      }
      return Tested(count == 0);
    }
  }

  /** One operation in the order in which operations take effect. */
  datatype Entry = Entry(thread: nat, op: Op, outcome: Outcome)

  /** The count after the operations under the lock, provided each had the outcome the entry says. */
  function Replay(init: nat, log: seq<Entry>): Option<nat> {
    if log == [] then Some(init)
    else
      var c := Replay(init, log[..|log| - 1]);
      var e := log[|log| - 1];
      if c.None? || Locked(c.value, e.op).1 != e.outcome then None else Some(Locked(c.value, e.op).0)
  }

  // ---- The lock-free version ----

  datatype Thread =
    | Idle
    | Called(op: Op)                         // before the atomic load
    | Looping(op: Op, expected: nat)         // at the head of the loop
    | Returning(op: Op, outcome: Outcome)

  datatype Step =
    | Call(t: nat, op: Op)
    | Load(t: nat)
    | Exchange(t: nat, spurious: bool)       // atomic_compare_exchange_weak
    | Leave(t: nat)                          // the loop's exit on a terminal value
    | Return(t: nat)

  /**
   * `log` and `done` are not part of the program: `log` records operations when they take effect,
   * `done` when they return.
   */
  datatype Machine = Machine(count: nat, threads: seq<Thread>, aborted: bool, log: seq<Entry>, done: seq<Entry>)

  /** The values on which the loop ends without writing. */
  predicate Terminal(op: Op, expected: nat) {
    expected == MAX || (op == Dec && expected == 0)
  }

  function NewValue(op: Op, expected: nat): nat
    requires !Terminal(op, expected)
  {
    if op == Inc then expected + 1 else expected - 1
  }

  /** A value read into `expected`; reading a terminal value is where the operation takes effect. */
  function Reads(m: Machine, t: nat, op: Op): Machine
    requires t < |m.threads|
  {
    m.(threads := m.threads[t := Looping(op, m.count)],
       log := m.log + if Terminal(op, m.count) then [Entry(t, op, Locked(m.count, op).1)] else [])
  }

  function After(m: Machine, s: Step): Option<Machine> {
    if m.aborted || s.t >= |m.threads| then None
    else
      var thread := m.threads[s.t];
      match s
      case Call(t, op) => if thread.Idle? then Some(m.(threads := m.threads[t := Called(op)])) else None
      case Load(t) => if thread.Called? then Some(Reads(m, t, thread.op)) else None
      case Exchange(t, spurious) =>
        if !thread.Looping? || Terminal(thread.op, thread.expected) then None
        else if m.count != thread.expected || spurious then Some(Reads(m, t, thread.op))
        else
          var value := NewValue(thread.op, thread.expected);
          var outcome := if thread.op == Inc then Incremented else Tested(value == 0);
          Some(m.(count := value, threads := m.threads[t := Returning(thread.op, outcome)],
                  log := m.log + [Entry(t, thread.op, outcome)]))
      case Leave(t) =>
        if !thread.Looping? || !Terminal(thread.op, thread.expected) then None
        else if thread.op == Dec && thread.expected == 0 then
          Some(m.(aborted := true, threads := m.threads[t := Returning(Dec, Aborted)]))
        else
          var outcome := if thread.op == Inc then Incremented else Tested(false);
          Some(m.(threads := m.threads[t := Returning(thread.op, outcome)]))
      case Return(t) =>
        if !thread.Returning? then None
        else Some(m.(threads := m.threads[t := Idle], done := m.done + [Entry(t, thread.op, thread.outcome)]))
  }

  function Run(m: Machine, steps: seq<Step>): Option<Machine> {
    if steps == [] then Some(m)
    else
      var before := Run(m, steps[..|steps| - 1]);
      if before.None? then None else After(before.value, steps[|steps| - 1])
  }

  predicate Initial(m: Machine, init: nat) {
    init <= MAX && m.count == init && !m.aborted && m.log == [] && m.done == []
    && forall t :: 0 <= t < |m.threads| ==> m.threads[t].Idle?
  }

  // ---- Refinement ----

  /** What a thread has put into effect but not yet returned from. */
  function Pending(thread: Thread, t: nat): seq<Entry> {
    match thread
    case Looping(op, expected) => if Terminal(op, expected) then [Entry(t, op, Locked(expected, op).1)] else []
    case Returning(op, outcome) => [Entry(t, op, outcome)]
    case _ => []
  }

  function Of(entries: seq<Entry>, t: nat): seq<Entry> {
    if entries == [] then []
    else
      var e := entries[|entries| - 1];
      Of(entries[..|entries| - 1], t) + if e.thread == t then [e] else []
  }

  /** The log is a run of the locked version, and every thread sees its own part of it. */
  ghost predicate Linearized(m: Machine, init: nat) {
    m.count <= MAX && Replay(init, m.log) == Some(m.count)
    && forall t :: 0 <= t < |m.threads| ==> ThreadAgrees(m, t)
  }

  ghost predicate ThreadAgrees(m: Machine, t: nat)
    requires t < |m.threads|
  {
    Of(m.log, t) == Of(m.done, t) + Pending(m.threads[t], t)
    && (m.threads[t].Looping? ==> m.threads[t].expected <= MAX)
  }

  lemma OfAdd(entries: seq<Entry>, e: Entry, t: nat)
    ensures Of(entries + [e], t) == Of(entries, t) + if e.thread == t then [e] else []
  {
    assert (entries + [e])[..|entries|] == entries;
  }

  lemma ReplayAdd(init: nat, log: seq<Entry>, e: Entry, count: nat)
    requires Replay(init, log) == Some(count) && Locked(count, e.op).1 == e.outcome
    ensures Replay(init, log + [e]) == Some(Locked(count, e.op).0)
  {
    assert (log + [e])[..|log|] == log;
  }

  /** A thread moves on without effect. */
  lemma Moves(m: Machine, init: nat, t: nat, thread: Thread, aborted: bool)
    requires Linearized(m, init) && t < |m.threads| && Pending(thread, t) == Pending(m.threads[t], t)
    requires thread.Looping? ==> thread.expected <= MAX
    ensures Linearized(m.(threads := m.threads[t := thread], aborted := aborted), init)
  {
    hide Of, Replay, Pending;
    var m' := m.(threads := m.threads[t := thread], aborted := aborted);
    forall u | 0 <= u < |m'.threads| ensures ThreadAgrees(m', u) {
      assert ThreadAgrees(m, u);
    }
  }

  /** A thread's operation takes effect. */
  lemma TakesEffect(m: Machine, init: nat, t: nat, thread: Thread, e: Entry)
    requires Linearized(m, init) && t < |m.threads| && Pending(m.threads[t], t) == []
    requires e.thread == t && Locked(m.count, e.op).1 == e.outcome && Pending(thread, t) == [e]
    requires thread.Looping? ==> thread.expected <= MAX
    ensures Linearized(m.(count := Locked(m.count, e.op).0, threads := m.threads[t := thread], log := m.log + [e]),
                       init)
  {
    hide Of, Replay, Pending;
    var m' := m.(count := Locked(m.count, e.op).0, threads := m.threads[t := thread], log := m.log + [e]);
    ReplayAdd(init, m.log, e, m.count);
    forall u | 0 <= u < |m'.threads| ensures ThreadAgrees(m', u) {
      assert ThreadAgrees(m, u);
      OfAdd(m.log, e, u);
      assert Of(m.done, t) + [] == Of(m.done, t);
    }
  }

  lemma Returns(m: Machine, init: nat, t: nat)
    requires Linearized(m, init) && t < |m.threads| && m.threads[t].Returning?
    ensures var e := Entry(t, m.threads[t].op, m.threads[t].outcome);
            Linearized(m.(threads := m.threads[t := Idle], done := m.done + [e]), init)
  {
    hide Of, Replay;
    var e := Entry(t, m.threads[t].op, m.threads[t].outcome);
    var m' := m.(threads := m.threads[t := Idle], done := m.done + [e]);
    forall u | 0 <= u < |m'.threads| ensures ThreadAgrees(m', u) {
      assert ThreadAgrees(m, u);
      OfAdd(m.done, e, u);
    }
  }

  lemma ReadsRefines(m: Machine, init: nat, t: nat, op: Op)
    requires Linearized(m, init) && t < |m.threads| && Pending(m.threads[t], t) == []
    ensures Linearized(Reads(m, t, op), init)
  {
    hide Linearized;
    assert m.count <= MAX by { CountBounded(m, init); }
    if Terminal(op, m.count) {
      var e := Entry(t, op, Locked(m.count, op).1);
      TakesEffect(m, init, t, Looping(op, m.count), e);
      assert Locked(m.count, op).0 == m.count;
    } else {
      Moves(m, init, t, Looping(op, m.count), m.aborted);
      assert m.log + [] == m.log;
    }
  }

  lemma CountBounded(m: Machine, init: nat)
    requires Linearized(m, init)
    ensures m.count <= MAX
    ensures forall t :: 0 <= t < |m.threads| && m.threads[t].Looping? ==> m.threads[t].expected <= MAX
  {
    forall t | 0 <= t < |m.threads| && m.threads[t].Looping? ensures m.threads[t].expected <= MAX {
      assert ThreadAgrees(m, t);
    }
  }

  lemma StepRefines(m: Machine, s: Step, init: nat)
    requires Linearized(m, init) && After(m, s).Some?
    ensures Linearized(After(m, s).value, init)
    ensures m.log <= After(m, s).value.log && m.done <= After(m, s).value.done
  {
    hide Linearized;
    CountBounded(m, init);
    var thread := m.threads[s.t];
    match s {
      case Call(t, op) => Moves(m, init, t, Called(op), m.aborted);
      case Load(t) => ReadsRefines(m, init, t, thread.op);
      case Exchange(t, spurious) =>
        if m.count != thread.expected || spurious {
          ReadsRefines(m, init, t, thread.op);
        } else {
          var value := NewValue(thread.op, thread.expected);
          var outcome := if thread.op == Inc then Incremented else Tested(value == 0);
          TakesEffect(m, init, t, Returning(thread.op, outcome), Entry(t, thread.op, outcome));
        }
      case Leave(t) =>
        var outcome := Locked(thread.expected, thread.op).1;
        Moves(m, init, t, Returning(thread.op, outcome), thread.op == Dec && thread.expected == 0);
      case Return(t) => Returns(m, init, t);
    }
  }

  /**
   * For every interleaving and every spurious failure: operations take effect one at a time, once
   * each, between their call and their return, with the effect and the outcome they have under the lock.
   */
  lemma {:induction false} Refines(m: Machine, init: nat, steps: seq<Step>)
    requires Initial(m, init) && Run(m, steps).Some?
    ensures Linearized(Run(m, steps).value, init) && |Run(m, steps).value.threads| == |m.threads|
    decreases |steps|
  {
    if steps == [] {
      forall t | 0 <= t < |m.threads| ensures ThreadAgrees(m, t) {
        assert m.threads[t].Idle?;
      }
    } else {
      Refines(m, init, steps[..|steps| - 1]);
      StepRefines(Run(m, steps[..|steps| - 1]).value, steps[|steps| - 1], init);
    }
  }

  /** What has taken effect or returned stays so: effects are in real-time order. */
  lemma {:induction false} HistoryGrows(m: Machine, init: nat, steps: seq<Step>, k: nat)
    requires Initial(m, init) && Run(m, steps).Some? && k <= |steps|
    ensures Run(m, steps[..k]).Some?
    ensures Run(m, steps[..k]).value.log <= Run(m, steps).value.log
    ensures Run(m, steps[..k]).value.done <= Run(m, steps).value.done
    decreases |steps|
  {
    if k == |steps| {
      assert steps[..k] == steps;
    } else {
      var before := steps[..|steps| - 1];
      assert before[..k] == steps[..k];
      HistoryGrows(m, init, before, k);
      Refines(m, init, before);
      StepRefines(Run(m, before).value, steps[|steps| - 1], init);
    }
  }

  // ---- Progress ----

  lemma RunAdd(m: Machine, steps: seq<Step>, s: Step)
    requires Run(m, steps).Some?
    ensures Run(m, steps + [s]) == After(Run(m, steps).value, s)
  {
    assert (steps + [s])[..|steps|] == steps;
  }

  ghost predicate Alone(steps: seq<Step>, t: nat) {
    forall i :: 0 <= i < |steps| ==> steps[i].t == t && !(steps[i].Exchange? && steps[i].spurious)
  }

  /** The operation of thread t was not begun, or has not taken effect. */
  predicate NotInEffect(thread: Thread, op: Op) {
    thread == Idle || thread == Called(op) || (thread.Looping? && thread.op == op && !Terminal(op, thread.expected))
  }

  /** Where an operation of thread t leaves a machine that no other thread touches. */
  function Completed(m: Machine, t: nat, op: Op): Machine
    requires t < |m.threads|
  {
    var (count, outcome) := Locked(m.count, op);
    var e := Entry(t, op, outcome);
    if outcome.Aborted? then
      m.(threads := m.threads[t := Returning(op, outcome)], log := m.log + [e], aborted := true)
    else m.(count := count, threads := m.threads[t := Idle], log := m.log + [e], done := m.done + [e])
  }

  /**
   * An operation that is not disturbed completes, in at most four steps and from wherever it was left, and has the
   * effect and the outcome that it has under the lock.
   */
  lemma CompletesAlone(m: Machine, t: nat, op: Op) returns (steps: seq<Step>)
    requires !m.aborted && m.count <= MAX && t < |m.threads| && NotInEffect(m.threads[t], op)
    ensures |steps| <= 4 && Alone(steps, t) && Run(m, steps) == Some(Completed(m, t, op))
  {
    hide Run;
    steps := [];
    assert Run(m, []) == Some(m) by { RunNothing(m); }
    var at := m;
    if m.threads[t].Idle? {
      RunAdd(m, steps, Call(t, op));
      steps := steps + [Call(t, op)];
      at := m.(threads := m.threads[t := Called(op)]);
    }
    var looping := Reads(m, t, op);
    if !m.threads[t].Looping? {
      assert at.threads[t := Looping(op, m.count)] == looping.threads;
      RunAdd(m, steps, Load(t));
      steps := steps + [Load(t)];
      at := looping;
    } else if m.threads[t].expected != m.count {
      RunAdd(m, steps, Exchange(t, false));
      steps := steps + [Exchange(t, false)];
      at := looping;
    }
    assert at == looping by {
      assert m.log + [] == m.log;
      assert m.threads[t := m.threads[t]] == m.threads;
    }
    FinishesAlone(m, t, op);
    var last := if Terminal(op, m.count) then Leave(t) else Exchange(t, false);
    RunAdd(m, steps, last);
    steps := steps + [last];
    if !Locked(m.count, op).1.Aborted? {
      RunAdd(m, steps, Return(t));
      steps := steps + [Return(t)];
    }
  }

  lemma RunNothing(m: Machine)
    ensures Run(m, []) == Some(m)
  {
  }

  /** The last steps, from a loop that has just read the count. */
  lemma FinishesAlone(m: Machine, t: nat, op: Op)
    requires !m.aborted && m.count <= MAX && t < |m.threads|
    ensures var last := if Terminal(op, m.count) then Leave(t) else Exchange(t, false);
            var r := After(Reads(m, t, op), last);
            r.Some?
            && if Locked(m.count, op).1.Aborted? then r.value == Completed(m, t, op)
               else After(r.value, Return(t)) == Some(Completed(m, t, op))
  {
    var outcome := Locked(m.count, op).1;
    assert m.threads[t := Looping(op, m.count)][t := Returning(op, outcome)] == m.threads[t := Returning(op, outcome)];
    assert m.threads[t := Returning(op, outcome)][t := Idle] == m.threads[t := Idle];
    assert m.log + [] == m.log;
  }

  // ---- Saturation and conservation ----

  lemma {:induction false} ReplaySaturated(init: nat, log: seq<Entry>, k: nat)
    requires init <= MAX && k <= |log| && Replay(init, log).Some? && Replay(init, log[..k]) == Some(MAX)
    ensures Replay(init, log) == Some(MAX)
    decreases |log|
  {
    if k < |log| {
      assert log[..|log| - 1][..k] == log[..k];
      ReplaySaturated(init, log[..|log| - 1], k);
    } else {
      assert log[..k] == log;
    }
  }

  /** A count that has reached the maximum stays there. */
  lemma SaturationIsPermanent(m: Machine, init: nat, steps: seq<Step>, k: nat)
    requires Initial(m, init) && Run(m, steps).Some? && k <= |steps|
    ensures Run(m, steps[..k]).Some?
    ensures Run(m, steps[..k]).value.count == MAX ==> Run(m, steps).value.count == MAX
  {
    HistoryGrows(m, init, steps, k);
    Refines(m, init, steps);
    Refines(m, init, steps[..k]);
    var log, log' := Run(m, steps[..k]).value.log, Run(m, steps).value.log;
    assert log'[..|log|] == log;
    if Run(m, steps[..k]).value.count == MAX {
      ReplaySaturated(init, log', |log|);
    }
  }

  function Incs(log: seq<Entry>): nat {
    if log == [] then 0 else Incs(log[..|log| - 1]) + if log[|log| - 1].op == Inc then 1 else 0
  }

  /** Decrements that did not abort. */
  function Decs(log: seq<Entry>): nat {
    if log == [] then 0 else Decs(log[..|log| - 1]) + if log[|log| - 1].outcome.Tested? then 1 else 0
  }

  lemma {:induction false} ReplayBounded(init: nat, log: seq<Entry>)
    requires init <= MAX && Replay(init, log).Some?
    ensures Replay(init, log).value <= MAX
    decreases |log|
  {
    if log != [] {
      ReplayBounded(init, log[..|log| - 1]);
    }
  }

  lemma {:induction false} ReplayCounts(init: nat, log: seq<Entry>)
    requires init <= MAX && Replay(init, log).Some? && Replay(init, log).value != MAX
    ensures Replay(init, log).value == init + Incs(log) - Decs(log)
    decreases |log|
  {
    if log != [] {
      ReplayBounded(init, log[..|log| - 1]);
      ReplayCounts(init, log[..|log| - 1]);
    }
  }

  /** Unless saturated, the count is what it started with, plus the increments, minus the decrements. */
  lemma CountIsConserved(m: Machine, init: nat, steps: seq<Step>)
    requires Initial(m, init) && Run(m, steps).Some? && Run(m, steps).value.count != MAX
    ensures var r := Run(m, steps).value; r.count == init + Incs(r.log) - Decs(r.log)
  {
    Refines(m, init, steps);
    ReplayCounts(init, Run(m, steps).value.log);
  }

  /** The entry at which a decrement says zero is the one that takes the count from one to zero. */
  lemma {:induction false} ZeroMeansLast(init: nat, log: seq<Entry>, i: nat)
    requires init <= MAX && Replay(init, log).Some? && i < |log|
    ensures Replay(init, log[..i]).Some? && Replay(init, log[..i + 1]).Some?
    ensures log[i].outcome == Tested(true)
            <==> log[i].op == Dec && Replay(init, log[..i]) == Some(1) && Replay(init, log[..i + 1]) == Some(0)
    decreases |log|
  {
    if i == |log| - 1 {
      assert log[..i + 1] == log;
    } else {
      var before := log[..|log| - 1];
      ZeroMeansLast(init, before, i);
      assert before[..i] == log[..i] && before[..i + 1] == log[..i + 1];
    }
  }

  /** Without an increment in between, no second decrement says zero: what is counted is freed once. */
  lemma {:induction false} StaysZero(init: nat, log: seq<Entry>, i: nat, j: nat)
    requires init <= MAX && Replay(init, log).Some? && i < j <= |log| && log[i].outcome == Tested(true)
    requires forall k :: i < k < j ==> log[k].op != Inc
    ensures Replay(init, log[..j]) == Some(0)
    decreases j
  {
    ZeroMeansLast(init, log, i);
    if j > i + 1 {
      StaysZero(init, log, i, j - 1);
      ZeroMeansLast(init, log, j - 1);
      assert log[..j][..j - 1] == log[..j - 1];
      assert log[j - 1].op != Inc;
    }
  }

  lemma FreedOnce(m: Machine, init: nat, steps: seq<Step>, i: nat, j: nat)
    requires Initial(m, init) && Run(m, steps).Some?
    requires var log := Run(m, steps).value.log;
             i < j < |log| && log[i].outcome == Tested(true) && log[j].outcome == Tested(true)
    ensures exists k :: i < k < j && Run(m, steps).value.log[k].op == Inc
  {
    Refines(m, init, steps);
    var log := Run(m, steps).value.log;
    if forall k :: i < k < j ==> log[k].op != Inc {
      StaysZero(init, log, i, j);
      ZeroMeansLast(init, log, j);
    }
  }

  // ---- When no call is under way ----

  /** Histories that look the same to every thread count the same. */
  lemma {:induction false} OfDetermines(a: seq<Entry>, b: seq<Entry>, n: nat)
    requires forall t :: 0 <= t < n ==> Of(a, t) == Of(b, t)
    requires forall i :: 0 <= i < |a| ==> a[i].thread < n
    requires forall i :: 0 <= i < |b| ==> b[i].thread < n
    ensures Incs(a) == Incs(b) && Decs(a) == Decs(b)
  {
    SumOver(a, n);
    SumOver(b, n);
    SumsAgree(a, b, n);
  }

  function IncsUpTo(a: seq<Entry>, n: nat): nat {
    if n == 0 then 0 else IncsUpTo(a, n - 1) + Incs(Of(a, n - 1))
  }

  function DecsUpTo(a: seq<Entry>, n: nat): nat {
    if n == 0 then 0 else DecsUpTo(a, n - 1) + Decs(Of(a, n - 1))
  }

  lemma {:induction false} SumsAgree(a: seq<Entry>, b: seq<Entry>, n: nat)
    requires forall t :: 0 <= t < n ==> Of(a, t) == Of(b, t)
    ensures IncsUpTo(a, n) == IncsUpTo(b, n) && DecsUpTo(a, n) == DecsUpTo(b, n)
  {
    if n > 0 {
      SumsAgree(a, b, n - 1);
    }
  }

  lemma {:induction false} SumOver(a: seq<Entry>, n: nat)
    requires forall i :: 0 <= i < |a| ==> a[i].thread < n
    ensures IncsUpTo(a, n) == Incs(a) && DecsUpTo(a, n) == Decs(a)
    decreases |a|
  {
    if a == [] {
      NothingUpTo(n);
    } else {
      hide Of, Incs, Decs, IncsUpTo, DecsUpTo;
      var before, e := a[..|a| - 1], a[|a| - 1];
      assert a == before + [e];
      SumOver(before, n);
      OneMore(before, e, n);
      CountAdd(before, e);
    }
  }

  lemma {:induction false} NothingUpTo(n: nat)
    ensures IncsUpTo([], n) == 0 && DecsUpTo([], n) == 0
  {
    if n > 0 {
      NothingUpTo(n - 1);
    }
  }

  lemma {:induction false} OneMore(a: seq<Entry>, e: Entry, n: nat)
    ensures IncsUpTo(a + [e], n) == IncsUpTo(a, n) + if e.thread < n && e.op == Inc then 1 else 0
    ensures DecsUpTo(a + [e], n) == DecsUpTo(a, n) + if e.thread < n && e.outcome.Tested? then 1 else 0
    decreases n
  {
    hide Of, Incs, Decs;
    if n > 0 {
      OneMore(a, e, n - 1);
      OfAdd(a, e, n - 1);
      CountAdd(Of(a, n - 1), e);
      assert Of(a, n - 1) + [] == Of(a, n - 1);
    }
  }

  lemma CountAdd(o: seq<Entry>, e: Entry)
    ensures Incs(o + [e]) == Incs(o) + if e.op == Inc then 1 else 0
    ensures Decs(o + [e]) == Decs(o) + if e.outcome.Tested? then 1 else 0
  {
    assert (o + [e])[..|o|] == o;
  }

  lemma {:induction false} ThreadsOnly(m: Machine, init: nat, steps: seq<Step>)
    requires Initial(m, init) && Run(m, steps).Some?
    ensures var r := Run(m, steps).value;
            |r.threads| == |m.threads|
            && (forall i :: 0 <= i < |r.log| ==> r.log[i].thread < |m.threads|)
            && (forall i :: 0 <= i < |r.done| ==> r.done[i].thread < |m.threads|)
    decreases |steps|
  {
    if steps != [] {
      ThreadsOnly(m, init, steps[..|steps| - 1]);
    }
  }

  /** So between calls the count is the initial one plus the increments and minus the decrements that returned. */
  lemma CountWhenQuiet(m: Machine, init: nat, steps: seq<Step>)
    requires Initial(m, init) && Run(m, steps).Some?
    requires var r := Run(m, steps).value;
             r.count != MAX && forall t :: 0 <= t < |r.threads| ==> r.threads[t].Idle?
    ensures var r := Run(m, steps).value; r.count == init + Incs(r.done) - Decs(r.done)
  {
    var r := Run(m, steps).value;
    CountIsConserved(m, init, steps);
    Refines(m, init, steps);
    ThreadsOnly(m, init, steps);
    forall t | 0 <= t < |r.threads| ensures Of(r.log, t) == Of(r.done, t) {
      assert ThreadAgrees(r, t);
    }
    OfDetermines(r.log, r.done, |r.threads|);
  }
}

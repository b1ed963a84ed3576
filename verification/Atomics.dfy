/** The fetch-add, fetch-and-store, load and store of `my_atomic.h`, built from compare-and-swap,
    as threads that take turns at the atomic actions of their retry loops. */
module Atomics {

  const WIDTH := 0x1_0000_0000

  type Word = x: int | 0 <= x < WIDTH

  /** Addition as the machine does it. */
  function Plus(a: int, b: int): Word {
    (a + b) % WIDTH
  }

  datatype Op = Add(v: Word) | Fas(v: Word) | Load | Store(v: Word)

  /** What an operation is meant to do to the cell, all at once. */
  function Effect(op: Op, found: Word): Word {
    match op
    case Add(v) => Plus(found, v)
    case Fas(v) => v
    case Load => found
    case Store(v) => v
  }

  /** my_atomic_cas: the new cell, the new `*old`, and whether the swap was done. */
  function Cas(cell: Word, expected: Word, to: Word): (Word, Word, bool) {
    if cell == expected then (to, expected, true) else (cell, cell, false)
  }

  /** Where a thread is inside its current operation: before it, or in the retry loop holding
      the value `tmp` that it saw when `mark` operations had taken effect. */
  datatype Phase = Idle | Trying(tmp: Word, mark: nat)

  /** A thread with the operations ahead of it, the values it has returned, and the number of its
      swaps that failed. */
  datatype Thread = Thread(todo: seq<Op>, phase: Phase, rets: seq<Word>, fails: nat)

  /** An operation taking effect: whose, which, and the value it found. */
  datatype Event = Event(tid: nat, op: Op, found: Word)

  datatype State = State(cell: Word, threads: seq<Thread>, log: seq<Event>)

  function Finish(s: State, i: nat, cell: Word, ret: Word): State
    requires i < |s.threads| && s.threads[i].todo != []
  {
    var th := s.threads[i];
    State(cell, s.threads[i := Thread(th.todo[1..], Idle, th.rets + [ret], th.fails)],
          s.log + [Event(i, th.todo[0], ret)])
  }

  /** Thread `i` has seen `tmp` in the cell and goes on trying. */
  function Look(s: State, i: nat, tmp: Word, fails: nat): State
    requires i < |s.threads|
  {
    var th := s.threads[i];
    State(s.cell, s.threads[i := Thread(th.todo, Trying(tmp, |s.log|), th.rets, fails)], s.log)
  }

  /** The next atomic action of thread `i`: the first read of the cell, or a swap.  A load is one
      swap of 0 for 0. */
  function Step(s: State, i: nat): State
    requires i < |s.threads|
  {
    var th := s.threads[i];
    if th.todo == [] then s
    else if th.todo[0].Load? then
      var (cell, ret, _) := Cas(s.cell, 0, 0);
      Finish(s, i, cell, ret)
    else if th.phase.Idle? then
      Look(s, i, s.cell, th.fails)
    else
      var to: Word := if th.todo[0].Add? then Plus(th.phase.tmp, th.todo[0].v) else th.todo[0].v;
      var (cell, tmp, ok) := Cas(s.cell, th.phase.tmp, to);
      if ok then Finish(s, i, cell, tmp)
      else Look(s, i, tmp, th.fails + 1)
  }

  /** A run: `schedule` says whose turn it is. */
  function Run(s: State, schedule: seq<nat>): (r: State)
    requires forall k :: 0 <= k < |schedule| ==> schedule[k] < |s.threads|
    ensures |r.threads| == |s.threads|
    decreases |schedule|
  {
    if schedule == [] then s
    else Step(Run(s, schedule[..|schedule| - 1]), schedule[|schedule| - 1])
  }

  predicate Fresh(s: State) {
    s.log == [] && forall i :: 0 <= i < |s.threads| ==>
      s.threads[i].phase == Idle && s.threads[i].rets == [] && s.threads[i].fails == 0
  }

  // ---- The sequential meaning of a log ----

  /** The cell after the logged operations, done one after the other. */
  function Replay(init: Word, log: seq<Event>): Word {
    if log == [] then init else Effect(log[|log| - 1].op, Replay(init, log[..|log| - 1]))
  }

  /** Each logged operation found the value that its predecessors left. */
  ghost predicate Legal(init: Word, log: seq<Event>) {
    forall k :: 0 <= k < |log| ==> log[k].found == Replay(init, log[..k])
  }

  /** What thread `i` did, in order, and what it got back. */
  function OpsOf(log: seq<Event>, i: nat): seq<Op> {
    if log == [] then []
    else
      var e := log[|log| - 1];
      OpsOf(log[..|log| - 1], i) + if e.tid == i then [e.op] else []
  }

  function RetsOf(log: seq<Event>, i: nat): seq<Word> {
    if log == [] then []
    else
      var e := log[|log| - 1];
      RetsOf(log[..|log| - 1], i) + if e.tid == i then [e.found] else []
  }

  /** How many operations of other threads are logged. */
  function Others(log: seq<Event>, i: nat): nat {
    if log == [] then 0
    else Others(log[..|log| - 1], i) + if log[|log| - 1].tid != i then 1 else 0
  }

  /** Thread `i` and the log agree: program order, returned values, and the value it holds. */
  ghost predicate ThreadOk(program: seq<Op>, init: Word, s: State, i: nat)
    requires i < |s.threads|
  {
    var th := s.threads[i];
    && OpsOf(s.log, i) + th.todo == program
    && RetsOf(s.log, i) == th.rets
    && match th.phase
       case Idle => th.fails <= Others(s.log, i)
       case Trying(tmp, mark) =>
         && mark <= |s.log| && tmp == Replay(init, s.log[..mark])
         && OpsOf(s.log, i) == OpsOf(s.log[..mark], i)
         && th.fails <= Others(s.log[..mark], i)
  }

  ghost predicate Linearized(s0: State, s: State)
    requires |s.threads| == |s0.threads|
  {
    && s.cell == Replay(s0.cell, s.log) && Legal(s0.cell, s.log)
    && (forall k :: 0 <= k < |s.log| ==> s.log[k].tid < |s.threads|)
    && forall i :: 0 <= i < |s.threads| ==> ThreadOk(s0.threads[i].todo, s0.cell, s, i)
  }

  lemma LogGrows(log: seq<Event>, e: Event, i: nat)
    ensures OpsOf(log + [e], i) == OpsOf(log, i) + if e.tid == i then [e.op] else []
    ensures RetsOf(log + [e], i) == RetsOf(log, i) + if e.tid == i then [e.found] else []
    ensures Others(log + [e], i) == Others(log, i) + if e.tid != i then 1 else 0
  {
    assert (log + [e])[..|log|] == log;
  }

  lemma ReplayGrows(init: Word, log: seq<Event>, e: Event)
    requires Legal(init, log) && e.found == Replay(init, log)
    ensures Legal(init, log + [e]) && Replay(init, log + [e]) == Effect(e.op, e.found)
  {
    assert (log + [e])[..|log|] == log;
    forall k | 0 <= k < |log| + 1
      ensures (log + [e])[k].found == Replay(init, (log + [e])[..k])
    {
      if k < |log| { assert (log + [e])[..k] == log[..k]; }
    }
  }

  /** Every logged operation is the thread's own or another's. */
  lemma {:induction false} Counted(log: seq<Event>, i: nat)
    ensures |OpsOf(log, i)| + Others(log, i) == |log|
  {
    if log != [] { Counted(log[..|log| - 1], i); }
  }

  /** What logging an operation of its own does to a thread ... */
  lemma FinishOwn(program: seq<Op>, init: Word, s: State, i: nat)
    requires i < |s.threads| && s.threads[i].todo != [] && ThreadOk(program, init, s, i)
    ensures ThreadOk(program, init, Finish(s, i, Effect(s.threads[i].todo[0], s.cell), s.cell), i)
  {
    var th := s.threads[i];
    var e := Event(i, th.todo[0], s.cell);
    LogGrows(s.log, e, i);
    Shifted(OpsOf(s.log, i), th.todo);
    if th.phase.Trying? {
      Counted(s.log, i);
      Counted(s.log[..th.phase.mark], i);
    }
  }

  lemma Shifted(done: seq<Op>, todo: seq<Op>)
    requires todo != []
    ensures (done + [todo[0]]) + todo[1..] == done + todo
  {}

  /** ... and to another one. */
  lemma FinishOther(program: seq<Op>, init: Word, s: State, i: nat, j: nat)
    requires i < |s.threads| && s.threads[i].todo != [] && j < |s.threads| && j != i && ThreadOk(program, init, s, j)
    ensures ThreadOk(program, init, Finish(s, i, Effect(s.threads[i].todo[0], s.cell), s.cell), j)
  {
    var e := Event(i, s.threads[i].todo[0], s.cell);
    LogGrows(s.log, e, j);
    if s.threads[j].phase.Trying? {
      var m := s.threads[j].phase.mark;
      assert (s.log + [e])[..m] == s.log[..m];
    }
  }

  /** An operation of thread `i` is logged. */
  lemma FinishLinearized(s0: State, s: State, i: nat)
    requires |s.threads| == |s0.threads| && i < |s.threads| && s.threads[i].todo != [] && Linearized(s0, s)
    ensures Linearized(s0, Finish(s, i, Effect(s.threads[i].todo[0], s.cell), s.cell))
  {
    var th := s.threads[i];
    var s' := Finish(s, i, Effect(th.todo[0], s.cell), s.cell);
    ReplayGrows(s0.cell, s.log, Event(i, th.todo[0], s.cell));
    forall j | 0 <= j < |s.threads| ensures ThreadOk(s0.threads[j].todo, s0.cell, s', j) {
      assert ThreadOk(s0.threads[j].todo, s0.cell, s, j);
      if j == i {
        FinishOwn(s0.threads[i].todo, s0.cell, s, i);
      } else {
        FinishOther(s0.threads[j].todo, s0.cell, s, i, j);
      }
    }
  }

  /** A thread reads the cell, at the start or because its swap failed. */
  lemma ReadLinearized(s0: State, s: State, i: nat, fails: nat)
    requires |s.threads| == |s0.threads| && i < |s.threads| && Linearized(s0, s)
    requires fails <= Others(s.log, i)
    ensures Linearized(s0, Look(s, i, s.cell, fails))
  {
    var s' := Look(s, i, s.cell, fails);
    assert s.log[..|s.log|] == s.log;
    forall j | 0 <= j < |s.threads| ensures ThreadOk(s0.threads[j].todo, s0.cell, s', j) {
      assert ThreadOk(s0.threads[j].todo, s0.cell, s, j);
    }
  }

  /** Between a thread's read and its failed swap only other threads' operations took effect,
      and one of them changed the cell. */
  lemma FailedSwap(s0: State, s: State, i: nat)
    requires |s.threads| == |s0.threads| && i < |s.threads| && Linearized(s0, s)
    requires s.threads[i].phase.Trying? && s.cell != s.threads[i].phase.tmp
    ensures var m := s.threads[i].phase.mark;
      && m < |s.log| && Others(s.log, i) == Others(s.log[..m], i) + |s.log| - m
      && exists k :: m <= k < |s.log| && Effect(s.log[k].op, s.log[k].found) != s.log[k].found
  {
    assert ThreadOk(s0.threads[i].todo, s0.cell, s, i);
    var m := s.threads[i].phase.mark;
    Counted(s.log, i);
    Counted(s.log[..m], i);
    SomeoneWrote(s0.cell, s.log, m);
  }

  lemma {:induction false} SomeoneWrote(init: Word, log: seq<Event>, m: nat)
    requires Legal(init, log) && m <= |log| && Replay(init, log) != Replay(init, log[..m])
    ensures m < |log| && exists k :: m <= k < |log| && Effect(log[k].op, log[k].found) != log[k].found
    decreases |log|
  {
    assert log[..|log|] == log;
    var n := |log| - 1;
    if Effect(log[n].op, log[n].found) == log[n].found {
      var l := log[..n];
      assert l[..m] == log[..m];
      assert forall k :: 0 <= k < n ==> l[k] == log[k] && l[..k] == log[..k];
      SomeoneWrote(init, l, m);
      var k :| m <= k < |l| && Effect(l[k].op, l[k].found) != l[k].found;
      assert log[k] == l[k];
    }
  }

  lemma RetryLinearized(s0: State, s: State, i: nat)
    requires |s.threads| == |s0.threads| && i < |s.threads| && Linearized(s0, s)
    requires s.threads[i].phase.Trying? && s.cell != s.threads[i].phase.tmp
    ensures Linearized(s0, Look(s, i, s.cell, s.threads[i].fails + 1))
  {
    assert ThreadOk(s0.threads[i].todo, s0.cell, s, i);
    FailedSwap(s0, s, i);
    ReadLinearized(s0, s, i, s.threads[i].fails + 1);
  }

  lemma BeginLinearized(s0: State, s: State, i: nat)
    requires |s.threads| == |s0.threads| && i < |s.threads| && Linearized(s0, s) && s.threads[i].phase.Idle?
    ensures Linearized(s0, Look(s, i, s.cell, s.threads[i].fails))
  {
    assert ThreadOk(s0.threads[i].todo, s0.cell, s, i);
    ReadLinearized(s0, s, i, s.threads[i].fails);
  }

  /** What an action amounts to: an operation takes effect exactly when it is a load or its swap
      finds the value that the thread holds; otherwise the thread looks at the cell. */
  lemma StepCases(s: State, i: nat)
    requires i < |s.threads|
    ensures var th, s' := s.threads[i], Step(s, i);
      && (th.todo == [] ==> s' == s)
      && (th.todo != [] && (th.todo[0].Load? || (th.phase.Trying? && s.cell == th.phase.tmp)) ==>
            s' == Finish(s, i, Effect(th.todo[0], s.cell), s.cell))
      && (th.todo != [] && !th.todo[0].Load? && th.phase.Idle? ==> s' == Look(s, i, s.cell, th.fails))
      && (th.todo != [] && !th.todo[0].Load? && th.phase.Trying? && s.cell != th.phase.tmp ==>
            s' == Look(s, i, s.cell, th.fails + 1))
  {}

  /** Every action keeps the log an exact account of what has happened. */
  lemma StepLinearized(s0: State, s: State, i: nat)
    requires |s.threads| == |s0.threads| && i < |s.threads| && Linearized(s0, s)
    ensures Linearized(s0, Step(s, i))
  {
    StepCases(s, i);
    var th := s.threads[i];
    if th.todo != [] {
      if th.todo[0].Load? || (th.phase.Trying? && s.cell == th.phase.tmp) {
        FinishLinearized(s0, s, i);
      } else if th.phase.Idle? {
        BeginLinearized(s0, s, i);
      } else {
        RetryLinearized(s0, s, i);
      }
    }
  }

  /** For any number of threads and any interleaving: the operations take effect one at a time at
      their successful swap, each returns the value it found there, and every thread's operations
      do so in its program order.  A thread fails at most as often as others succeed. */
  lemma {:induction false} RunLinearized(s0: State, schedule: seq<nat>)
    requires Fresh(s0) && forall k :: 0 <= k < |schedule| ==> schedule[k] < |s0.threads|
    ensures Linearized(s0, Run(s0, schedule))
    ensures forall i :: 0 <= i < |s0.threads| ==>
      Run(s0, schedule).threads[i].fails <= Others(Run(s0, schedule).log, i)
    decreases |schedule|
  {
    var s := Run(s0, schedule);
    if schedule == [] {
      assert forall i :: 0 <= i < |s0.threads| ==> ThreadOk(s0.threads[i].todo, s0.cell, s0, i);
    } else {
      var n := |schedule| - 1;
      RunLinearized(s0, schedule[..n]);
      StepLinearized(s0, Run(s0, schedule[..n]), schedule[n]);
    }
    forall i | 0 <= i < |s.threads| ensures s.threads[i].fails <= Others(s.log, i) {
      assert ThreadOk(s0.threads[i].todo, s0.cell, s, i);
      if s.threads[i].phase.Trying? {
        Counted(s.log, i);
        Counted(s.log[..s.threads[i].phase.mark], i);
      }
    }
  }

  // ---- Sums ----

  function Summand(op: Op): int {
    if op.Add? then op.v else 0
  }

  function Sum(ops: seq<Op>): int {
    if ops == [] then 0 else Sum(ops[..|ops| - 1]) + Summand(ops[|ops| - 1])
  }

  function LogSum(log: seq<Event>): int {
    if log == [] then 0 else LogSum(log[..|log| - 1]) + Summand(log[|log| - 1].op)
  }

  /** The sum over the first `n` threads of what each has added. */
  function ThreadSum(log: seq<Event>, n: nat): int {
    if n == 0 then 0 else ThreadSum(log, n - 1) + Sum(OpsOf(log, n - 1))
  }

  function ProgramSum(threads: seq<Thread>): int {
    if threads == [] then 0 else ProgramSum(threads[..|threads| - 1]) + Sum(threads[|threads| - 1].todo)
  }

  lemma {:induction false} ReplayAdds(init: Word, log: seq<Event>)
    requires forall k :: 0 <= k < |log| ==> log[k].op.Add? || log[k].op.Load?
    ensures Replay(init, log) == Plus(init, LogSum(log))
  {
    if log != [] {
      var n := |log| - 1;
      ReplayAdds(init, log[..n]);
      PlusAssoc(init, LogSum(log[..n]), Summand(log[n].op));
    }
  }

  lemma PlusAssoc(a: int, b: int, c: int)
    ensures Plus(Plus(a, b), c) == Plus(a, b + c)
    ensures c == 0 ==> Plus(Plus(a, b), c) == Plus(a, b)
  {
    assert a + b == WIDTH * ((a + b) / WIDTH) + Plus(a, b);
  }

  lemma SumSnoc(ops: seq<Op>, op: Op)
    ensures Sum(ops + [op]) == Sum(ops) + Summand(op) && ops + [] == ops
  {
    assert (ops + [op])[..|ops|] == ops;
  }

  lemma {:induction false} ThreadSumGrows(log: seq<Event>, e: Event, n: nat)
    ensures ThreadSum(log + [e], n) == ThreadSum(log, n) + if e.tid < n then Summand(e.op) else 0
  {
    if n > 0 {
      ThreadSumGrows(log, e, n - 1);
      LogGrows(log, e, n - 1);
      SumSnoc(OpsOf(log, n - 1), e.op);
    }
  }

  lemma {:induction false} LogSumByThread(log: seq<Event>, n: nat)
    requires forall k :: 0 <= k < |log| ==> log[k].tid < n
    ensures LogSum(log) == ThreadSum(log, n)
  {
    if log == [] {
      NoSum(n);
    } else {
      var m := |log| - 1;
      LogSumByThread(log[..m], n);
      ThreadSumGrows(log[..m], log[m], n);
      assert log[..m] + [log[m]] == log;
    }
  }

  lemma {:induction false} NoSum(n: nat)
    ensures ThreadSum([], n) == 0
  {
    if n > 0 { NoSum(n - 1); }
  }

  lemma {:induction false} LoggedOp(log: seq<Event>, k: nat)
    requires k < |log|
    ensures log[k].op in OpsOf(log, log[k].tid)
  {
    var n := |log| - 1;
    if k < n {
      LoggedOp(log[..n], k);
    }
  }

  lemma {:induction false} FinishedSum(log: seq<Event>, threads: seq<Thread>)
    requires forall i :: 0 <= i < |threads| ==> OpsOf(log, i) == threads[i].todo
    ensures ThreadSum(log, |threads|) == ProgramSum(threads)
  {
    if threads != [] { FinishedSum(log, threads[..|threads| - 1]); }
  }

  ghost predicate OnlyAdds(ops: seq<Op>) {
    forall op :: op in ops ==> op.Add? || op.Load?
  }

  lemma LoggedAdds(s0: State, s: State)
    requires |s.threads| == |s0.threads| && Linearized(s0, s)
    requires forall i :: 0 <= i < |s0.threads| ==> OnlyAdds(s0.threads[i].todo)
    ensures forall k :: 0 <= k < |s.log| ==> s.log[k].op.Add? || s.log[k].op.Load?
  {
    forall k | 0 <= k < |s.log| ensures s.log[k].op.Add? || s.log[k].op.Load? {
      var i := s.log[k].tid;
      LoggedOp(s.log, k);
      assert ThreadOk(s0.threads[i].todo, s0.cell, s, i);
      assert s.log[k].op in OpsOf(s.log, i) + s.threads[i].todo;
      assert OnlyAdds(s0.threads[i].todo);
    }
  }

  /** At any moment of any run of adds and loads the cell holds the initial value plus what the
      additions done so far have added, modulo the word size. */
  lemma AddsSoFar(s0: State, schedule: seq<nat>)
    requires Fresh(s0) && forall k :: 0 <= k < |schedule| ==> schedule[k] < |s0.threads|
    requires forall i :: 0 <= i < |s0.threads| ==> OnlyAdds(s0.threads[i].todo)
    ensures Run(s0, schedule).cell == Plus(s0.cell, LogSum(Run(s0, schedule).log))
  {
    var s := Run(s0, schedule);
    RunLinearized(s0, schedule);
    LoggedAdds(s0, s);
    ReplayAdds(s0.cell, s.log);
  }

  /** A run that has ended has logged what the programs add. */
  lemma FinishedLog(s0: State, s: State)
    requires |s.threads| == |s0.threads| && Linearized(s0, s)
    requires forall i :: 0 <= i < |s.threads| ==> s.threads[i].todo == []
    ensures LogSum(s.log) == ProgramSum(s0.threads)
  {
    forall i | 0 <= i < |s0.threads| ensures OpsOf(s.log, i) == s0.threads[i].todo {
      assert ThreadOk(s0.threads[i].todo, s0.cell, s, i);
      assert OpsOf(s.log, i) + [] == OpsOf(s.log, i);
    }
    LogSumByThread(s.log, |s0.threads|);
    FinishedSum(s.log, s0.threads);
  }

  /** Once all threads have finished adding, the cell holds the initial value plus everything
      added, modulo the word size; nothing is lost and nothing added twice. */
  lemma AddsTotal(s0: State, schedule: seq<nat>)
    requires Fresh(s0) && forall k :: 0 <= k < |schedule| ==> schedule[k] < |s0.threads|
    requires forall i :: 0 <= i < |s0.threads| ==> OnlyAdds(s0.threads[i].todo)
    requires forall i :: 0 <= i < |s0.threads| ==> Run(s0, schedule).threads[i].todo == []
    ensures Run(s0, schedule).cell == Plus(s0.cell, ProgramSum(s0.threads))
  {
    AddsSoFar(s0, schedule);
    RunLinearized(s0, schedule);
    FinishedLog(s0, Run(s0, schedule));
  }

  function Writes(log: seq<Event>): seq<Event> {
    if log == [] then []
    else Writes(log[..|log| - 1]) + if log[|log| - 1].op.Load? then [] else [log[|log| - 1]]
  }

  lemma {:induction false} WritesReplay(init: Word, log: seq<Event>)
    ensures Replay(init, Writes(log)) == Replay(init, log)
  {
    if log != [] {
      var n := |log| - 1;
      WritesReplay(init, log[..n]);
      var w := Writes(log[..n]);
      assert (w + [log[n]])[..|w|] == w && w + [] == w;
    }
  }

  /** A load is one swap of 0 for 0, done or failed: it returns the cell and leaves it. */
  lemma LoadStep(s: State, i: nat)
    requires i < |s.threads| && s.threads[i].todo != [] && s.threads[i].todo[0] == Load
    ensures Step(s, i) == Finish(s, i, s.cell, s.cell)
  {}

  /** After any run the cell is what the other operations alone would have left. */
  lemma LoadsInvisible(s0: State, schedule: seq<nat>)
    requires Fresh(s0) && forall k :: 0 <= k < |schedule| ==> schedule[k] < |s0.threads|
    ensures Run(s0, schedule).cell == Replay(s0.cell, Writes(Run(s0, schedule).log))
  {
    RunLinearized(s0, schedule);
    WritesReplay(s0.cell, Run(s0, schedule).log);
  }

  // ---- What the cell holds, without the effects ----

  /** The value that the last fetch-and-store or store put into the cell. */
  function LastStored(init: Word, log: seq<Event>): Word {
    if log == [] then init
    else match log[|log| - 1].op
         case Fas(v) => v
         case Store(v) => v
         case _ => LastStored(init, log[..|log| - 1])
  }

  /** What has been added since then. */
  function AddedSince(log: seq<Event>): int {
    if log == [] then 0
    else match log[|log| - 1].op
         case Fas(_) => 0
         case Store(_) => 0
         case Add(v) => AddedSince(log[..|log| - 1]) + v
         case Load => AddedSince(log[..|log| - 1])
  }

  function Meaning(init: Word, log: seq<Event>): Word {
    (LastStored(init, log) + AddedSince(log)) % 0x1_0000_0000
  }

  lemma {:induction false} ReplayMeans(init: Word, log: seq<Event>)
    ensures Replay(init, log) == Meaning(init, log)
  {
    if log != [] {
      var n := |log| - 1;
      ReplayMeans(init, log[..n]);
      if log[n].op.Add? {
        PlusAssoc(LastStored(init, log[..n]), AddedSince(log[..n]), log[n].op.v);
      }
    }
  }

  lemma FoundMeans(init: Word, log: seq<Event>, k: nat)
    requires Legal(init, log) && k < |log|
    ensures log[k].found == Meaning(init, log[..k])
  {
    ReplayMeans(init, log[..k]);
  }

  /** After any run of any programs the cell holds the last stored value plus what was added since,
      modulo the word size, and so does what every operation returned. */
  lemma RunMeans(s0: State, schedule: seq<nat>)
    requires Fresh(s0) && forall k :: 0 <= k < |schedule| ==> schedule[k] < |s0.threads|
    ensures Run(s0, schedule).cell == Meaning(s0.cell, Run(s0, schedule).log)
    ensures forall k :: 0 <= k < |Run(s0, schedule).log| ==>
      Run(s0, schedule).log[k].found == Meaning(s0.cell, Run(s0, schedule).log[..k])
    ensures forall i :: 0 <= i < |s0.threads| ==> Run(s0, schedule).threads[i].rets == RetsOf(Run(s0, schedule).log, i)
  {
    RunLinearized(s0, schedule);
    LinearMeans(s0, Run(s0, schedule));
  }

  lemma LinearMeans(s0: State, s: State)
    requires |s.threads| == |s0.threads| && Linearized(s0, s)
    ensures s.cell == Meaning(s0.cell, s.log)
    ensures forall k :: 0 <= k < |s.log| ==> s.log[k].found == Meaning(s0.cell, s.log[..k])
    ensures forall i :: 0 <= i < |s0.threads| ==> s.threads[i].rets == RetsOf(s.log, i)
  {
    ReplayMeans(s0.cell, s.log);
    forall k | 0 <= k < |s.log| ensures s.log[k].found == Meaning(s0.cell, s.log[..k]) {
      FoundMeans(s0.cell, s.log, k);
    }
    forall i | 0 <= i < |s.threads| ensures s.threads[i].rets == RetsOf(s.log, i) {
      assert ThreadOk(s0.threads[i].todo, s0.cell, s, i);
    }
  }

  ghost predicate NoAdds(ops: seq<Op>) {
    forall op :: op in ops ==> !op.Add?
  }

  lemma {:induction false} NothingAdded(init: Word, log: seq<Event>)
    requires forall k :: 0 <= k < |log| ==> !log[k].op.Add?
    ensures AddedSince(log) == 0 && Meaning(init, log) == LastStored(init, log)
  {
    if log != [] {
      NothingAdded(init, log[..|log| - 1]);
    }
  }

  lemma LoggedNoAdds(s0: State, s: State)
    requires |s.threads| == |s0.threads| && Linearized(s0, s)
    requires forall i :: 0 <= i < |s0.threads| ==> NoAdds(s0.threads[i].todo)
    ensures forall k :: 0 <= k < |s.log| ==> !s.log[k].op.Add?
  {
    forall k | 0 <= k < |s.log| ensures !s.log[k].op.Add? {
      var i := s.log[k].tid;
      LoggedOp(s.log, k);
      assert ThreadOk(s0.threads[i].todo, s0.cell, s, i);
      assert s.log[k].op in OpsOf(s.log, i) + s.threads[i].todo;
      assert NoAdds(s0.threads[i].todo);
    }
  }

  lemma LinearStores(s0: State, s: State)
    requires |s.threads| == |s0.threads| && Linearized(s0, s)
    requires forall i :: 0 <= i < |s0.threads| ==> NoAdds(s0.threads[i].todo)
    ensures s.cell == LastStored(s0.cell, s.log)
    ensures forall k :: 0 <= k < |s.log| ==> s.log[k].found == LastStored(s0.cell, s.log[..k])
  {
    LoggedNoAdds(s0, s);
    LinearMeans(s0, s);
    NothingAdded(s0.cell, s.log);
    forall k | 0 <= k < |s.log| ensures s.log[k].found == LastStored(s0.cell, s.log[..k]) {
      NothingAdded(s0.cell, s.log[..k]);
    }
  }

  /** Without additions the cell holds the last stored value, and every operation returns the value
      stored just before it. */
  lemma RunStores(s0: State, schedule: seq<nat>)
    requires Fresh(s0) && forall k :: 0 <= k < |schedule| ==> schedule[k] < |s0.threads|
    requires forall i :: 0 <= i < |s0.threads| ==> NoAdds(s0.threads[i].todo)
    ensures Run(s0, schedule).cell == LastStored(s0.cell, Run(s0, schedule).log)
    ensures forall k :: 0 <= k < |Run(s0, schedule).log| ==>
      Run(s0, schedule).log[k].found == LastStored(s0.cell, Run(s0, schedule).log[..k])
  {
    RunLinearized(s0, schedule);
    LinearStores(s0, Run(s0, schedule));
  }

  // ---- Progress ----

  /** Two turns without interruption finish an operation, whatever the thread held before, and
      leave the other threads alone. */
  lemma TwoTurns(s: State, i: nat)
    requires i < |s.threads| && s.threads[i].todo != []
    ensures var s' := Step(Step(s, i), i);
      && |s'.threads| == |s.threads| && |s'.threads[i].todo| < |s.threads[i].todo|
      && forall j :: 0 <= j < |s.threads| && j != i ==> s'.threads[j] == s.threads[j]
  {}

  function Remaining(threads: seq<Thread>): nat {
    if threads == [] then 0 else |threads[0].todo| + Remaining(threads[1..])
  }

  lemma {:induction false} FewerRemain(a: seq<Thread>, b: seq<Thread>, i: nat)
    requires |a| == |b| && i < |a| && |b[i].todo| < |a[i].todo|
    requires forall j :: 0 <= j < |a| && j != i ==> b[j] == a[j]
    ensures Remaining(b) < Remaining(a)
    decreases |a|
  {
    if i == 0 {
      assert a[1..] == b[1..];
    } else {
      FewerRemain(a[1..], b[1..], i - 1);
    }
  }

  lemma {:induction false} RunOn(s: State, i: nat, schedule: seq<nat>)
    requires i < |s.threads| && forall k :: 0 <= k < |schedule| ==> schedule[k] < |s.threads|
    ensures |Step(s, i).threads| == |s.threads|
    ensures Run(s, [i] + schedule) == Run(Step(s, i), schedule)
    decreases |schedule|
  {
    var n := |schedule| - 1;
    if schedule == [] {
      assert [i] + schedule == [i] && [i][..0] == [];
      assert Run(s, [i]) == Step(Run(s, []), i);
    } else {
      RunOn(s, i, schedule[..n]);
      assert ([i] + schedule)[..n + 1] == [i] + schedule[..n];
    }
  }

  /** From every state some schedule lets all threads finish. */
  lemma {:induction false} CanFinish(s: State) returns (schedule: seq<nat>)
    ensures forall k :: 0 <= k < |schedule| ==> schedule[k] < |s.threads|
    ensures forall i :: 0 <= i < |s.threads| ==> Run(s, schedule).threads[i].todo == []
    decreases Remaining(s.threads)
  {
    schedule := [];
    if i: nat :| i < |s.threads| && s.threads[i].todo != [] {
      var s' := Step(Step(s, i), i);
      TwoTurns(s, i);
      FewerRemain(s.threads, s'.threads, i);
      var rest := CanFinish(s');
      RunOn(Step(s, i), i, rest);
      RunOn(s, i, [i] + rest);
      schedule := [i] + ([i] + rest);
    }
  }

  /** So n finished additions are possible, under some schedule, for all programs. */
  lemma AddsCanFinish(s0: State) returns (schedule: seq<nat>)
    requires Fresh(s0) && forall i :: 0 <= i < |s0.threads| ==> OnlyAdds(s0.threads[i].todo)
    ensures forall k :: 0 <= k < |schedule| ==> schedule[k] < |s0.threads|
    ensures forall i :: 0 <= i < |s0.threads| ==> Run(s0, schedule).threads[i].todo == []
    ensures Run(s0, schedule).cell == (s0.cell + ProgramSum(s0.threads)) % 0x1_0000_0000
  {
    schedule := CanFinish(s0);
    AddsTotal(s0, schedule);
  }
}

/** Progress of the once-initialisation protocol, what every call is owed, and which start values of the
    flag make the protocol exclusive. */
module OnceInitProgress {

  import opened Options
  import opened OnceInit

  // ----- no deadlock

  /** Thread `i` has something to do other than re-testing its spin loop. */
  predicate CanAdvance(s: State, i: nat) {
    && i < |s.threads|
    && var t := s.threads[i];
       match t.now
       case Idle => t.todo != []
       case Running(r, stage, _, _) => stage.Spin? ==> CellOf(s, r).flag == INITIALIZED
  }

  /** Thread `i` has a call that has not returned. */
  predicate Unfinished(s: State, i: nat) {
    && i < |s.threads|
    && (s.threads[i].now.Running? || s.threads[i].todo != [])
  }

  /** A waiting thread waits for a thread that holds the flag; only a queue initialiser may in turn wait,
      and only for a context initialiser, which never waits. */
  lemma NoDeadlock(s: State, i: nat) returns (k: nat)
    requires Inv(s) && Unfinished(s, i)
    ensures CanAdvance(s, k)
  {
    k := i;
    if !CanAdvance(s, i) {
      k := Holder(s, i);
      if !CanAdvance(s, k) {
        k := Holder(s, k);
      }
    }
  }

  lemma Holder(s: State, i: nat) returns (k: nat)
    requires Inv(s) && i < |s.threads| && !CanAdvance(s, i)
    requires s.threads[i].now.Running? && s.threads[i].now.stage.Spin?
    ensures k < |s.threads| && Owns(s.threads[k].now, s.threads[i].now.routine)
    ensures !CanAdvance(s, k) ==>
              && s.threads[i].now.routine.QueueDefault?
              && s.threads[k].now.routine.ContextDefault? && s.threads[k].now.stage.Spin?
  {
    var r := s.threads[i].now.routine;
    assert ThreadOk(s, i, s.threads[i]) && CellOk(s, r);
    k := CellOf(s, r).entrants[0];
    assert ThreadOk(s, k, s.threads[k]);
  }

  // ----- every productive step spends a bounded budget

  /** A bound on the productive steps an activity still takes. */
  function Rank(a: Activity): nat {
    match a
    case Idle => 0
    case Running(r, stage, _, outer) =>
      (if outer.Some? then 7 else 0)
      + match stage
        case Exchange => if r.ContextDefault? then 7 else 15
        case Spin => 3
        case Create => 6
        case StoreValue(_, _) => 5
        case StoreError(_) => 4
        case StoreFlag => 3
        case ReadError => 2
        case ReadValue(_) => 1
  }

  function ThreadBudget(t: Thread): nat {
    Rank(t.now) + 16 * |t.todo|
  }

  function Budget(threads: seq<Thread>): nat {
    if threads == [] then 0 else ThreadBudget(threads[0]) + Budget(threads[1..])
  }

  lemma {:induction false} BudgetOfUpdate(threads: seq<Thread>, i: nat, t: Thread)
    requires i < |threads|
    ensures Budget(threads[i := t]) == Budget(threads) - ThreadBudget(threads[i]) + ThreadBudget(t)
  {
    if i == 0 {
      assert threads[i := t][1..] == threads[1..];
    } else {
      assert threads[i := t][1..] == threads[1..][i - 1 := t];
      BudgetOfUpdate(threads[1..], i - 1, t);
    }
  }

  /** A nested context call always belongs to the context routine; part of the invariant. */
  lemma AdvanceSpends(s: State, m: Move)
    requires Inv(s) && CanAdvance(s, m.thread)
    ensures |Next(s, m).threads| == |s.threads|
    ensures Budget(Next(s, m).threads) < Budget(s.threads)
  {
    var i := m.thread;
    var t := s.threads[i];
    assert ThreadOk(s, i, t);
    var t' := Next(s, m).threads[i];
    assert Next(s, m).threads == s.threads[i := t'];
    assert ThreadBudget(t') < ThreadBudget(t);
    BudgetOfUpdate(s.threads, i, t');
  }

  /** A re-test of the spin loop, and a move of a thread with nothing to do, change nothing at all. */
  lemma OtherwiseNothing(s: State, m: Move)
    requires !CanAdvance(s, m.thread)
    ensures Next(s, m) == s
  {
  }

  /** The productive moves of a run. */
  function Advances(s: State, moves: seq<Move>): nat {
    if moves == [] then 0 else
    var front := moves[..|moves| - 1];
    Advances(s, front) + (if CanAdvance(Exec(s, front), moves[|moves| - 1].thread) then 1 else 0)
  }

  /** No run of any length holds more productive moves than the budget of its first state. */
  lemma {:induction false} AdvancesAreBounded(s: State, moves: seq<Move>)
    requires Inv(s)
    ensures Advances(s, moves) + Budget(Exec(s, moves).threads) <= Budget(s.threads)
  {
    if moves != [] {
      var front, m := moves[..|moves| - 1], moves[|moves| - 1];
      AdvancesAreBounded(s, front);
      ExecPreserves(s, front);
      if CanAdvance(Exec(s, front), m.thread) {
        AdvanceSpends(Exec(s, front), m);
      } else {
        OtherwiseNothing(Exec(s, front), m);
      }
    }
  }

  // ----- every call is answered, once and in order

  function CallsAnswered(answers: seq<Answer>): seq<Call> {
    seq(|answers|, k requires 0 <= k < |answers| => Call(answers[k].routine, answers[k].error.Some?))
  }

  /** The call a thread is in the middle of, as its caller made it. */
  function Current(a: Activity): seq<Call> {
    match a
    case Idle => []
    case Running(r, _, want, outer) =>
      if outer.Some? then [Call(QueueDefault, outer.value)] else [Call(r, want)]
  }

  function Calls(t: Thread): seq<Call> {
    CallsAnswered(t.answers) + Current(t.now) + t.todo
  }

  /** Beginning a call takes it from the list. */
  lemma BeginKeepsCalls(t: Thread, now: Activity)
    requires t.now.Idle? && t.todo != []
    requires now.Running? && Current(now) == [t.todo[0]]
    ensures Calls(Thread(now, t.todo[1..], t.answers)) == Calls(t)
  {
    assert t.todo == [t.todo[0]] + t.todo[1..];
  }

  /** Returning from a call records it. */
  lemma ReturnKeepsCalls(t: Thread, a: Answer)
    requires Current(t.now) == [Call(a.routine, a.error.Some?)]
    ensures Calls(Thread(Idle, t.todo, t.answers + [a])) == Calls(t)
  {
    assert CallsAnswered(t.answers + [a]) == CallsAnswered(t.answers) + Current(t.now);
  }

  /** Any other step of a call leaves it the same call. */
  lemma InnerStepKeepsCall(s: State, m: Move)
    requires Inv(s) && m.thread < |s.threads|
    requires var now := s.threads[m.thread].now;
             now.Running? && !(now.stage.ReadValue? && now.outer.None?)
    ensures |Next(s, m).threads| == |s.threads|
    ensures var t, t' := s.threads[m.thread], Next(s, m).threads[m.thread];
            t'.answers == t.answers && t'.todo == t.todo && Current(t'.now) == Current(t.now)
  {
    assert ThreadOk(s, m.thread, s.threads[m.thread]);
  }

  lemma CallsAreKept(s: State, m: Move, i: nat)
    requires Inv(s) && i < |s.threads|
    ensures |Next(s, m).threads| == |s.threads|
    ensures Calls(Next(s, m).threads[i]) == Calls(s.threads[i])
  {
    if i == m.thread {
      var t := s.threads[i];
      assert ThreadOk(s, i, t);
      if t.now.Idle? {
        if t.todo != [] {
          BeginKeepsCalls(t, Running(t.todo[0].routine, Exchange, t.todo[0].wantError, None));
        }
      } else if t.now.stage.ReadValue? && t.now.outer.None? {
        ReturnKeepsCalls(t, Answer(t.now.routine, CellOf(s, t.now.routine).value, t.now.stage.seen));
      } else {
        InnerStepKeepsCall(s, m);
      }
    }
  }

  lemma {:induction false} CallsAreKeptOverRuns(s: State, moves: seq<Move>, i: nat)
    requires Inv(s) && i < |s.threads|
    ensures |Exec(s, moves).threads| == |s.threads|
    ensures Calls(Exec(s, moves).threads[i]) == Calls(s.threads[i])
  {
    if moves != [] {
      CallsAreKeptOverRuns(s, moves[..|moves| - 1], i);
      ExecPreserves(s, moves[..|moves| - 1]);
      CallsAreKept(Exec(s, moves[..|moves| - 1]), moves[|moves| - 1], i);
    }
  }

  /** A run that cannot be continued productively has answered every call of every thread, in order. */
  lemma StuckMeansAnswered(calls: seq<seq<Call>>, moves: seq<Move>, i: nat)
    requires i < |calls|
    requires var s := Exec(Start(NOT_INITIALIZED, calls), moves);
             forall k | 0 <= k < |s.threads| :: !CanAdvance(s, k)
    ensures var s := Exec(Start(NOT_INITIALIZED, calls), moves);
            |s.threads| == |calls| && CallsAnswered(s.threads[i].answers) == calls[i]
  {
    var s0 := Start(NOT_INITIALIZED, calls);
    var s := Exec(s0, moves);
    InitEstablishes(calls);
    ExecPreserves(s0, moves);
    CallsAreKeptOverRuns(s0, moves, i);
    assert Calls(s0.threads[i]) == calls[i];
    if Unfinished(s, i) {
      var k := NoDeadlock(s, i);
    }
    assert Calls(s.threads[i]) == CallsAnswered(s.threads[i].answers);
  }

  // ----- fair schedules

  /** A stretch of a run without a productive move leaves everything as it was. */
  lemma {:induction false} IdleStretch(s: State, moves: seq<Move>)
    requires Advances(s, moves) == 0
    ensures Exec(s, moves) == s
  {
    if moves != [] {
      var front := moves[..|moves| - 1];
      IdleStretch(s, front);
      OtherwiseNothing(s, moves[|moves| - 1]);
    }
  }

  lemma {:induction false} AdvancesAppend(s: State, before: seq<Move>, after: seq<Move>)
    ensures Advances(s, before + after) == Advances(s, before) + Advances(Exec(s, before), after)
  {
    if after == [] {
      assert before + after == before;
    } else {
      var front, last := after[..|after| - 1], after[|after| - 1];
      AdvancesAppend(s, before, front);
      AdvancesAppendOne(s, before, front, last);
      assert front + [last] == after;
    }
  }

  lemma AdvancesAppendOne(s: State, before: seq<Move>, front: seq<Move>, last: Move)
    requires Advances(s, before + front) == Advances(s, before) + Advances(Exec(s, before), front)
    ensures Advances(s, before + (front + [last])) == Advances(s, before) + Advances(Exec(s, before), front + [last])
  {
    ExecAppend(s, before, front);
    AdvancesSnoc(Exec(s, before), front, last);
    var moves := before + front;
    AdvancesSnoc(s, moves, last);
    assert before + (front + [last]) == moves + [last];
  }

  lemma AdvancesSnoc(s: State, moves: seq<Move>, m: Move)
    ensures Advances(s, moves + [m]) == Advances(s, moves) + if CanAdvance(Exec(s, moves), m.thread) then 1 else 0
  {
    assert (moves + [m])[..|moves|] == moves;
  }

  /** Every thread has a move in the round. */
  ghost predicate IsRound(round: seq<Move>, threads: nat) {
    forall i | 0 <= i < threads :: HasMove(round, i)
  }

  ghost predicate HasMove(round: seq<Move>, i: nat) {
    exists k :: 0 <= k < |round| && round[k].thread == i
  }

  /** If some thread can advance, a round holds a productive move: that thread's, if no other comes before it. */
  lemma RoundAdvances(s: State, round: seq<Move>, i: nat)
    requires CanAdvance(s, i) && HasMove(round, i)
    ensures Advances(s, round) > 0
  {
    var k :| 0 <= k < |round| && round[k].thread == i;
    AdvancesPrefix(s, round, k + 1);
    AdvancesAt(s, round, k);
    if Advances(s, round[..k]) == 0 {
      IdleStretch(s, round[..k]);
    }
  }

  /** A run holds the productive moves of its beginnings. */
  lemma {:induction false} AdvancesPrefix(s: State, moves: seq<Move>, k: nat)
    requires k <= |moves|
    ensures Advances(s, moves[..k]) <= Advances(s, moves)
  {
    if k == |moves| {
      assert moves[..k] == moves;
    } else {
      var front := moves[..|moves| - 1];
      AdvancesPrefix(s, front, k);
      assert front[..k] == moves[..k];
    }
  }

  lemma AdvancesAt(s: State, moves: seq<Move>, k: nat)
    requires k < |moves|
    ensures Advances(s, moves[..k + 1])
            == Advances(s, moves[..k]) + if CanAdvance(Exec(s, moves[..k]), moves[k].thread) then 1 else 0
  {
    assert moves[..k + 1][..k] == moves[..k];
  }

  function Flattened(rounds: seq<seq<Move>>): seq<Move> {
    if rounds == [] then [] else Flattened(rounds[..|rounds| - 1]) + rounds[|rounds| - 1]
  }

  /** No thread can advance. */
  ghost predicate IsStuck(s: State) {
    forall i | 0 <= i < |s.threads| :: !CanAdvance(s, i)
  }

  lemma {:induction false} StuckStays(s: State, moves: seq<Move>)
    requires IsStuck(s)
    ensures Exec(s, moves) == s
  {
    if moves != [] {
      StuckStays(s, moves[..|moves| - 1]);
      OtherwiseNothing(s, moves[|moves| - 1]);
    }
  }

  lemma {:induction false} ExecKeepsThreads(s: State, moves: seq<Move>)
    ensures |Exec(s, moves).threads| == |s.threads|
  {
    if moves != [] {
      ExecKeepsThreads(s, moves[..|moves| - 1]);
    }
  }

  /** As long as something is left to do, each round of a fair schedule makes at least one productive move. */
  lemma {:induction false} RoundsAdvance(s: State, rounds: seq<seq<Move>>)
    requires forall round | round in rounds :: IsRound(round, |s.threads|)
    ensures Advances(s, Flattened(rounds)) >= |rounds| || IsStuck(Exec(s, Flattened(rounds)))
  {
    if rounds != [] {
      var front, last := rounds[..|rounds| - 1], rounds[|rounds| - 1];
      var moves := Flattened(front);
      RoundsAdvance(s, front);
      ExecKeepsThreads(s, moves);
      ExecAppend(s, moves, last);
      AdvancesAppend(s, moves, last);
      var s' := Exec(s, moves);
      if IsStuck(s') {
        StuckStays(s', last);
      } else {
        var i :| 0 <= i < |s'.threads| && CanAdvance(s', i);
        assert last in rounds;
        RoundAdvances(s', last, i);
      }
    }
  }

  function TotalCalls(calls: seq<seq<Call>>): nat {
    if calls == [] then 0 else |calls[0]| + TotalCalls(calls[1..])
  }

  lemma {:induction false} StartBudget(flag: int, calls: seq<seq<Call>>)
    ensures Budget(Start(flag, calls).threads) == 16 * TotalCalls(calls)
  {
    if calls != [] {
      StartBudget(flag, calls[1..]);
      assert Start(flag, calls).threads[1..] == Start(flag, calls[1..]).threads;
    }
  }

  /** Once the budget is used up nothing can advance. */
  lemma SpentIsStuck(s: State)
    requires Inv(s) && Budget(s.threads) == 0
    ensures IsStuck(s)
  {
    forall i | 0 <= i < |s.threads| ensures !CanAdvance(s, i) {
      if CanAdvance(s, i) {
        AdvanceSpends(s, Move(i, 0, 0));
      }
    }
  }

  /** Under every schedule in which each thread gets a move in every round, sixteen rounds for every call made by
      anybody are enough to answer every call of every thread, once and in order. */
  lemma FairRunsAnswer(calls: seq<seq<Call>>, rounds: seq<seq<Move>>, i: nat)
    requires i < |calls| && |rounds| >= 16 * TotalCalls(calls)
    requires forall round | round in rounds :: IsRound(round, |calls|)
    ensures var s := Exec(Start(NOT_INITIALIZED, calls), Flattened(rounds));
            |s.threads| == |calls| && CallsAnswered(s.threads[i].answers) == calls[i]
  {
    var s0, moves := Start(NOT_INITIALIZED, calls), Flattened(rounds);
    InitEstablishes(calls);
    StartBudget(NOT_INITIALIZED, calls);
    RoundsAdvance(s0, rounds);
    AdvancesAreBounded(s0, moves);
    ExecPreserves(s0, moves);
    if !IsStuck(Exec(s0, moves)) {
      SpentIsStuck(Exec(s0, moves));
    }
    StuckMeansAnswered(calls, moves, i);
  }

  // ----- start values

  /** From this start value of the flag, no run lets two threads into one initialiser. */
  ghost predicate Exclusive(flag: int) {
    forall calls: seq<seq<Call>>, moves: seq<Move>, r: Routine ::
      |CellOf(Exec(Start(flag, calls), moves), r).entrants| <= 1
  }

  predicate Closed(flag: int) {
    HasBit(flag, BEING_INITIALIZED) || HasBit(flag, INITIALIZED)
  }

  /** Nobody is initialising, nobody can start to, and both flags still hold their start value. */
  predicate Shut(s: State, flag: int) {
    && s.context == s.queue == FreshCell(flag)
    && forall i | 0 <= i < |s.threads| ::
         && !Owns(s.threads[i].now, ContextDefault)
         && !Owns(s.threads[i].now, QueueDefault)
  }

  lemma {:induction false} ClosedStaysShut(flag: int, calls: seq<seq<Call>>, moves: seq<Move>)
    requires Closed(flag)
    ensures Shut(Exec(Start(flag, calls), moves), flag)
  {
    if moves != [] {
      ClosedStaysShut(flag, calls, moves[..|moves| - 1]);
    }
  }

  lemma ExecSnoc(s: State, moves: seq<Move>, m: Move)
    ensures Exec(s, moves + [m]) == Next(Exec(s, moves), m)
  {
    assert (moves + [m])[..|moves|] == moves;
  }

  /** Two callers of the context routine, each up to the initialiser. */
  function BothEnter(): seq<Move> {
    [Move(0, 0, 0), Move(1, 0, 0), Move(0, 0, 0), Move(1, 0, 0)]
  }

  function TwoCalls(): seq<seq<Call>> {
    [[Call(ContextDefault, true)], [Call(ContextDefault, true)]]
  }

  const AtCreate := Running(ContextDefault, Create, true, None)

  lemma BothAreIn(flag: int)
    requires flag != NOT_INITIALIZED && !Closed(flag)
    ensures Exec(Start(flag, TwoCalls()), BothEnter())
            == State(FreshCell(flag).(entrants := [0, 1]), FreshCell(flag),
                     [Thread(AtCreate, [], []), Thread(AtCreate, [], [])])
  {
    var s0 := Start(flag, TwoCalls());
    var m, m' := Move(0, 0, 0), Move(1, 0, 0);
    var idle := Thread(Idle, [Call(ContextDefault, true)], []);
    var started := Thread(Running(ContextDefault, Exchange, true, None), [], []);
    var cell := FreshCell(flag);
    assert s0 == State(cell, cell, [idle, idle]);
    assert [Call(ContextDefault, true)][1..] == [];
    var s1 := State(cell, cell, [started, idle]);
    assert Next(s0, m) == s1;
    var s2 := State(cell, cell, [started, started]);
    assert Next(s1, m') == s2;
    var s3 := State(cell.(entrants := [0]), cell, [Thread(AtCreate, [], []), started]);
    assert Next(s2, m) == s3;
    assert Next(s3, m') == State(cell.(entrants := [0, 1]), cell, [Thread(AtCreate, [], []), Thread(AtCreate, [], [])]);
    ExecFour(s0, m, m', m, m');
  }

  lemma ExecTwo(s: State, a: Move, b: Move)
    ensures Exec(s, [a, b]) == Next(Next(s, a), b)
  {
    ExecSnoc(s, [], a);
    ExecSnoc(s, [a], b);
    assert [] + [a] == [a] && [a] + [b] == [a, b];
  }

  lemma ExecFour(s: State, a: Move, b: Move, c: Move, d: Move)
    ensures Exec(s, [a, b, c, d]) == Next(Next(Next(Next(s, a), b), c), d)
  {
    ExecTwo(s, a, b);
    ExecAppend(s, [a, b], [c, d]);
    ExecTwo(Exec(s, [a, b]), c, d);
    assert [a, b] + [c, d] == [a, b, c, d];
  }

  /** Three moves of thread `i`; a construction delivers `value`. */
  function ThreeMoves(i: nat, value: int): seq<Move> {
    [Move(i, value, SUCCESS), Move(i, value, SUCCESS), Move(i, value, SUCCESS)]
  }

  function SixMoves(i: nat, value: int): seq<Move> {
    ThreeMoves(i, value) + ThreeMoves(i, value)
  }

  lemma ExecThree(s: State, i: nat, value: int)
    ensures var m := Move(i, value, SUCCESS); Exec(s, ThreeMoves(i, value)) == Next(Next(Next(s, m), m), m)
  {
    var m := Move(i, value, SUCCESS);
    ExecTwo(s, m, m);
    ExecSnoc(s, [m, m], m);
    assert [m, m] + [m] == ThreeMoves(i, value);
  }

  /** `s` with the context's cell and one thread replaced. */
  function With(s: State, c: Cell, i: nat, t: Thread): State
    requires i < |s.threads|
  {
    State(c, s.queue, s.threads[i := t])
  }

  /** One step of the context routine, of a thread at the stage given. */
  lemma StepAt(s: State, c: Cell, i: nat, t: Thread, stage: Stage, m: Move, c': Cell, stage': Stage)
    requires i < |s.threads| && m.thread == i && t.now == AtCreate.(stage := stage)
    requires match stage
             case Create =>
               c' == c.(made := c.made + [Made(m.value, m.error)]) && stage' == StoreValue(m.value, m.error)
             case StoreValue(value, error) => c' == c.(value := value) && stage' == StoreError(error)
             case StoreError(error) => c' == c.(error := error) && stage' == StoreFlag
             case StoreFlag => c' == c.(flag := INITIALIZED) && stage' == ReadError
             case ReadError => c' == c && stage' == ReadValue(Some(c.error))
             case _ => false
    ensures Next(With(s, c, i, t), m) == With(s, c', i, t.(now := AtCreate.(stage := stage')))
  {
    assert s.threads[i := t][i := t.(now := AtCreate.(stage := stage'))]
        == s.threads[i := t.(now := AtCreate.(stage := stage'))];
  }

  lemma AnswerAt(s: State, c: Cell, i: nat, t: Thread, seen: Option<int>, m: Move)
    requires i < |s.threads| && m.thread == i && t.now == AtCreate.(stage := ReadValue(seen))
    ensures Next(With(s, c, i, t), m)
            == With(s, c, i, Thread(Idle, t.todo, t.answers + [Answer(ContextDefault, c.value, seen)]))
  {
    var t' := Thread(Idle, t.todo, t.answers + [Answer(ContextDefault, c.value, seen)]);
    assert s.threads[i := t][i := t'] == s.threads[i := t'];
  }

  lemma Constructs(s: State, i: nat, value: int)
    requires i < |s.threads| && s.threads[i].now == AtCreate
    ensures Exec(s, ThreeMoves(i, value))
            == With(s, s.context.(value := value, error := SUCCESS, made := s.context.made + [Made(value, SUCCESS)]),
                    i, s.threads[i].(now := AtCreate.(stage := StoreFlag)))
  {
    var m, c, t := Move(i, value, SUCCESS), s.context, s.threads[i];
    var c1 := c.(made := c.made + [Made(value, SUCCESS)]);
    var c2 := c1.(value := value);
    assert s == With(s, c, i, t);
    StepAt(s, c, i, t, Create, m, c1, StoreValue(value, SUCCESS));
    var t1 := t.(now := AtCreate.(stage := StoreValue(value, SUCCESS)));
    StepAt(s, c1, i, t1, StoreValue(value, SUCCESS), m, c2, StoreError(SUCCESS));
    var t2 := t.(now := AtCreate.(stage := StoreError(SUCCESS)));
    StepAt(s, c2, i, t2, StoreError(SUCCESS), m, c2.(error := SUCCESS), StoreFlag);
    ExecThree(s, i, value);
  }

  lemma Publishes(s: State, i: nat, value: int)
    requires i < |s.threads| && s.threads[i].now == AtCreate.(stage := StoreFlag)
    ensures var c, t := s.context.(flag := INITIALIZED), s.threads[i];
            Exec(s, ThreeMoves(i, value))
            == With(s, c, i, Thread(Idle, t.todo, t.answers + [Answer(ContextDefault, c.value, Some(c.error))]))
  {
    var m, c, t := Move(i, value, SUCCESS), s.context.(flag := INITIALIZED), s.threads[i];
    assert s == With(s, s.context, i, t);
    StepAt(s, s.context, i, t, StoreFlag, m, c, ReadError);
    var t1 := t.(now := AtCreate.(stage := ReadError));
    StepAt(s, c, i, t1, ReadError, m, c, ReadValue(Some(c.error)));
    AnswerAt(s, c, i, t.(now := AtCreate.(stage := ReadValue(Some(c.error)))), Some(c.error), m);
    ExecThree(s, i, value);
  }

  /** A thread constructs the context and runs on to its answer while the others wait their turn. */
  lemma RunsAlone(s: State, i: nat, value: int)
    requires i < |s.threads| && s.threads[i].now == AtCreate
    ensures var t := s.threads[i];
            Exec(s, SixMoves(i, value))
            == With(s, Cell(INITIALIZED, value, SUCCESS, s.context.entrants, s.context.made + [Made(value, SUCCESS)]),
                    i, Thread(Idle, t.todo, t.answers + [Answer(ContextDefault, value, Some(SUCCESS))]))
  {
    ExecAppend(s, ThreeMoves(i, value), ThreeMoves(i, value));
    Constructs(s, i, value);
    Publishes(Exec(s, ThreeMoves(i, value)), i, value);
  }

  /** With a start value such as 0, the exchange fails and neither bit is set: each of two callers goes on to construct
      the context, and each is given the one it made itself. */
  lemma OpenLetsTwoIn(flag: int, one: int, other: int)
    requires flag != NOT_INITIALIZED && !Closed(flag)
    ensures var s := Exec(Start(flag, TwoCalls()), BothEnter() + SixMoves(0, one) + SixMoves(1, other));
            && s.context.entrants == [0, 1] && |s.threads| == 2
            && s.context.made == [Made(one, SUCCESS), Made(other, SUCCESS)]
            && s.threads[0].answers == [Answer(ContextDefault, one, Some(SUCCESS))]
            && s.threads[1].answers == [Answer(ContextDefault, other, Some(SUCCESS))]
  {
    var s0 := Start(flag, TwoCalls());
    BothAreIn(flag);
    var s1 := Exec(s0, BothEnter());
    RunsAlone(s1, 0, one);
    ExecAppend(s0, BothEnter(), SixMoves(0, one));
    var s2 := Exec(s1, SixMoves(0, one));
    RunsAlone(s2, 1, other);
    ExecAppend(s0, BothEnter() + SixMoves(0, one), SixMoves(1, other));
  }

  /** The protocol is exclusive exactly for the documented start value and for the values under which
      every caller waits or reads without anyone ever initialising. */
  lemma ExclusiveIff(flag: int)
    ensures Exclusive(flag) <==> flag == NOT_INITIALIZED || Closed(flag)
  {
    if flag == NOT_INITIALIZED || Closed(flag) {
      forall calls: seq<seq<Call>>, moves: seq<Move>, r: Routine
        ensures |CellOf(Exec(Start(flag, calls), moves), r).entrants| <= 1
      {
        if flag == NOT_INITIALIZED {
          InitialiserRunsOnce(calls, moves, r);
        } else {
          ClosedStaysShut(flag, calls, moves);
        }
      }
    } else {
      BothAreIn(flag);
      assert |CellOf(Exec(Start(flag, TwoCalls()), BothEnter()), ContextDefault).entrants| == 2;
    }
  }
}

/** The once-initialisation protocol of `Context::getDefault` and `CommandQueue::getDefault`.

    Any number of threads each make any list of calls. A move lets one thread perform one access to
    shared memory (or one driver call); a run is any sequence of moves, so every interleaving under
    sequential consistency is a run. The queue's initialiser calls the context routine, which nests
    one protocol inside the other. */
module OnceInit {

  import opened Options

  const NOT_INITIALIZED := 1
  const BEING_INITIALIZED := 2
  const INITIALIZED := 4

  const NULL := 0
  const SUCCESS := 0

  /** `flag & mask` is non-zero, for the masks 2 and 4. */
  predicate HasBit(flag: int, mask: int)
    requires mask > 0
  {
    (flag / mask) % 2 == 1
  }

  datatype Routine = ContextDefault | QueueDefault

  /** The statics of one class: `default_initialized_`, `default_` and `default_error_`. The last two
      fields record history only: the threads that fell through to the initialiser, and what each
      driver construction delivered. */
  datatype Cell = Cell(flag: int, value: int, error: int, entrants: seq<nat>, made: seq<Made>)

  datatype Made = Made(value: int, error: int)

  /** What a call is about to do. */
  datatype Stage =
    | Exchange
    | Spin
    | Create
    | StoreValue(value: int, error: int)
    | StoreError(error: int)
    | StoreFlag
    | ReadError
    | ReadValue(seen: Option<int>)

  /** `wantError` says that the caller passed an error pointer. `outer` is set while the context routine
      runs inside the queue's initialiser, and holds that queue call's own `wantError`. */
  datatype Activity =
    | Idle
    | Running(routine: Routine, stage: Stage, wantError: bool, outer: Option<bool>)

  datatype Call = Call(routine: Routine, wantError: bool)

  datatype Answer = Answer(routine: Routine, value: int, error: Option<int>)

  datatype Thread = Thread(now: Activity, todo: seq<Call>, answers: seq<Answer>)

  datatype State = State(context: Cell, queue: Cell, threads: seq<Thread>)

  /** Thread `thread` acts; if it constructs an object, the driver delivers `value` and `error`. */
  datatype Move = Move(thread: nat, value: int, error: int)

  function CellOf(s: State, r: Routine): Cell {
    if r.ContextDefault? then s.context else s.queue
  }

  function SetCell(s: State, r: Routine, c: Cell): State {
    if r.ContextDefault? then s.(context := c) else s.(queue := c)
  }

  function SetActivity(s: State, i: nat, now: Activity): State
    requires i < |s.threads|
  {
    s.(threads := s.threads[i := s.threads[i].(now := now)])
  }

  /** `compare_exchange(flag, BEING_INITIALIZED, NOT_INITIALIZED)`: the flag afterwards. */
  function Exchanged(flag: int): int {
    if flag == NOT_INITIALIZED then BEING_INITIALIZED else flag
  }

  /** The first thing a thread does in the initialiser of `r`. */
  function EnterInitialiser(r: Routine, wantError: bool, outer: Option<bool>): Activity {
    match r
    case ContextDefault => Running(ContextDefault, Create, wantError, outer)
    case QueueDefault => Running(ContextDefault, Exchange, true, Some(wantError))
  }

  /** Where the queue's initialiser continues when the nested context call has answered `error`. */
  function AfterContext(error: int, queueWantError: bool): Activity {
    Running(QueueDefault, if error != SUCCESS then StoreError(error) else Create, queueWantError, None)
  }

  function Next(s: State, m: Move): State {
    if m.thread >= |s.threads| then s else
    var i, t := m.thread, s.threads[m.thread];
    match t.now
    case Idle =>
      if t.todo == [] then s else
      var first := t.todo[0];
      s.(threads := s.threads[i := Thread(Running(first.routine, Exchange, first.wantError, None),
                                          t.todo[1..], t.answers)])
    case Running(r, stage, want, outer) =>
      var c := CellOf(s, r);
      match stage
      case Exchange =>
        if HasBit(c.flag, INITIALIZED) then
          SetActivity(s, i, Running(r, ReadError, want, outer))
        else if HasBit(c.flag, BEING_INITIALIZED) then
          SetActivity(s, i, Running(r, Spin, want, outer))
        else
          SetActivity(SetCell(s, r, c.(flag := Exchanged(c.flag), entrants := c.entrants + [i])),
                      i, EnterInitialiser(r, want, outer))
      case Spin =>
        if c.flag != INITIALIZED then s
        else SetActivity(s, i, Running(r, ReadError, want, outer))
      case Create =>
        SetActivity(SetCell(s, r, c.(made := c.made + [Made(m.value, m.error)])),
                    i, Running(r, StoreValue(m.value, m.error), want, outer))
      case StoreValue(value, error) =>
        SetActivity(SetCell(s, r, c.(value := value)), i, Running(r, StoreError(error), want, outer))
      case StoreError(error) =>
        SetActivity(SetCell(s, r, c.(error := error)), i, Running(r, StoreFlag, want, outer))
      case StoreFlag =>
        SetActivity(SetCell(s, r, c.(flag := INITIALIZED)), i, Running(r, ReadError, want, outer))
      case ReadError =>
        SetActivity(s, i, Running(r, ReadValue(if want then Some(c.error) else None), want, outer))
      case ReadValue(seen) =>
        match outer
        case None =>
          s.(threads := s.threads[i := Thread(Idle, t.todo, t.answers + [Answer(r, c.value, seen)])])
        case Some(queueWant) =>
          SetActivity(s, i, AfterContext(if seen.Some? then seen.value else SUCCESS, queueWant))
  }

  function Exec(s: State, moves: seq<Move>): State {
    if moves == [] then s else Next(Exec(s, moves[..|moves| - 1]), moves[|moves| - 1])
  }

  function FreshCell(flag: int): Cell {
    Cell(flag, NULL, SUCCESS, [], [])
  }

  /** The program start: both flags hold `flag`, and thread `i` is going to make the calls `calls[i]`. */
  function Start(flag: int, calls: seq<seq<Call>>): State {
    State(FreshCell(flag), FreshCell(flag),
          seq(|calls|, i requires 0 <= i < |calls| => Thread(Idle, calls[i], [])))
  }

  // ----- the invariant

  predicate InitStage(stage: Stage) {
    stage.Create? || stage.StoreValue? || stage.StoreError? || stage.StoreFlag?
  }

  /** The activity is inside the initialiser of `r`. */
  predicate Owns(a: Activity, r: Routine) {
    && a.Running?
    && ((a.routine == r && InitStage(a.stage)) || (r.QueueDefault? && a.outer.Some?))
  }

  /** The cell holds what the single construction delivered, or the error inherited from the context. */
  predicate Settled(s: State, r: Routine, value: int, error: int) {
    match r
    case ContextDefault => s.context.made == [Made(value, error)]
    case QueueDefault =>
      && s.context.flag == INITIALIZED
      && if s.context.error == SUCCESS then s.queue.made == [Made(value, error)]
         else s.queue.made == [] && value == NULL && error == s.context.error
  }

  predicate Untouched(c: Cell) {
    c.value == NULL && c.error == SUCCESS && c.made == []
  }

  predicate QueueMayCreate(s: State, r: Routine) {
    r.QueueDefault? ==> s.context.flag == INITIALIZED && s.context.error == SUCCESS
  }

  predicate ActivityOk(s: State, a: Activity) {
    a.Running? ==>
      var c := CellOf(s, a.routine);
      && (a.outer.Some? ==> a.routine.ContextDefault? && a.wantError && Untouched(s.queue))
      && match a.stage
         case Exchange => true
         case Spin => c.flag != NOT_INITIALIZED
         case Create => Untouched(c) && QueueMayCreate(s, a.routine)
         case StoreValue(value, error) => c.made == [Made(value, error)] && QueueMayCreate(s, a.routine)
         case StoreError(error) => Settled(s, a.routine, c.value, error)
         case StoreFlag => Settled(s, a.routine, c.value, c.error)
         case ReadError => c.flag == INITIALIZED
         case ReadValue(seen) =>
           && c.flag == INITIALIZED
           && seen == if a.wantError then Some(c.error) else None
  }

  predicate CellOk(s: State, r: Routine) {
    var c := CellOf(s, r);
    && (c.flag == NOT_INITIALIZED || c.flag == BEING_INITIALIZED || c.flag == INITIALIZED)
    && |c.entrants| <= 1
    && (c.flag == NOT_INITIALIZED ==> c.entrants == [] && Untouched(c))
    && (c.flag == BEING_INITIALIZED ==> |c.entrants| == 1 && c.entrants[0] < |s.threads|)
    && (c.flag == INITIALIZED ==> Settled(s, r, c.value, c.error))
  }

  predicate AnswerOk(s: State, a: Answer) {
    var c := CellOf(s, a.routine);
    && c.flag == INITIALIZED
    && a.value == c.value
    && (a.error.Some? ==> a.error.value == c.error)
  }

  predicate ThreadOk(s: State, i: nat, t: Thread) {
    && ActivityOk(s, t.now)
    && (Owns(t.now, ContextDefault) <==> s.context.flag == BEING_INITIALIZED && s.context.entrants == [i])
    && (Owns(t.now, QueueDefault) <==> s.queue.flag == BEING_INITIALIZED && s.queue.entrants == [i])
    && forall k | 0 <= k < |t.answers| :: AnswerOk(s, t.answers[k])
  }

  predicate Inv(s: State) {
    && CellOk(s, ContextDefault)
    && CellOk(s, QueueDefault)
    && forall i | 0 <= i < |s.threads| :: ThreadOk(s, i, s.threads[i])
  }

  lemma InitEstablishes(calls: seq<seq<Call>>)
    ensures Inv(Start(NOT_INITIALIZED, calls))
  {
  }

  /** A step that leaves both cells alone concerns only the thread that takes it. */
  lemma LocalStepPreserves(s: State, i: nat, t: Thread)
    requires Inv(s) && i < |s.threads|
    requires ThreadOk(s, i, t)
    ensures Inv(s.(threads := s.threads[i := t]))
  {
    var s' := s.(threads := s.threads[i := t]);
    forall k | 0 <= k < |s'.threads| ensures ThreadOk(s', k, s'.threads[k]) {
      assert ThreadOk(s, k, s.threads[k]);
    }
  }

  /** What a bystander relies on while thread `i` rewrites the cell of `r`: a cell it may read from is
      settled and stays as it is, and `i` is or becomes the only initialiser. */
  predicate CellStep(s: State, c: Cell, i: nat, r: Routine) {
    var c0 := CellOf(s, r);
    && c0.flag != INITIALIZED
    && (c0.flag == NOT_INITIALIZED || c0.entrants == [i])
    && c.entrants == [i]
    && (c.flag == BEING_INITIALIZED || (c.flag == INITIALIZED && c0.flag == BEING_INITIALIZED))
  }

  /** A step of the initialiser of `r` disturbs no other thread. */
  lemma OwnerStepPreserves(s: State, i: nat, r: Routine, c: Cell, now: Activity)
    requires Inv(s) && i < |s.threads|
    requires CellStep(s, c, i, r)
    requires CellOk(SetCell(s, r, c), r)
    requires ThreadOk(SetCell(s, r, c), i, s.threads[i].(now := now))
    ensures Inv(SetActivity(SetCell(s, r, c), i, now))
  {
    var s' := SetActivity(SetCell(s, r, c), i, now);
    assert CellOk(s, ContextDefault) && CellOk(s, QueueDefault);
    forall k | 0 <= k < |s'.threads| ensures ThreadOk(s', k, s'.threads[k]) {
      assert ThreadOk(s, k, s.threads[k]);
      assert ThreadOk(s, i, s.threads[i]);
      if k != i {
        BystanderKeeps(s, s', i, k, r);
      }
    }
  }

  lemma BystanderKeeps(s: State, s': State, i: nat, k: nat, r: Routine)
    requires CellOk(s, ContextDefault) && CellOk(s, QueueDefault)
    requires i < |s.threads| && k < |s.threads| && k != i
    requires ThreadOk(s, k, s.threads[k])
    requires CellStep(s, CellOf(s', r), i, r)
    requires r.ContextDefault? ==> s'.queue == s.queue
    requires r.QueueDefault? ==> s'.context == s.context
    ensures ThreadOk(s', k, s.threads[k])
  {
  }

  /** Winning the exchange: the thread becomes the one initialiser of the routine. */
  lemma WinningPreserves(s: State, i: nat, r: Routine, want: bool, outer: Option<bool>)
    requires Inv(s) && i < |s.threads|
    requires s.threads[i].now == Running(r, Exchange, want, outer)
    requires CellOf(s, r).flag == NOT_INITIALIZED
    ensures Inv(SetActivity(SetCell(s, r, CellOf(s, r).(flag := BEING_INITIALIZED, entrants := [i])),
                            i, EnterInitialiser(r, want, outer)))
  {
    assert ThreadOk(s, i, s.threads[i]) && CellOk(s, ContextDefault) && CellOk(s, QueueDefault);
    OwnerStepPreserves(s, i, r, CellOf(s, r).(flag := BEING_INITIALIZED, entrants := [i]),
                       EnterInitialiser(r, want, outer));
  }

  /** Losing it: the flag says whether to wait or to read. */
  lemma LosingPreserves(s: State, i: nat, r: Routine, want: bool, outer: Option<bool>)
    requires Inv(s) && i < |s.threads|
    requires s.threads[i].now == Running(r, Exchange, want, outer)
    requires CellOf(s, r).flag != NOT_INITIALIZED
    ensures CellOf(s, r).flag == INITIALIZED
            ==> Inv(SetActivity(s, i, Running(r, ReadError, want, outer)))
    ensures CellOf(s, r).flag == BEING_INITIALIZED
            ==> Inv(SetActivity(s, i, Running(r, Spin, want, outer)))
  {
    assert ThreadOk(s, i, s.threads[i]);
    if CellOf(s, r).flag == INITIALIZED {
      LocalStepPreserves(s, i, s.threads[i].(now := Running(r, ReadError, want, outer)));
    } else {
      LocalStepPreserves(s, i, s.threads[i].(now := Running(r, Spin, want, outer)));
    }
  }

  lemma ExchangeCases(s: State, m: Move)
    requires m.thread < |s.threads|
    requires s.threads[m.thread].now.Running? && s.threads[m.thread].now.stage.Exchange?
    ensures var Running(r, _, want, outer) := s.threads[m.thread].now;
            var c := CellOf(s, r);
            && (c.flag == NOT_INITIALIZED && c.entrants == [] ==>
                Next(s, m) == SetActivity(SetCell(s, r, c.(flag := BEING_INITIALIZED, entrants := [m.thread])),
                                          m.thread, EnterInitialiser(r, want, outer)))
            && (c.flag == INITIALIZED ==>
                Next(s, m) == SetActivity(s, m.thread, Running(r, ReadError, want, outer)))
            && (c.flag == BEING_INITIALIZED ==>
                Next(s, m) == SetActivity(s, m.thread, Running(r, Spin, want, outer)))
  {
    var c := CellOf(s, s.threads[m.thread].now.routine);
    assert c.entrants == [] ==> c.entrants + [m.thread] == [m.thread];
  }

  lemma ExchangePreserves(s: State, m: Move)
    requires Inv(s) && m.thread < |s.threads|
    requires s.threads[m.thread].now.Running? && s.threads[m.thread].now.stage.Exchange?
    ensures Inv(Next(s, m))
  {
    var Running(r, _, want, outer) := s.threads[m.thread].now;
    assert CellOk(s, r);
    ExchangeCases(s, m);
    if CellOf(s, r).flag == NOT_INITIALIZED {
      WinningPreserves(s, m.thread, r, want, outer);
    } else {
      LosingPreserves(s, m.thread, r, want, outer);
    }
  }

  /** The initialiser's own steps. */
  lemma InitialiserPreserves(s: State, m: Move)
    requires Inv(s) && m.thread < |s.threads|
    requires s.threads[m.thread].now.Running? && InitStage(s.threads[m.thread].now.stage)
    ensures Inv(Next(s, m))
  {
    var i, t := m.thread, s.threads[m.thread];
    var Running(r, stage, want, outer) := t.now;
    var c := CellOf(s, r);
    assert ThreadOk(s, i, t) && CellOk(s, ContextDefault) && CellOk(s, QueueDefault);
    match stage
    case Create =>
      OwnerStepPreserves(s, i, r, c.(made := c.made + [Made(m.value, m.error)]),
                         Running(r, StoreValue(m.value, m.error), want, outer));
    case StoreValue(value, error) =>
      OwnerStepPreserves(s, i, r, c.(value := value), Running(r, StoreError(error), want, outer));
    case StoreError(error) =>
      OwnerStepPreserves(s, i, r, c.(error := error), Running(r, StoreFlag, want, outer));
    case StoreFlag =>
      OwnerStepPreserves(s, i, r, c.(flag := INITIALIZED), Running(r, ReadError, want, outer));
  }

  /** Waiting, reading the answer and returning it. */
  lemma ReaderPreserves(s: State, m: Move)
    requires Inv(s) && m.thread < |s.threads|
    requires var now := s.threads[m.thread].now;
             now.Running? && (now.stage.Spin? || now.stage.ReadError? || now.stage.ReadValue?)
    ensures Inv(Next(s, m))
  {
    var i, t := m.thread, s.threads[m.thread];
    var Running(r, stage, want, outer) := t.now;
    var c := CellOf(s, r);
    assert ThreadOk(s, i, t) && CellOk(s, ContextDefault) && CellOk(s, QueueDefault);
    match stage
    case Spin =>
      if c.flag == INITIALIZED {
        LocalStepPreserves(s, i, t.(now := Running(r, ReadError, want, outer)));
      }
    case ReadError =>
      LocalStepPreserves(s, i, t.(now := Running(r, ReadValue(if want then Some(c.error) else None), want, outer)));
    case ReadValue(seen) =>
      if outer.None? {
        LocalStepPreserves(s, i, Thread(Idle, t.todo, t.answers + [Answer(r, c.value, seen)]));
      } else {
        LocalStepPreserves(s, i, t.(now := AfterContext(c.error, outer.value)));
      }
  }

  /** Every move of every thread keeps the invariant. */
  lemma NextPreserves(s: State, m: Move)
    requires Inv(s)
    ensures Inv(Next(s, m))
  {
    if m.thread < |s.threads| {
      var t := s.threads[m.thread];
      assert ThreadOk(s, m.thread, t);
      if t.now.Idle? {
        if t.todo != [] {
          LocalStepPreserves(s, m.thread, Next(s, m).threads[m.thread]);
        }
      } else if t.now.stage.Exchange? {
        ExchangePreserves(s, m);
      } else if InitStage(t.now.stage) {
        InitialiserPreserves(s, m);
      } else {
        ReaderPreserves(s, m);
      }
    }
  }

  lemma {:induction false} ExecPreserves(s: State, moves: seq<Move>)
    requires Inv(s)
    ensures Inv(Exec(s, moves))
  {
    if moves != [] {
      ExecPreserves(s, moves[..|moves| - 1]);
      NextPreserves(Exec(s, moves[..|moves| - 1]), moves[|moves| - 1]);
    }
  }

  lemma {:induction false} ExecAppend(s: State, before: seq<Move>, after: seq<Move>)
    ensures Exec(s, before + after) == Exec(Exec(s, before), after)
  {
    if after == [] {
      assert before + after == before;
    } else {
      var front := after[..|after| - 1];
      assert (before + after)[..|before + after| - 1] == before + front;
      ExecAppend(s, before, front);
    }
  }

  // ----- safety over whole runs

  /** A settled cell never changes again. */
  lemma SettledCellIsFrozen(s: State, m: Move, r: Routine)
    requires Inv(s) && CellOf(s, r).flag == INITIALIZED
    ensures CellOf(Next(s, m), r) == CellOf(s, r)
  {
    if m.thread < |s.threads| {
      assert ThreadOk(s, m.thread, s.threads[m.thread]);
    }
  }

  lemma {:induction false} FrozenOverRuns(s: State, moves: seq<Move>, r: Routine)
    requires Inv(s) && CellOf(s, r).flag == INITIALIZED
    ensures CellOf(Exec(s, moves), r) == CellOf(s, r)
  {
    if moves != [] {
      FrozenOverRuns(s, moves[..|moves| - 1], r);
      ExecPreserves(s, moves[..|moves| - 1]);
      SettledCellIsFrozen(Exec(s, moves[..|moves| - 1]), moves[|moves| - 1], r);
    }
  }

  /** In every reachable state each initialiser has been entered by at most one thread, has constructed
      at most one object, and no two threads are inside it. */
  lemma InitialiserRunsOnce(calls: seq<seq<Call>>, moves: seq<Move>, r: Routine)
    ensures var s := Exec(Start(NOT_INITIALIZED, calls), moves);
            && |CellOf(s, r).entrants| <= 1
            && |CellOf(s, r).made| <= 1
            && forall i, j | 0 <= i < |s.threads| && 0 <= j < |s.threads|
                             && Owns(s.threads[i].now, r) && Owns(s.threads[j].now, r) :: i == j
  {
    InitEstablishes(calls);
    ExecPreserves(Start(NOT_INITIALIZED, calls), moves);
    var s := Exec(Start(NOT_INITIALIZED, calls), moves);
    assert CellOk(s, r);
    forall i, j | 0 <= i < |s.threads| && 0 <= j < |s.threads|
                  && Owns(s.threads[i].now, r) && Owns(s.threads[j].now, r)
      ensures i == j
    {
      assert ThreadOk(s, i, s.threads[i]) && ThreadOk(s, j, s.threads[j]);
    }
    if CellOf(s, r).flag == BEING_INITIALIZED {
      var o := CellOf(s, r).entrants[0];
      assert ThreadOk(s, o, s.threads[o]);
    }
  }

  /** What a call answered: the value and, if asked for, the error, of the one construction there was.
      A queue call whose context failed answers no queue and the context's error. */
  predicate AnswersConstruction(s: State, a: Answer) {
    var c := CellOf(s, a.routine);
    && Settled(s, a.routine, c.value, c.error)
    && a.value == c.value
    && (a.error.Some? ==> a.error.value == c.error)
  }

  /** Any two calls of one routine, answered by any threads at any two moments of a run, agree. */
  lemma EveryCallerAgrees(calls: seq<seq<Call>>, before: seq<Move>, after: seq<Move>,
                          i: nat, k: nat, j: nat, l: nat)
    requires var s := Exec(Start(NOT_INITIALIZED, calls), before);
             i < |s.threads| && k < |s.threads[i].answers|
    requires var s' := Exec(Start(NOT_INITIALIZED, calls), before + after);
             j < |s'.threads| && l < |s'.threads[j].answers|
    requires Exec(Start(NOT_INITIALIZED, calls), before).threads[i].answers[k].routine
             == Exec(Start(NOT_INITIALIZED, calls), before + after).threads[j].answers[l].routine
    ensures var a := Exec(Start(NOT_INITIALIZED, calls), before).threads[i].answers[k];
            var s' := Exec(Start(NOT_INITIALIZED, calls), before + after);
            var b := s'.threads[j].answers[l];
            && a.value == b.value
            && (a.error.Some? && b.error.Some? ==> a.error == b.error)
            && AnswersConstruction(s', a) && AnswersConstruction(s', b)
  {
    var s0 := Start(NOT_INITIALIZED, calls);
    var s := Exec(s0, before);
    InitEstablishes(calls);
    ExecPreserves(s0, before);
    ExecAppend(s0, before, after);
    ExecPreserves(s, after);
    var s' := Exec(s, after);
    var a, b := s.threads[i].answers[k], s'.threads[j].answers[l];
    assert ThreadOk(s, i, s.threads[i]) && AnswerOk(s, a);
    assert ThreadOk(s', j, s'.threads[j]) && AnswerOk(s', b);
    FrozenOverRuns(s, after, a.routine);
    assert CellOk(s', a.routine);
  }

  // ----- what is answered is what the driver delivered

  /** The move lets a thread construct the object of `r`. */
  predicate IsConstruction(s: State, m: Move, r: Routine) {
    && m.thread < |s.threads|
    && s.threads[m.thread].now.Running?
    && s.threads[m.thread].now.routine == r && s.threads[m.thread].now.stage.Create?
  }

  /** In the run some move constructs the object of `r`, and the driver delivers this value and error. */
  ghost predicate Delivered(s: State, moves: seq<Move>, r: Routine, value: int, error: int) {
    exists k :: 0 <= k < |moves| && IsConstruction(Exec(s, moves[..k]), moves[k], r)
                && moves[k].value == value && moves[k].error == error
  }

  /** Constructions are recorded with what the driver delivers in that very move, and nothing else is recorded. */
  lemma MadeByMove(s: State, m: Move, r: Routine)
    ensures CellOf(Next(s, m), r).made
            == CellOf(s, r).made + if IsConstruction(s, m, r) then [Made(m.value, m.error)] else []
  {
  }

  lemma DeliveredStays(s: State, moves: seq<Move>, r: Routine, value: int, error: int)
    requires moves != [] && Delivered(s, moves[..|moves| - 1], r, value, error)
    ensures Delivered(s, moves, r, value, error)
  {
    var front := moves[..|moves| - 1];
    var k :| 0 <= k < |front| && IsConstruction(Exec(s, front[..k]), front[k], r)
             && front[k].value == value && front[k].error == error;
    assert front[..k] == moves[..k];
  }

  /** Over every run from the program start, every construction on record is what the driver delivered in some move of
      a thread that stood at the construction of that routine. */
  lemma {:induction false} MadeIsDelivered(flag: int, calls: seq<seq<Call>>, moves: seq<Move>, r: Routine, j: nat)
    requires j < |CellOf(Exec(Start(flag, calls), moves), r).made|
    ensures var made := CellOf(Exec(Start(flag, calls), moves), r).made[j];
            Delivered(Start(flag, calls), moves, r, made.value, made.error)
  {
    var s0 := Start(flag, calls);
    if moves != [] {
      var front, m := moves[..|moves| - 1], moves[|moves| - 1];
      MadeByMove(Exec(s0, front), m, r);
      if j < |CellOf(Exec(s0, front), r).made| {
        MadeIsDelivered(flag, calls, front, r, j);
        var made := CellOf(Exec(s0, front), r).made[j];
        DeliveredStays(s0, moves, r, made.value, made.error);
      }
    }
  }

  /** The answer has this value and, if an error was asked for, this error. */
  predicate Says(a: Answer, value: int, error: int) {
    a.value == value && (a.error.Some? ==> a.error.value == error)
  }

  /** A context call answers what the driver delivered for the context. A queue call answers what it delivered for the
      queue, if the context came without error; otherwise null and the error that came with the context. */
  ghost predicate AnswersDelivery(s: State, moves: seq<Move>, a: Answer) {
    match a.routine
    case ContextDefault =>
      exists error :: Says(a, a.value, error) && Delivered(s, moves, ContextDefault, a.value, error)
    case QueueDefault =>
      exists context, contextError ::
        && Delivered(s, moves, ContextDefault, context, contextError)
        && if contextError == SUCCESS then
             exists error :: Says(a, a.value, error) && Delivered(s, moves, QueueDefault, a.value, error)
           else
             Says(a, NULL, contextError)
  }

  /** Over every run, every answer of every thread to either routine is what the driver delivered. */
  lemma EveryAnswerIsDelivered(calls: seq<seq<Call>>, moves: seq<Move>, i: nat, k: nat)
    requires var s := Exec(Start(NOT_INITIALIZED, calls), moves);
             i < |s.threads| && k < |s.threads[i].answers|
    ensures AnswersDelivery(Start(NOT_INITIALIZED, calls), moves,
                            Exec(Start(NOT_INITIALIZED, calls), moves).threads[i].answers[k])
  {
    var s0 := Start(NOT_INITIALIZED, calls);
    var s := Exec(s0, moves);
    InitEstablishes(calls);
    ExecPreserves(s0, moves);
    var a := s.threads[i].answers[k];
    assert ThreadOk(s, i, s.threads[i]) && AnswerOk(s, a);
    assert CellOk(s, ContextDefault) && CellOk(s, a.routine);
    var c := CellOf(s, a.routine);
    assert Says(a, c.value, c.error);
    assert s.context.made == [Made(s.context.value, s.context.error)];
    MadeIsDelivered(NOT_INITIALIZED, calls, moves, ContextDefault, 0);
    if a.routine.QueueDefault? && s.context.error == SUCCESS {
      assert s.queue.made == [Made(c.value, c.error)];
      MadeIsDelivered(NOT_INITIALIZED, calls, moves, QueueDefault, 0);
    }
  }
}

/**
 Whose turn the embedding model is: one text at a time, and a visitor's question before every
 passage of the indexing.

 The steps are the atomic operations of the source: the counter's `fetch_add` and `fetch_sub`, the
 fair semaphore's acquire and release (first come, first served, a released permit goes to the
 task at the front), and the passage's load of the counter while it holds the permit. Every
 interleaving of the tasks is a sequence of these steps.
 */
module Turns {
  import opened Wrappers

  /** A task that wants the model: a visitor's question or a passage to index. */
  datatype Task = Question(id: nat) | Passage(id: nat)

  datatype Phase =
    | Counted       // a question that is counted and has not asked for the permit yet
    | Queued        // in the semaphore's queue
    | Granted       // given the permit, which it has not looked at yet
    | Running       // the model is its
    | HandedBack    // a passage that gave the permit back because a question waits
    | Leaving       // a question given up, out of the queue and still counted
    | Over          // done, or given up

  datatype State = State(questions: int, holder: Option<Task>, queue: seq<Task>, phases: map<Task, Phase>)

  const START := State(0, None, [], map[])

  datatype Step =
    | Count(question: Task)     // fetch_add
    | Acquire(task: Task)       // the first poll of acquire_owned
    | Proceed(task: Task)       // the permit in hand: a question is no longer counted, a passage looks at the count
    | GiveUp(task: Task)        // the task's future is dropped before it runs: it leaves the semaphore
    | Uncount(question: Task)   // fetch_sub of a question that was given up
    | Release(task: Task)       // the permit of a running task is dropped

  predicate In(s: State, t: Task, phase: Phase) {
    t in s.phases && s.phases[t] == phase
  }

  predicate Enabled(s: State, step: Step) {
    match step
    case Count(q) => q.Question? && q !in s.phases
    case Acquire(t) => if t.Question? then In(s, t, Counted) else t !in s.phases || In(s, t, HandedBack)
    case Proceed(t) => In(s, t, Granted)
    case GiveUp(t) => In(s, t, Counted) || In(s, t, Queued) || In(s, t, Granted) || In(s, t, HandedBack)
    case Uncount(q) => In(s, q, Leaving)
    case Release(t) => In(s, t, Running)
  }

  /** The queue without a task. */
  function Without(queue: seq<Task>, t: Task): seq<Task> {
    if queue == [] then []
    else if queue[0] == t then Without(queue[1..], t)
    else [queue[0]] + Without(queue[1..], t)
  }

  /** The permit goes to the task at the front of the queue, or back to the semaphore. */
  function Released(s: State): State {
    if s.queue == [] then s.(holder := None)
    else s.(holder := Some(s.queue[0]), queue := s.queue[1..], phases := s.phases[s.queue[0] := Granted])
  }

  function After(s: State, step: Step): State
    requires Enabled(s, step)
  {
    match step
    case Count(q) => s.(questions := s.questions + 1, phases := s.phases[q := Counted])
    case Acquire(t) =>
      if s.holder == None then s.(holder := Some(t), phases := s.phases[t := Granted])
      else s.(queue := s.queue + [t], phases := s.phases[t := Queued])
    case Proceed(t) =>
      if t.Question? then s.(questions := s.questions - 1, phases := s.phases[t := Running])
      else if s.questions == 0 then s.(phases := s.phases[t := Running])
      else Released(s.(phases := s.phases[t := HandedBack]))
    case GiveUp(t) =>
      var given := s.(phases := s.phases[t := if t.Question? then Leaving else Over], queue := Without(s.queue, t));
      if s.phases[t] == Granted then Released(given) else given
    case Uncount(q) => s.(questions := s.questions - 1, phases := s.phases[q := Over])
    case Release(t) => Released(s.(phases := s.phases[t := Over]))
  }

  // ----- the model's own form: a counter, a permit and its queue, changed in place

  class Turns {
    var questions: int
    var holder: Option<Task>
    var queue: seq<Task>
    ghost var phases: map<Task, Phase>

    ghost function Value(): State
      reads this
    {
      State(questions, holder, queue, phases)
    }

    ghost predicate Valid()
      reads this
    {
      Inv(Value())
    }

    constructor ()
      ensures Value() == START && Valid()
    {
      questions, holder, queue, phases := 0, None, [], map[];
    }

    /** A question counts itself, before it asks for the model. */
    method FetchAdd(q: Task)
      requires Valid() && q.Question? && q !in phases
      modifies this
      ensures Valid() && Value() == After(old(Value()), Count(q))
    {
      InvKept(Value(), Count(q));
      questions := questions + 1;
      phases := phases[q := Counted];
    }

    method AcquireOwned(t: Task)
      requires Valid()
      requires if t.Question? then t in phases && phases[t] == Counted else t !in phases || phases[t] == HandedBack
      modifies this
      ensures Valid() && Value() == After(old(Value()), Acquire(t))
    {
      InvKept(Value(), Acquire(t));
      if holder == None {
        holder := Some(t);
        phases := phases[t := Granted];
      } else {
        queue := queue + [t];
        phases := phases[t := Queued];
      }
    }

    method Drop()
      modifies this
      ensures Value() == Released(old(Value()))
    {
      if queue == [] {
        holder := None;
      } else {
        phases := phases[queue[0] := Granted];
        holder := Some(queue[0]);
        queue := queue[1..];
      }
    }

    /** A question that has the permit: its guard is dropped, and it runs. */
    method QuestionRuns(q: Task)
      requires Valid() && q.Question? && q in phases && phases[q] == Granted
      modifies this
      ensures Valid() && Value() == After(old(Value()), Proceed(q))
    {
      InvKept(Value(), Proceed(q));
      questions := questions - 1;
      phases := phases[q := Running];
    }

    /**
     A passage that has the permit: it runs when no question waits, and hands the permit back when
     one does.
     */
    method PassageChecks(p: Task) returns (runs: bool)
      requires Valid() && p.Passage? && p in phases && phases[p] == Granted
      modifies this
      ensures Valid() && Value() == After(old(Value()), Proceed(p))
      ensures runs <==> old(questions) == 0
    {
      InvKept(Value(), Proceed(p));
      if questions == 0 {
        phases := phases[p := Running];
        return true;
      }
      phases := phases[p := HandedBack];
      Drop();
      return false;
    }

    /** The future of a task that does not run yet is dropped. */
    method Cancel(t: Task)
      requires Valid() && t in phases && phases[t] in {Counted, Queued, Granted, HandedBack}
      modifies this
      ensures Valid() && Value() == After(old(Value()), GiveUp(t))
    {
      InvKept(Value(), GiveUp(t));
      var held := holder == Some(t);
      phases := phases[t := if t.Question? then Leaving else Over];
      queue := Without(queue, t);
      if held {
        Drop();
      }
    }

    /** The guard of a question that was given up is dropped. */
    method FetchSub(q: Task)
      requires Valid() && q in phases && phases[q] == Leaving
      modifies this
      ensures Valid() && Value() == After(old(Value()), Uncount(q))
    {
      InvKept(Value(), Uncount(q));
      questions := questions - 1;
      phases := phases[q := Over];
    }

    method Finish(t: Task)
      requires Valid() && t in phases && phases[t] == Running
      modifies this
      ensures Valid() && Value() == After(old(Value()), Release(t))
    {
      InvKept(Value(), Release(t));
      phases := phases[t := Over];
      Drop();
    }
  }

  // ----- what every step keeps

  /** A question that is counted: it waits, until it has the model or its giving up is through. */
  predicate Pending(s: State, t: Task) {
    t.Question? && (In(s, t, Counted) || In(s, t, Queued) || In(s, t, Granted) || In(s, t, Leaving))
  }

  function PendingQuestions(s: State): set<Task> {
    set t | t in s.phases && Pending(s, t)
  }

  predicate Distinct(queue: seq<Task>) {
    forall i, j | 0 <= i < j < |queue| :: queue[i] != queue[j]
  }

  ghost predicate Inv(s: State) {
    && s.questions == |PendingQuestions(s)|
    && (forall t :: s.holder == Some(t) <==> In(s, t, Granted) || In(s, t, Running))
    && (s.holder == None ==> s.queue == [])
    && Distinct(s.queue)
    && (forall t :: t in s.queue <==> In(s, t, Queued))
    && (forall t | In(s, t, Counted) || In(s, t, Leaving) :: t.Question?)
    && (forall t | In(s, t, HandedBack) :: t.Passage?)
  }

  lemma {:induction false} WithoutIs(queue: seq<Task>, t: Task)
    requires Distinct(queue)
    ensures forall u :: u in Without(queue, t) <==> u in queue && u != t
    ensures Distinct(Without(queue, t))
    ensures t !in queue ==> Without(queue, t) == queue
  {
    if queue != [] {
      WithoutIs(queue[1..], t);
      assert queue[0] !in queue[1..];
    }
  }

  /** The invariant while the permit is in no task's hands: between its drop and its going on. */
  ghost predicate Loose(s: State) {
    && s.questions == |PendingQuestions(s)|
    && (forall t :: !In(s, t, Granted) && !In(s, t, Running))
    && Distinct(s.queue)
    && (forall t :: t in s.queue <==> In(s, t, Queued))
    && (forall t | In(s, t, Counted) || In(s, t, Leaving) :: t.Question?)
    && (forall t | In(s, t, HandedBack) :: t.Passage?)
  }

  lemma ReleasedKeeps(s: State)
    requires Loose(s)
    ensures Inv(Released(s)) && PendingQuestions(Released(s)) == PendingQuestions(s)
  {
    var s' := Released(s);
    if s.queue != [] {
      var first := s.queue[0];
      assert first in s.queue && In(s, first, Queued);
      assert first !in s.queue[1..];
      assert forall t :: t in s'.queue <==> t in s.queue && t != first;
      assert forall t, phase | t != first :: In(s', t, phase) == In(s, t, phase);
      assert In(s', first, Granted);
      SamePending(s, s');
    } else {
      assert forall t, phase :: In(s', t, phase) == In(s, t, phase);
      SamePending(s, s');
    }
  }

  // The task that has the permit is the only one that does.
  lemma NobodyElse(s: State, s': State, t: Task)
    requires Inv(s) && (In(s, t, Granted) || In(s, t, Running))
    requires !In(s', t, Granted) && !In(s', t, Running)
    requires forall u, phase | u != t :: In(s', u, phase) == In(s, u, phase)
    ensures forall u :: !In(s', u, Granted) && !In(s', u, Running)
  {
    assert s.holder == Some(t);
  }

  lemma SamePending(s: State, s': State)
    requires forall t :: Pending(s, t) <==> Pending(s', t)
    ensures PendingQuestions(s) == PendingQuestions(s')
  {
    assert forall t :: t in PendingQuestions(s) <==> Pending(s, t);
    assert forall t :: t in PendingQuestions(s') <==> Pending(s', t);
  }

  lemma InvKept(s: State, step: Step)
    requires Inv(s) && Enabled(s, step)
    ensures Inv(After(s, step))
  {
    match step
    case Count(q) => CountKeeps(s, q);
    case Acquire(t) => AcquireKeeps(s, t);
    case Proceed(t) => if t.Question? { QuestionKeeps(s, t, Running); } else { PassageKeeps(s, t); }
    case GiveUp(t) => GiveUpKeeps(s, t);
    case Uncount(q) => QuestionKeeps(s, q, Over);
    case Release(t) => ReleaseKeeps(s, t);
  }

  lemma CountKeeps(s: State, q: Task)
    requires Inv(s) && Enabled(s, Count(q))
    ensures Inv(After(s, Count(q)))
  {
    var s' := After(s, Count(q));
    assert PendingQuestions(s') == PendingQuestions(s) + {q};
  }

  lemma AcquireKeeps(s: State, t: Task)
    requires Inv(s) && Enabled(s, Acquire(t))
    ensures Inv(After(s, Acquire(t)))
  {
    assert !In(s, t, Queued) && t !in s.queue;
    SamePending(s, After(s, Acquire(t)));
  }

  // A question that is no longer counted, having got the model or been given up.
  lemma QuestionKeeps(s: State, q: Task, phase: Phase)
    requires Inv(s) && q.Question?
    requires (In(s, q, Granted) && phase == Running) || (In(s, q, Leaving) && phase == Over)
    ensures Inv(s.(questions := s.questions - 1, phases := s.phases[q := phase]))
  {
    var s' := s.(questions := s.questions - 1, phases := s.phases[q := phase]);
    assert PendingQuestions(s') == PendingQuestions(s) - {q};
    assert q in PendingQuestions(s);
  }

  lemma PassageKeeps(s: State, p: Task)
    requires Inv(s) && p.Passage? && Enabled(s, Proceed(p))
    ensures Inv(After(s, Proceed(p)))
  {
    if s.questions == 0 {
      SamePending(s, After(s, Proceed(p)));
    } else {
      var back := s.(phases := s.phases[p := HandedBack]);
      SamePending(s, back);
      NobodyElse(s, back, p);
      ReleasedKeeps(back);
    }
  }

  lemma GiveUpKeeps(s: State, t: Task)
    requires Inv(s) && Enabled(s, GiveUp(t))
    ensures Inv(After(s, GiveUp(t)))
  {
    var given := s.(phases := s.phases[t := if t.Question? then Leaving else Over], queue := Without(s.queue, t));
    if s.phases[t] == Granted {
      GrantGivenUp(s, given, t);
      ReleasedKeeps(given);
    } else {
      WaitGivenUp(s, given, t);
    }
    hide Inv, Loose, Released, Without;
  }

  lemma GrantGivenUp(s: State, given: State, t: Task)
    requires Inv(s) && In(s, t, Granted)
    requires given == s.(phases := s.phases[t := if t.Question? then Leaving else Over], queue := Without(s.queue, t))
    ensures Loose(given)
  {
    WithoutIs(s.queue, t);
    SamePending(s, given);
    NobodyElse(s, given, t);
    hide Without, Distinct;
  }

  lemma WaitGivenUp(s: State, given: State, t: Task)
    requires Inv(s) && Enabled(s, GiveUp(t)) && !In(s, t, Granted)
    requires given == s.(phases := s.phases[t := if t.Question? then Leaving else Over], queue := Without(s.queue, t))
    ensures Inv(given)
  {
    WithoutIs(s.queue, t);
    GivenPhases(s, given, t);
    SamePending(s, given);
    assert !In(s, t, Running);
    hide Without, Distinct, In, Pending, PendingQuestions;
  }

  lemma GivenPhases(s: State, given: State, t: Task)
    requires Enabled(s, GiveUp(t)) && (In(s, t, Counted) ==> t.Question?) && (In(s, t, HandedBack) ==> t.Passage?)
    requires given.phases == s.phases[t := if t.Question? then Leaving else Over]
    ensures forall u, phase | u != t :: In(given, u, phase) == In(s, u, phase)
    ensures forall phase :: In(given, t, phase) <==> phase == if t.Question? then Leaving else Over
    ensures forall u :: Pending(s, u) <==> Pending(given, u)
  {}

  lemma ReleaseKeeps(s: State, t: Task)
    requires Inv(s) && Enabled(s, Release(t))
    ensures Inv(After(s, Release(t)))
  {
    var over := s.(phases := s.phases[t := Over]);
    SamePending(s, over);
    NobodyElse(s, over, t);
    ReleasedKeeps(over);
  }

  // ----- every run

  predicate Runs(s: State, steps: seq<Step>)
    decreases |steps|
  {
    steps == [] || (Enabled(s, steps[0]) && Runs(After(s, steps[0]), steps[1..]))
  }

  function Final(s: State, steps: seq<Step>): State
    requires Runs(s, steps)
    decreases |steps|
  {
    if steps == [] then s else Final(After(s, steps[0]), steps[1..])
  }

  /**
   In every reachable state the count is the number of waiting questions and the permit has one
   task at most.
   */
  lemma {:induction false} EveryRunKeeps(s: State, steps: seq<Step>)
    requires Inv(s) && Runs(s, steps)
    ensures var t := Final(s, steps);
      Inv(t) && forall a, b | In(t, a, Running) && In(t, b, Running) :: a == b
    decreases |steps|
  {
    if steps == [] {
      forall a, b | In(s, a, Running) && In(s, b, Running)
        ensures a == b
      {
        OneAtATime(s, a, b);
      }
    } else {
      InvKept(s, steps[0]);
      EveryRunKeeps(After(s, steps[0]), steps[1..]);
    }
  }

  lemma StartIsValid()
    ensures Inv(START)
  {
    assert PendingQuestions(START) == {};
  }

  lemma OneAtATime(s: State, t: Task, u: Task)
    requires Inv(s) && In(s, t, Running) && (In(s, u, Running) || In(s, u, Granted))
    ensures t == u
  {
    assert s.holder == Some(t) && s.holder == Some(u);
  }

  /** The tasks that get the model in a run, in order. */
  function Starts(s: State, steps: seq<Step>): seq<Task>
    requires Runs(s, steps)
    decreases |steps|
  {
    if steps == [] then []
    else
      var step := steps[0];
      (if step.Proceed? && In(After(s, step), step.task, Running) then [step.task] else [])
      + Starts(After(s, step), steps[1..])
  }

  /** Whether a question is counted in every state of a run. */
  predicate PendingThroughout(s: State, steps: seq<Step>, q: Task)
    requires Runs(s, steps)
    decreases |steps|
  {
    Pending(s, q) && (steps != [] ==> PendingThroughout(After(s, steps[0]), steps[1..], q))
  }

  /** While a question is counted no passage gets the model, whatever the interleaving. */
  lemma {:induction false} QuestionsGoFirst(s: State, steps: seq<Step>, q: Task)
    requires Inv(s) && Runs(s, steps) && PendingThroughout(s, steps, q)
    ensures forall t | t in Starts(s, steps) :: t.Question?
    decreases |steps|
  {
    if steps != [] {
      assert q in PendingQuestions(s);
      InvKept(s, steps[0]);
      QuestionsGoFirst(After(s, steps[0]), steps[1..], q);
    }
  }

  /** When no question is counted, the next passage to look runs. */
  lemma PassageRunsWhenNoneWaits(s: State, p: Task)
    requires Inv(s) && p.Passage? && Enabled(s, Proceed(p))
    ensures In(After(s, Proceed(p)), p, Running) <==> forall q :: !Pending(s, q)
  {
    assert forall q :: Pending(s, q) <==> q in PendingQuestions(s);
    if s.questions == 0 {
      assert PendingQuestions(s) == {};
    } else {
      assert PendingQuestions(s) != {};
      var q :| q in PendingQuestions(s);
      assert Pending(s, q);
      if s.queue != [] {
        assert s.queue[0] in s.queue;
        assert In(s, s.queue[0], Queued);
      }
    }
  }

  // ----- the wait of one question

  /** The tasks in front of `q`. */
  function Ahead(queue: seq<Task>, q: Task): seq<Task> {
    if queue == [] || queue[0] == q then [] else [queue[0]] + Ahead(queue[1..], q)
  }

  lemma {:induction false} AheadOfNewer(queue: seq<Task>, t: Task, q: Task)
    requires q in queue
    ensures Ahead(queue + [t], q) == Ahead(queue, q)
  {
    assert (queue + [t])[1..] == queue[1..] + [t];
    if queue[0] != q {
      AheadOfNewer(queue[1..], t, q);
    }
  }

  lemma {:induction false} AheadWithout(queue: seq<Task>, t: Task, q: Task)
    requires t != q
    ensures Ahead(Without(queue, t), q) == Without(Ahead(queue, q), t)
  {
    if queue != [] && queue[0] != q {
      AheadWithout(queue[1..], t, q);
    }
  }

  lemma {:induction false} WithoutShrinks(queue: seq<Task>, t: Task)
    ensures |Without(queue, t)| <= |queue| && forall u | u in Without(queue, t) :: u in queue
  {
    if queue != [] {
      WithoutShrinks(queue[1..], t);
    }
  }

  predicate HasGrant(s: State) {
    s.holder.Some? && In(s, s.holder.value, Granted)
  }

  /**
   How many more moves of the permit a queued question waits for at most: two for every task in
   front of it.
   */
  function Wait(s: State, q: Task): nat {
    2 * |Ahead(s.queue, q)| + if HasGrant(s) then 2 else 1
  }

  /** A step of the task that has the permit. */
  predicate MovesPermit(s: State, step: Step) {
    match step
    case Proceed(_) => true
    case Release(_) => true
    case GiveUp(t) => In(s, t, Granted)
    case _ => false
  }

  // One step while `q` is queued before and after it.
  lemma WaitStep(s: State, step: Step, q: Task)
    requires Inv(s) && Enabled(s, step) && q.Question? && In(s, q, Queued) && In(After(s, step), q, Queued)
    ensures var s' := After(s, step);
      && Wait(s', q) + (if MovesPermit(s, step) then 1 else 0) <= Wait(s, q)
      && (forall t | t in Ahead(s'.queue, q) :: t in Ahead(s.queue, q))
      && (forall t | In(s', t, Granted) :: In(s, t, Granted) || t in Ahead(s.queue, q))
  {
    assert q in s.queue && s.queue[0] in s.queue && In(s, s.queue[0], Queued);
    assert q in PendingQuestions(s);
    match step
    case Count(_) =>
    case Uncount(_) =>
    case Acquire(t) =>
      AheadOfNewer(s.queue, t, q);
    case Proceed(t) =>
      assert s.holder == Some(t);
    case GiveUp(t) =>
      WithoutIs(s.queue, t);
      AheadWithout(s.queue, t, q);
      WithoutShrinks(Ahead(s.queue, q), t);
      if s.phases[t] == Granted {
        assert s.holder == Some(t);
        assert !In(s, t, Queued);
      }
    case Release(t) =>
      assert s.holder == Some(t);
  }

  predicate QueuedThroughout(s: State, steps: seq<Step>, q: Task)
    requires Runs(s, steps)
    decreases |steps|
  {
    In(s, q, Queued) && (steps != [] ==> QueuedThroughout(After(s, steps[0]), steps[1..], q))
  }

  /** How often the permit moves in a run. */
  function Moves(s: State, steps: seq<Step>): nat
    requires Runs(s, steps)
    decreases |steps|
  {
    if steps == [] then 0
    else (if MovesPermit(s, steps[0]) then 1 else 0) + Moves(After(s, steps[0]), steps[1..])
  }

  /**
   While a question is queued, the permit moves at most twice for every task that was in front of
   it, and whoever gets the model was in front of it or had the permit already: a question that
   comes later does not overtake, and no passage runs.
   */
  lemma {:induction false} AQuestionWaitsItsTurn(s: State, steps: seq<Step>, q: Task)
    requires Inv(s) && Runs(s, steps) && q.Question? && QueuedThroughout(s, steps, q)
    ensures Moves(s, steps) + Wait(Final(s, steps), q) <= Wait(s, q)
    ensures forall t | t in Starts(s, steps) :: t.Question? && (In(s, t, Granted) || t in Ahead(s.queue, q))
    decreases |steps|
  {
    if steps != [] {
      var s' := After(s, steps[0]);
      InvKept(s, steps[0]);
      WaitStep(s, steps[0], q);
      AQuestionWaitsItsTurn(s', steps[1..], q);
      assert q in PendingQuestions(s);
    }
  }

  /** A waiting task never waits for nobody: some task has the permit and a step to take. */
  lemma SomebodyMoves(s: State, t: Task)
    requires Inv(s) && In(s, t, Queued)
    ensures s.holder.Some? && (Enabled(s, Proceed(s.holder.value)) || Enabled(s, Release(s.holder.value)))
  {
    assert t in s.queue;
    assert s.holder == Some(s.holder.value);
  }
}

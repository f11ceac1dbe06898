/**
 The gateway's budget of write bodies: every write takes its share of a fair semaphore, counted in
 KiB, before its body is read, and gives it back when it is done.

 The semaphore is first come, first served: a write that has to wait waits behind the ones before
 it, and a freed share goes to the front of the queue. A write whose wait is over is taken out.
 */
module WriteBudget {
  import opened Wrappers

  const U32_MAX := 4_294_967_295
  const KIB := 1024

  /** The budget in KiB for a setting in MiB: at least one, and what 32 bits hold at most. */
  function BudgetOf(mib: nat): nat {
    var kib := if mib * KIB > U32_MAX then U32_MAX else mib * KIB;
    if kib < 1 then 1 else kib
  }

  function DivCeil(n: nat, size: nat): nat
    requires size > 0
  {
    if n % size == 0 then n / size else n / size + 1
  }

  /** The bytes a body counts for: one of unknown length as the largest body accepted. */
  function BytesOf(length: Option<nat>, largest: nat): nat {
    match length case Some(n) => n case None => largest
  }

  /** The share of a body of so many bytes: its KiB, at least one and at most the whole budget. */
  function ShareOf(bytes: nat, budget: nat): nat
    requires budget >= 1
  {
    var kib := if DivCeil(bytes, KIB) > U32_MAX then U32_MAX else DivCeil(bytes, KIB);
    if kib < 1 then 1 else if kib > budget then budget else kib
  }

  /** A write, told from every other by the number it arrived under. */
  datatype Write = Write(id: nat, bytes: nat)

  /** `next` is the number of the next write to arrive. */
  datatype State = State(budget: nat, admitted: seq<Write>, queue: seq<Write>, next: nat)

  predicate Valid(s: State) {
    1 <= s.budget <= U32_MAX && Taken(s.admitted, s.budget) <= s.budget
    && (s.queue != [] ==> Taken(s.admitted, s.budget) + ShareOf(s.queue[0].bytes, s.budget) > s.budget)
    && Told(s)
  }

  /** Every write is there once. */
  predicate Told(s: State) {
    Distinct(s.admitted + s.queue) && forall w | w in s.admitted + s.queue :: w.id < s.next
  }

  predicate Distinct(writes: seq<Write>) {
    forall i, j | 0 <= i < j < |writes| :: writes[i].id != writes[j].id
  }

  /** The KiB the writes hold together. */
  function Taken(writes: seq<Write>, budget: nat): nat
    requires budget >= 1
  {
    if writes == [] then 0
    else Taken(writes[..|writes| - 1], budget) + ShareOf(writes[|writes| - 1].bytes, budget)
  }

  /** Lets the front of the queue in as long as it fits. */
  function Settled(s: State): State
    requires s.budget >= 1
    decreases |s.queue|
  {
    if s.queue == [] || Taken(s.admitted, s.budget) + ShareOf(s.queue[0].bytes, s.budget) > s.budget then s
    else Settled(s.(admitted := s.admitted + [s.queue[0]], queue := s.queue[1..]))
  }

  datatype Step =
    | Arrive(bytes: nat)
    | Leave(index: nat)       // the admitted write at the index is done
    | TimeOut(index: nat)     // the wait of the queued write at the index is over

  predicate Enabled(s: State, step: Step) {
    match step
    case Arrive(_) => true
    case Leave(i) => i < |s.admitted|
    case TimeOut(i) => i < |s.queue|
  }

  function Removed(writes: seq<Write>, i: nat): seq<Write>
    requires i < |writes|
  {
    writes[..i] + writes[i + 1..]
  }

  /** What a step changes before the queue is looked at. */
  function Changed(s: State, step: Step): State
    requires Enabled(s, step)
  {
    match step
    case Arrive(bytes) => s.(queue := s.queue + [Write(s.next, bytes)], next := s.next + 1)
    case Leave(i) => s.(admitted := Removed(s.admitted, i))
    case TimeOut(i) => s.(queue := Removed(s.queue, i))
  }

  function After(s: State, step: Step): State
    requires s.budget >= 1 && Enabled(s, step)
  {
    Settled(Changed(s, step))
  }

  // ----- the semaphore in place

  class Budget {
    const total: nat
    var free: int
    var admitted: seq<Write>
    var queue: seq<Write>
    var next: nat

    ghost function Value(): State
      reads this
    {
      State(total, admitted, queue, next)
    }

    ghost predicate Consistent()
      reads this
    {
      Valid(Value()) && free == total - Taken(admitted, total)
    }

    constructor (mib: nat)
      ensures Consistent() && Value() == State(BudgetOf(mib), [], [], 0)
    {
      total := BudgetOf(mib);
      free := BudgetOf(mib);
      admitted, queue, next := [], [], 0;
    }

    /** Hands free shares to the front of the queue. */
    method Settle()
      requires 1 <= total <= U32_MAX && free == total - Taken(admitted, total) && free >= 0 && Told(Value())
      modifies this
      ensures Consistent() && Value() == Settled(old(Value()))
    {
      hide Settled, Taken, ShareOf, Told;
      while queue != [] && free >= ShareOf(queue[0].bytes, total)
        invariant free == total - Taken(admitted, total) && free >= 0
        invariant Settled(Value()) == Settled(old(Value())) && Told(Value())
        decreases |queue|
      {
        FrontFits(Value());
        free := free - ShareOf(queue[0].bytes, total);
        admitted := admitted + [queue[0]];
        queue := queue[1..];
      }
      NothingFits(Value());
    }

    /** A write of `length` bytes asks for its share. */
    method WriteShare(length: Option<nat>, largest: nat)
      requires Consistent()
      modifies this
      ensures Consistent() && Value() == After(old(Value()), Arrive(BytesOf(length, largest)))
      ensures old(queue) == [] ==>
        AtOnce(old(Value()), Value(), if length.Some? then length.value else largest)
    {
      hide AtOnce, Told, Taken, ShareOf, Settled, Distinct;
      if queue == [] {
        AdmittedAtOnce(Value(), if length.Some? then length.value else largest);
      }
      ToldKept(Value(), Arrive(BytesOf(length, largest)));
      queue := queue + [Write(next, BytesOf(length, largest))];
      next := next + 1;
      Settle();
    }

    /** An admitted write is done: its permit is dropped. */
    method Done(i: nat)
      requires Consistent() && i < |admitted|
      modifies this
      ensures Consistent() && Value() == After(old(Value()), Leave(i))
    {
      ToldKept(Value(), Leave(i));
      TakenLess(admitted, i, total);
      free := free + ShareOf(admitted[i].bytes, total);
      admitted := Removed(admitted, i);
      Settle();
    }

    /** A queued write has waited its time. */
    method GiveUp(i: nat)
      requires Consistent() && i < |queue|
      modifies this
      ensures Consistent() && Value() == After(old(Value()), TimeOut(i))
    {
      hide Told, Taken, ShareOf, Settled;
      ToldKept(Value(), TimeOut(i));
      queue := Removed(queue, i);
      Settle();
    }
  }

  /** The state with the front of the queue admitted. */
  function FrontIn(s: State): State
    requires s.queue != []
  {
    s.(admitted := s.admitted + [s.queue[0]], queue := s.queue[1..])
  }

  lemma FrontFits(s: State)
    requires s.budget >= 1 && s.queue != []
    requires Taken(s.admitted, s.budget) + ShareOf(s.queue[0].bytes, s.budget) <= s.budget
    ensures Settled(s) == Settled(FrontIn(s)) && (Told(s) ==> Told(FrontIn(s)))
    ensures Taken(FrontIn(s).admitted, s.budget) == Taken(s.admitted, s.budget) + ShareOf(s.queue[0].bytes, s.budget)
  {
    TakenMore(s.admitted, s.queue[0], s.budget);
    FrontIsTold(s);
    hide Told, Taken, ShareOf;
  }

  lemma FrontIsTold(s: State)
    requires s.queue != []
    ensures Told(s) <==> Told(FrontIn(s))
  {
    hide Distinct;
    assert (s.admitted + [s.queue[0]]) + s.queue[1..] == s.admitted + s.queue;
  }

  lemma NothingFits(s: State)
    requires s.budget >= 1
    requires s.queue == [] || Taken(s.admitted, s.budget) + ShareOf(s.queue[0].bytes, s.budget) > s.budget
    ensures Settled(s) == s
  {}

  lemma TakenMore(writes: seq<Write>, w: Write, budget: nat)
    requires budget >= 1
    ensures Taken(writes + [w], budget) == Taken(writes, budget) + ShareOf(w.bytes, budget)
  {
    assert (writes + [w])[..|writes|] == writes;
  }

  lemma {:induction false} TakenLess(writes: seq<Write>, i: nat, budget: nat)
    requires budget >= 1 && i < |writes|
    ensures Taken(writes, budget) == Taken(Removed(writes, i), budget) + ShareOf(writes[i].bytes, budget)
  {
    var last := |writes| - 1;
    if i < last {
      TakenLess(writes[..last], i, budget);
      assert Removed(writes, i) == Removed(writes[..last], i) + [writes[last]];
      TakenMore(Removed(writes[..last], i), writes[last], budget);
    } else {
      assert Removed(writes, i) == writes[..last];
    }
  }

  // ----- what every step keeps

  lemma {:induction false} SettledIsValid(s: State)
    requires 1 <= s.budget <= U32_MAX && Taken(s.admitted, s.budget) <= s.budget && Told(s)
    ensures Valid(Settled(s)) && Settled(s).budget == s.budget && Settled(s).next == s.next
    decreases |s.queue|
  {
    hide Distinct, Told, Taken, ShareOf, Settled;
    if s.queue != [] && Taken(s.admitted, s.budget) + ShareOf(s.queue[0].bytes, s.budget) <= s.budget {
      FrontFits(s);
      SettledIsValid(FrontIn(s));
    } else {
      NothingFits(s);
    }
  }

  lemma ValidKept(s: State, step: Step)
    requires Valid(s) && Enabled(s, step)
    ensures Valid(After(s, step)) && After(s, step).budget == s.budget
  {
    ToldKept(s, step);
    if step.Leave? {
      TakenLess(s.admitted, step.index, s.budget);
    }
    SettledIsValid(Changed(s, step));
    hide Told, Taken, ShareOf, Removed, Settled;
  }

  lemma ToldKept(s: State, step: Step)
    requires Told(s) && Enabled(s, step)
    ensures Told(Changed(s, step))
  {
    hide Told;
    match step
    case Arrive(bytes) => ArrivedIsTold(s, bytes);
    case Leave(i) => RemovedIsTold(s, Changed(s, step), i);
    case TimeOut(i) => RemovedIsTold(s, Changed(s, step), |s.admitted| + i);
  }

  lemma ArrivedIsTold(s: State, bytes: nat)
    requires Told(s)
    ensures Told(Changed(s, Arrive(bytes)))
  {
    var all, t := s.admitted + s.queue, Changed(s, Arrive(bytes));
    assert t.admitted + t.queue == all + [Write(s.next, bytes)];
    NewIsTold(all, Write(s.next, bytes));
    hide Distinct;
  }

  lemma NewIsTold(all: seq<Write>, w: Write)
    requires Distinct(all) && forall v | v in all :: v.id < w.id
    ensures Distinct(all + [w]) && forall v | v in all + [w] :: v.id < w.id + 1
  {
    assert forall k | 0 <= k < |all| :: all[k] in all;
  }

  lemma RemovedIsTold(s: State, t: State, i: nat)
    requires Told(s) && i < |s.admitted + s.queue| && t.next == s.next
    requires t.admitted + t.queue == Removed(s.admitted + s.queue, i)
    ensures Told(t)
  {
    var all, rest := s.admitted + s.queue, t.admitted + t.queue;
    assert forall k | 0 <= k < |rest| :: rest[k] == all[if k < i then k else k + 1];
  }

  function Bytes(writes: seq<Write>): nat {
    if writes == [] then 0 else Bytes(writes[..|writes| - 1]) + writes[|writes| - 1].bytes
  }

  /** The KiB of a body, rounded up and at least one, or the whole budget when it is larger. */
  function Clipped(bytes: nat, budget: nat): nat {
    var kib := if bytes == 0 then 1 else (bytes + 1023) / 1024;
    if kib <= budget then kib else budget
  }

  function ClippedAll(writes: seq<Write>, budget: nat): nat {
    if writes == [] then 0 else ClippedAll(writes[..|writes| - 1], budget) + Clipped(writes[|writes| - 1].bytes, budget)
  }

  /** A budget set in MiB is its KiB, where 32 bits hold them, and at least one. */
  lemma BudgetIs(mib: nat)
    ensures 1 <= mib <= 4_194_303 ==> BudgetOf(mib) == mib * 1024
    ensures mib == 0 ==> BudgetOf(mib) == 1
    ensures mib > 4_194_303 ==> BudgetOf(mib) == 4_294_967_295
  {}

  lemma {:induction false} TakenIs(writes: seq<Write>, budget: nat)
    requires 1 <= budget <= U32_MAX
    ensures Taken(writes, budget) == ClippedAll(writes, budget)
  {
    if writes != [] {
      TakenIs(writes[..|writes| - 1], budget);
      ShareCovers(writes[|writes| - 1].bytes, budget);
    }
  }

  /** Whether a write that found nobody waiting was admitted when it fits, and queued when it does not. */
  predicate AtOnce(s: State, t: State, bytes: nat) {
    var w := Write(s.next, bytes);
    if ClippedAll(s.admitted, s.budget) + Clipped(bytes, s.budget) <= s.budget
    then t.admitted == s.admitted + [w] && t.queue == []
    else t.admitted == s.admitted && t.queue == [w]
  }

  /**
   With nobody waiting, a write is admitted at once exactly when the KiB of the admitted bodies and
   its own, each rounded up and at least one, total at most the budget; a body larger than the budget
   counts as the whole of it.
   */
  lemma AdmittedAtOnce(s: State, bytes: nat)
    requires Valid(s) && s.queue == []
    ensures AtOnce(s, After(s, Arrive(bytes)), bytes)
  {
    TakenIs(s.admitted, s.budget);
    ShareCovers(bytes, s.budget);
    var u := Changed(s, Arrive(bytes));
    assert u.queue == [Write(s.next, bytes)];
    hide Taken, ShareOf, Clipped, ClippedAll, Told, Settled;
    if Taken(u.admitted, u.budget) + ShareOf(bytes, u.budget) <= u.budget {
      FrontFits(u);
      NothingFits(FrontIn(u));
    } else {
      NothingFits(u);
    }
  }

  lemma ShareCovers(bytes: nat, budget: nat)
    requires 1 <= budget <= U32_MAX
    ensures 1 <= ShareOf(bytes, budget) <= budget
    ensures ShareOf(bytes, budget) == Clipped(bytes, budget)
    ensures bytes >= 1 ==> (ShareOf(bytes, budget) - 1) * 1024 < bytes
    ensures ShareOf(0, budget) == 1
    ensures bytes <= budget * KIB ==> bytes <= ShareOf(bytes, budget) * KIB
    ensures bytes > budget * KIB ==> ShareOf(bytes, budget) == budget
  {
    assert bytes <= DivCeil(bytes, KIB) * KIB;
    assert bytes > budget * KIB ==> DivCeil(bytes, KIB) > budget;
    assert bytes <= budget * KIB ==> DivCeil(bytes, KIB) <= budget;
  }

  lemma {:induction false} SharesCover(writes: seq<Write>, budget: nat)
    requires 1 <= budget <= U32_MAX && forall w | w in writes :: w.bytes <= budget * KIB
    ensures Bytes(writes) <= Taken(writes, budget) * KIB
  {
    if writes != [] {
      var last := writes[|writes| - 1];
      SharesCover(writes[..|writes| - 1], budget);
      ShareCovers(last.bytes, budget);
    }
  }

  lemma {:induction false} EachTakesOne(writes: seq<Write>, budget: nat)
    requires 1 <= budget <= U32_MAX
    ensures Taken(writes, budget) >= |writes|
  {
    if writes != [] {
      EachTakesOne(writes[..|writes| - 1], budget);
      ShareCovers(writes[|writes| - 1].bytes, budget);
    }
  }

  /**
   The bodies admitted together are within the budget, or one body larger than the whole budget is
   admitted alone.
   */
  lemma WithinTheBudget(s: State)
    requires Valid(s)
    ensures Bytes(s.admitted) <= s.budget * KIB || (|s.admitted| == 1 && s.admitted[0].bytes > s.budget * KIB)
  {
    if w :| w in s.admitted && w.bytes > s.budget * KIB {
      var i :| 0 <= i < |s.admitted| && s.admitted[i] == w;
      ShareCovers(w.bytes, s.budget);
      TakenLess(s.admitted, i, s.budget);
      EachTakesOne(Removed(s.admitted, i), s.budget);
    } else {
      SharesCover(s.admitted, s.budget);
    }
  }

  // ----- no queued write is passed over, and none waits for ever

  /** Settling moves a part of the queue's front over, in order. */
  lemma {:induction false} SettledMovesTheFront(s: State) returns (k: nat)
    requires s.budget >= 1
    ensures k <= |s.queue| && Settled(s) == s.(admitted := s.admitted + s.queue[..k], queue := s.queue[k..])
    decreases |s.queue|
  {
    hide Taken, ShareOf, Settled;
    if s.queue == [] || Taken(s.admitted, s.budget) + ShareOf(s.queue[0].bytes, s.budget) > s.budget {
      NothingFits(s);
      k := 0;
      assert s.admitted + s.queue[..0] == s.admitted && s.queue[0..] == s.queue;
    } else {
      FrontFits(s);
      var t := FrontIn(s);
      var j := SettledMovesTheFront(t);
      k := j + 1;
      assert s.queue[..k] == [s.queue[0]] + s.queue[1..][..j];
      assert s.admitted + s.queue[..k] == t.admitted + t.queue[..j];
      assert s.queue[k..] == t.queue[j..];
    }
  }

  /**
   The write at place `k` of the queue waits for as many others at most as are admitted or in front
   of it: every write that is done takes one off, and nothing adds one. `place` is where it stands
   after the step, unless it was admitted or given up.
   */
  lemma OneWriteLess(s: State, step: Step, k: nat) returns (place: Option<nat>)
    requires Valid(s) && Enabled(s, step) && k < |s.queue|
    ensures var t := After(s, step);
      match place
      case None => s.queue[k] in t.admitted || step == TimeOut(k)
      case Some(j) =>
        && j < |t.queue| && t.queue[j] == s.queue[k]
        && |t.admitted| + j + (if step.Leave? then 1 else 0) <= |s.admitted| + k
        && (forall i | j < i < |t.queue| :: t.queue[i] in s.queue[k + 1..] || t.queue[i].id == s.next)
    ensures s.queue[k] !in s.admitted
  {
    NoTwin(s, k);
    if step == TimeOut(k) {
      return None;
    }
    var u := Changed(s, step);
    var at := ChangedAt(s, step, k);
    var moved := SettledMovesTheFront(u);
    hide Settled, Taken, ShareOf, Removed, Changed, After, Told, Distinct;
    var t := Settled(u);
    if at < moved {
      assert t.admitted[|u.admitted| + at] == s.queue[k];
      return None;
    }
    place := Some(at - moved);
    assert t.queue[at - moved] == u.queue[at];
    forall i | at - moved < i < |t.queue|
      ensures t.queue[i] in s.queue[k + 1..] || t.queue[i].id == s.next
    {
      assert t.queue[i] == u.queue[i + moved];
    }
  }

  // A queued write is not admitted, nor queued twice.
  lemma NoTwin(s: State, k: nat)
    requires Told(s) && k < |s.queue|
    ensures s.queue[k] !in s.admitted && s.queue[k] !in s.queue[k + 1..]
  {
    var all := s.admitted + s.queue;
    assert all[|s.admitted| + k] == s.queue[k];
    assert forall i | 0 <= i < |s.admitted| :: all[i] == s.admitted[i];
    assert forall i | 0 <= i < |s.queue| :: all[|s.admitted| + i] == s.queue[i];
  }

  lemma ChangedAt(s: State, step: Step, k: nat) returns (at: nat)
    requires Enabled(s, step) && k < |s.queue| && step != TimeOut(k)
    ensures var u := Changed(s, step);
      && at < |u.queue| && u.queue[at] == s.queue[k]
      && |u.admitted| + at + (if step.Leave? then 1 else 0) <= |s.admitted| + k
      && forall i | at < i < |u.queue| :: u.queue[i] in s.queue[k + 1..] || u.queue[i].id == s.next
  {
    var rest := s.queue[k + 1..];
    at := if step.TimeOut? && step.index < k then k - 1 else k;
    var u := Changed(s, step);
    forall i | at < i < |u.queue|
      ensures u.queue[i] in rest || u.queue[i].id == s.next
    {
      if step.TimeOut? {
        var from := if i < step.index then i else i + 1;
        assert u.queue[i] == s.queue[from] == rest[from - (k + 1)];
      } else if i < |s.queue| {
        assert u.queue[i] == rest[i - (k + 1)];
      }
    }
  }

  /** A queued write never waits for nobody: some write is admitted, and its leaving is a step. */
  lemma SomebodyIsAdmitted(s: State)
    requires Valid(s) && s.queue != []
    ensures s.admitted != [] && Enabled(s, Leave(0))
  {
    ShareCovers(s.queue[0].bytes, s.budget);
  }

  predicate Runs(s: State, steps: seq<Step>)
    requires s.budget >= 1
    decreases |steps|
  {
    steps == [] || (Enabled(s, steps[0]) && After(s, steps[0]).budget >= 1 && Runs(After(s, steps[0]), steps[1..]))
  }

  function Final(s: State, steps: seq<Step>): State
    requires s.budget >= 1 && Runs(s, steps)
    decreases |steps|
  {
    if steps == [] then s else Final(After(s, steps[0]), steps[1..])
  }

  function Leaves(steps: seq<Step>): nat {
    if steps == [] then 0 else (if steps[0].Leave? then 1 else 0) + Leaves(steps[1..])
  }

  /** In every run the bodies admitted stay within the budget. */
  lemma {:induction false} EveryRunStaysWithin(s: State, steps: seq<Step>)
    requires Valid(s) && Runs(s, steps)
    ensures var t := Final(s, steps);
      Valid(t) && t.budget == s.budget
      && (Bytes(t.admitted) <= t.budget * KIB || (|t.admitted| == 1 && t.admitted[0].bytes > t.budget * KIB))
    decreases |steps|
  {
    if steps == [] {
      WithinTheBudget(s);
    } else {
      ValidKept(s, steps[0]);
      EveryRunStaysWithin(After(s, steps[0]), steps[1..]);
    }
  }

  /**
   While a write is queued, no more writes are done than were admitted or in front of it when it
   was at place `k`: once that many are done it has been admitted, or has given up.
   */
  lemma {:induction false} NoWriteWaitsForEver(s: State, steps: seq<Step>, k: nat) returns (place: Option<nat>)
    requires Valid(s) && Runs(s, steps) && k < |s.queue|
    ensures place.Some? ==>
      var t := Final(s, steps);
      && place.value < |t.queue| && t.queue[place.value] == s.queue[k]
      && Leaves(steps) + |t.admitted| + place.value <= |s.admitted| + k
    ensures place.None? ==> LetInOrGaveUp(s, steps, s.queue[k])
    decreases |steps|
  {
    if steps == [] {
      return Some(k);
    }
    var t := After(s, steps[0]);
    ValidKept(s, steps[0]);
    place := OneWriteLess(s, steps[0], k);
    if place.Some? {
      place := NoWriteWaitsForEver(t, steps[1..], place.value);
    }
  }

  /** Whether in some step of a run the write is admitted, or its wait is over. */
  predicate LetInOrGaveUp(s: State, steps: seq<Step>, w: Write)
    requires s.budget >= 1 && Runs(s, steps)
    decreases |steps|
  {
    steps != [] &&
    (|| w in After(s, steps[0]).admitted
     || (steps[0].TimeOut? && s.queue[steps[0].index] == w)
     || LetInOrGaveUp(After(s, steps[0]), steps[1..], w))
  }
}

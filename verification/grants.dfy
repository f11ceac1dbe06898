/**
 The delegated grants of the agent runs: each run reads with a grant of the person who started it,
 grants of one person share a realm session, and revoking one grant ends every grant of its
 session. The map of held grants is locked for lookups only, so the operations interleave between
 a look at the map and the call to the realm that follows it; the steps here are those sections.

 The realm is an adversary: any hand-over may succeed with any session, any refresh may be refused,
 and a refusal may mean that the session is over or leave it alive (a `401` or a `429` of its own).
 Access tokens, their expiry and accepted refreshes change neither the map nor a session.
 */
module Grants {
  import opened Wrappers

  /**
   A held grant: the realm session it belongs to, if the realm named one, and the moment it was
   bound at.
   */
  datatype Held = Held(session: Option<string>, grant: nat)

  /** A retired grant that found its session unshared at `looked` and is about to be revoked. */
  datatype Revoking = Revoking(held: Held, looked: nat)

  datatype State = State(
    clock: nat,                       // one tick a step; a grant is named by the tick it was bound at
    held: map<string, Held>,          // by run
    looking: map<nat, Held>,          // taken out of `held`, not looked for sharers yet
    revoking: map<nat, Revoking>,     // looked, not revoked yet
    refused: set<(string, nat)>,      // runs and the grants of theirs that a refused refresh is removing
    bound: set<string>,               // the sessions a grant was ever bound in
    ended: set<string>                // of those, the ones ended since their last bind
  )

  const START := State(0, map[], map[], map[], {}, {}, {})

  datatype Step =
    | Bind(run: string, session: Option<string>)   // a hand-over: the new grant is inserted, the replaced one retired
    | End(run: string)                             // the run's grant is removed, and retired
    | Look(grant: nat)                             // a retired grant looks for a held one of its session
    | Revoke(grant: nat)                           // the realm ends the grant's session
    | Refuse(run: string, over: bool)              // a call takes up the run's grant, whose refresh the realm refuses
    | Drop(run: string, grant: nat)                // such a call, one of any number, removes the run

  /** Whether a held grant carries the session. */
  predicate Live(s: State, session: string) {
    exists run | run in s.held :: s.held[run].session == Some(session)
  }

  predicate Enabled(s: State, step: Step) {
    match step
    case Bind(_, _) => true
    case End(run) => run in s.held
    case Look(g) => g in s.looking
    case Revoke(g) => g in s.revoking
    case Refuse(run, _) => run in s.held
    case Drop(run, g) => (run, g) in s.refused
  }

  function Ended(s: State, session: Option<string>): set<string> {
    match session case Some(x) => s.ended + {x} case None => s.ended
  }

  function Retired(s: State, run: string): map<nat, Held> {
    if run in s.held then s.looking[s.held[run].grant := s.held[run]] else s.looking
  }

  /** Whether a retired grant's session serves another run. */
  predicate Shared(s: State, retired: Held) {
    retired.session.Some? && Live(s, retired.session.value)
  }

  function After(s: State, step: Step): State
    requires Enabled(s, step)
  {
    var t := s.(clock := s.clock + 1);
    match step
    case Bind(run, session) =>
      t.(looking := Retired(s, run),
         held := s.held[run := Held(session, s.clock)],
         bound := if session.Some? then s.bound + {session.value} else s.bound,
         ended := if session.Some? then s.ended - {session.value} else s.ended)
    case End(run) => t.(looking := Retired(s, run), held := s.held - {run})
    case Look(g) =>
      if Shared(s, s.looking[g]) then t.(looking := s.looking - {g})
      else t.(looking := s.looking - {g}, revoking := s.revoking[g := Revoking(s.looking[g], s.clock)])
    case Revoke(g) => t.(revoking := s.revoking - {g}, ended := Ended(s, s.revoking[g].held.session))
    case Refuse(run, over) =>
      t.(refused := s.refused + {(run, s.held[run].grant)},
         ended := if over then Ended(s, s.held[run].session) else s.ended)
    case Drop(run, _) => t.(held := s.held - {run})
  }

  // ----- the proxy's own form, its operations taken whole

  class Grants {
    var clock: nat
    var held: map<string, Held>
    ghost var bound: set<string>
    ghost var ended: set<string>

    ghost function Value(): State
      reads this
    {
      State(clock, held, map[], map[], {}, bound, ended)
    }

    constructor ()
      ensures Value() == START
    {
      clock, held, bound, ended := 0, map[], {}, {};
    }

    /** Looks for a held grant of the retired one's session. */
    method ServesAnother(retired: Held) returns (shared: bool)
      ensures shared == Shared(Value(), retired)
    {
      if retired.session == None {
        return false;
      }
      var runs := held.Keys;
      while runs != {}
        invariant runs <= held.Keys
        invariant forall run | run in held.Keys - runs :: held[run].session != retired.session
        decreases |runs|
      {
        var run :| run in runs;
        if held[run].session == retired.session {
          return true;
        }
        runs := runs - {run};
      }
      return false;
    }

    /** Retires a grant that is out of the map. */
    method Retire(retired: Held) returns (revoked: bool)
      modifies this
      ensures var s := old(Value()).(looking := map[retired.grant := retired]);
        revoked == !Shared(s, retired) && Value() == Retirement(s, retired.grant)
      ensures held == old(held)
    {
      ghost var s := Value().(looking := map[retired.grant := retired]);
      var shared := ServesAnother(retired);
      SameHeld(Value(), s);
      clock := clock + 1;
      if shared {
        return false;
      }
      clock := clock + 1;
      ended := Ended(s, retired.session);
      return true;
    }

    /** Holds the grant of a hand-over; a grant the run already held is retired. */
    method Bind(run: string, session: Option<string>) returns (revoked: bool)
      modifies this
      ensures var bound := After(old(Value()), Step.Bind(run, session));
        Value() == if run in old(held) then Retirement(bound, old(held)[run].grant) else bound
      ensures held == old(held)[run := Held(session, old(clock))]
      ensures revoked <==> run in old(held) && !Shared(Value(), old(held)[run])
    {
      hide Shared, Retirement, Ended;
      var replaced := if run in held then Some(held[run]) else None;
      ghost var s := Value();
      held := held[run := Held(session, clock)];
      clock := clock + 1;
      bound := if session.Some? then bound + {session.value} else bound;
      ended := if session.Some? then ended - {session.value} else ended;
      revoked := false;
      if replaced.Some? {
        ghost var inserted := Value().(looking := map[replaced.value.grant := replaced.value]);
        assert inserted == After(s, Step.Bind(run, session));
        revoked := Retire(replaced.value);
        SameHeld(inserted, Value());
      }
    }

    /** Drops the run's grant; its session is revoked when no other run holds a grant of it. */
    method End(run: string) returns (revoked: bool)
      modifies this
      ensures if run !in old(held) then Value() == old(Value())
        else Value() == Retirement(After(old(Value()), Step.End(run)), old(held)[run].grant)
      ensures held == old(held) - {run}
      ensures revoked <==> run in old(held) && !Shared(Value(), old(held)[run])
    {
      hide Shared, Retirement;
      if run !in held {
        assert held == held - {run};
        return false;
      }
      ghost var s := Value();
      var retired := held[run];
      held := held - {run};
      clock := clock + 1;
      ghost var removed := Value().(looking := map[retired.grant := retired]);
      assert removed == After(s, Step.End(run));
      revoked := Retire(retired);
      SameHeld(removed, Value());
    }
  }

  /** A retired grant's look and, unless it is shared, its revocation, one right after the other. */
  ghost function Retirement(s: State, g: nat): State
    requires g in s.looking
  {
    var looked := After(s, Look(g));
    if g in looked.revoking then After(looked, Revoke(g)) else looked
  }

  lemma SameHeld(a: State, b: State)
    requires a.held == b.held
    ensures forall retired :: Shared(a, retired) == Shared(b, retired)
  {
    assert forall x :: Live(a, x) == Live(b, x);
  }

  // ----- what every step keeps

  /** Whether a retired grant of the session is still on its way to the look or the realm. */
  predicate OnItsWay(s: State, session: string) {
    || (exists g | g in s.looking :: s.looking[g].session == Some(session))
    || (exists g | g in s.revoking :: s.revoking[g].held.session == Some(session))
  }

  /** A session a grant was bound in that nobody holds, nobody is about to revoke and nothing has ended. */
  predicate Leaked(s: State, session: string) {
    session in s.bound && !Live(s, session) && !OnItsWay(s, session) && session !in s.ended
  }

  /** Grants are named by the moment they were bound. */
  ghost predicate Named(s: State) {
    && (forall run | run in s.held :: s.held[run].grant < s.clock)
    && (forall g | g in s.looking :: g < s.clock && s.looking[g].grant == g)
    && (forall g | g in s.revoking :: g < s.clock && s.revoking[g].held.grant == g && s.revoking[g].looked < s.clock)
  }

  /** No two grants have one name, and each is in one place. */
  ghost predicate InOnePlace(s: State) {
    && (forall r, q | r in s.held && q in s.held && s.held[r].grant == s.held[q].grant :: r == q)
    && (forall r | r in s.held :: s.held[r].grant !in s.looking && s.held[r].grant !in s.revoking)
    && s.looking.Keys !! s.revoking.Keys
  }

  ghost predicate Told(s: State) {
    Named(s) && InOnePlace(s)
  }

  /** A held grant of a session that is about to be revoked was bound after the look. */
  ghost predicate BoundSince(s: State) {
    forall g, run |
      && g in s.revoking && run in s.held && s.held[run].session.Some?
      && s.held[run].session == s.revoking[g].held.session ::
      s.held[run].grant > s.revoking[g].looked
  }

  ghost predicate HeldIsBound(s: State) {
    forall run | run in s.held && s.held[run].session.Some? :: s.held[run].session.value in s.bound
  }

  ghost predicate Inv(s: State) {
    Told(s) && BoundSince(s) && HeldIsBound(s)
  }

  lemma ToldKept(s: State, step: Step)
    requires Told(s) && Enabled(s, step)
    ensures Told(After(s, step))
  {
    NamedKept(s, step);
    InOnePlaceKept(s, step);
  }

  lemma NamedKept(s: State, step: Step)
    requires Named(s) && Enabled(s, step)
    ensures Named(After(s, step))
  {
    hide Shared, Ended;
  }

  lemma InOnePlaceKept(s: State, step: Step)
    requires Told(s) && Enabled(s, step)
    ensures InOnePlace(After(s, step))
  {
    hide Shared, Ended;
  }

  lemma BoundSinceKept(s: State, step: Step)
    requires Inv(s) && Enabled(s, step)
    ensures BoundSince(After(s, step))
  {
    var s' := After(s, step);
    forall g, run |
      && g in s'.revoking && run in s'.held && s'.held[run].session.Some?
      && s'.held[run].session == s'.revoking[g].held.session
      ensures s'.held[run].grant > s'.revoking[g].looked
    {
      if g in s.revoking && s.revoking[g] == s'.revoking[g] {
        if step.Bind? && step.run == run {
        } else {
          assert run in s.held && s.held[run] == s'.held[run];
        }
      }
    }
  }

  lemma InvKept(s: State, step: Step)
    requires Inv(s) && Enabled(s, step)
    ensures Inv(After(s, step))
  {
    ToldKept(s, step);
    BoundSinceKept(s, step);
    HeldIsBoundKept(s, step);
    hide Told, BoundSince, HeldIsBound;
  }

  lemma HeldIsBoundKept(s: State, step: Step)
    requires HeldIsBound(s) && Enabled(s, step)
    ensures HeldIsBound(After(s, step))
  {}

  /** Whether the realm, asked to revoke `g`, ends a grant that is still held. */
  predicate HitsHeld(s: State, g: nat)
    requires g in s.revoking
  {
    Shared(s, s.revoking[g].held)
  }

  /**
   A revocation ends a held grant exactly when a hand-over of its session came between the look
   and the revocation, and is still held.
   */
  lemma HitsOnlyWhatCameBetween(s: State, g: nat)
    requires Inv(s) && g in s.revoking
    ensures HitsHeld(s, g) <==>
      exists run | run in s.held :: s.held[run].session.Some? && s.held[run].session == s.revoking[g].held.session
                                    && s.revoking[g].looked < s.held[run].grant
  {
    if HitsHeld(s, g) {
      var run :| run in s.held && s.held[run].session == s.revoking[g].held.session;
      assert s.revoking[g].looked < s.held[run].grant;
    }
  }

  /** A step that removes the run's grant, for a refused refresh, while its session is alive. */
  predicate LeavesAlive(s: State, step: Step) {
    step.Drop? && step.run in s.held && s.held[step.run].session.Some? && s.held[step.run].session.value !in s.ended
  }

  /** A session leaks in a step exactly when the step removes the last grant of it and leaves it alive. */
  lemma LeaksExactly(s: State, step: Step, session: string)
    requires Inv(s) && Enabled(s, step) && !Leaked(s, session)
    ensures Leaked(After(s, step), session) <==>
      && LeavesAlive(s, step) && s.held[step.run].session == Some(session)
      && (forall run | run in s.held && s.held[run].session == Some(session) :: run == step.run)
      && !OnItsWay(s, session)
  {
    var s' := After(s, step);
    if session in s'.bound && session !in s.bound {
      assert step.Bind? && Live(s', session) by { assert step.run in s'.held; }
    } else if session in s.ended && session !in s'.ended {
      assert step.Bind? && Live(s', session) by { assert step.run in s'.held; }
    } else if session in s.bound && session !in s.ended {
      StillSomewhere(s, step, session);
    }
    if LeavesAlive(s, step) {
      assert OnItsWay(s', session) == OnItsWay(s, session);
      LiveWithout(s, s', step.run, session);
    }
  }

  lemma LiveWithout(s: State, s': State, r: string, session: string)
    requires s'.held == s.held - {r}
    ensures Live(s', session) <==> exists run | run in s.held && s.held[run].session == Some(session) :: run != r
  {
    if run :| run in s.held && s.held[run].session == Some(session) && run != r {
      assert run in s'.held && s'.held[run].session == Some(session);
    }
  }

  // A session that is held or on its way stays so, or is ended, unless its last grant is removed for a refusal.
  lemma StillSomewhere(s: State, step: Step, session: string)
    requires Inv(s) && Enabled(s, step)
    requires Live(s, session) || OnItsWay(s, session)
    ensures var s' := After(s, step);
      || Live(s', session) || OnItsWay(s', session) || session in s'.ended
      || (LeavesAlive(s, step) && s.held[step.run].session == Some(session))
  {
    var s' := After(s, step);
    if g :| g in s.looking && s.looking[g].session == Some(session) {
      if step != Look(g) {
        assert g in s'.looking && s'.looking[g] == s.looking[g];
      } else if !Shared(s, s.looking[g]) {
        assert g in s'.revoking;
      } else {
        assert s'.held == s.held;
        assert Live(s', session) == Live(s, session);
      }
    } else if g :| g in s.revoking && s.revoking[g].held.session == Some(session) {
      if step != Revoke(g) {
        assert g in s'.revoking && s'.revoking[g] == s.revoking[g];
      }
    } else {
      var run :| run in s.held && s.held[run].session == Some(session);
      if run in s'.held && s'.held[run] == s.held[run] {
      } else if step.Bind? || step.End? {
        assert s.held[run].grant in s'.looking;
      }
    }
  }

  /** A removal that hits another grant than the one that was refused: a hand-over came between the two. */
  predicate DropsAnother(s: State, step: Step) {
    step.Drop? && step.run in s.held && s.held[step.run].grant != step.grant
  }

  /**
   A step of a realm that refuses a refresh only when the session is over, and names no session
   again that is.
   */
  predicate Honest(s: State, step: Step) {
    match step
    case Refuse(_, over) => over
    case Bind(_, session) => session.Some? ==> session.value !in s.ended
    case _ => true
  }

  /** A grant that was refused, while it is held, is of a session that is over. */
  ghost predicate RefusedIsOver(s: State) {
    forall run | run in s.held && (run, s.held[run].grant) in s.refused && s.held[run].session.Some? ::
      s.held[run].session.value in s.ended
  }

  /** Refused grants have been bound. */
  ghost predicate RefusedIsPast(s: State) {
    forall r | r in s.refused :: r.1 < s.clock
  }

  lemma RefusedKept(s: State, step: Step)
    requires Inv(s) && RefusedIsOver(s) && RefusedIsPast(s) && Enabled(s, step) && Honest(s, step)
    ensures RefusedIsOver(After(s, step)) && RefusedIsPast(After(s, step))
  {
    hide Shared;
  }

  // ----- every run of steps

  predicate Runs(s: State, steps: seq<Step>)
    decreases |steps|
  {
    steps == [] || (Enabled(s, steps[0]) && Runs(After(s, steps[0]), steps[1..]))
  }

  function Final(s: State, steps: seq<Step>): State
    requires Runs(s, steps)
    decreases |steps|
  {
    if steps == [] then s else Final(After(s, steps[0]), steps[1..])
  }

  lemma {:induction false} EveryRunKeeps(s: State, steps: seq<Step>)
    requires Inv(s) && Runs(s, steps)
    ensures Inv(Final(s, steps))
    decreases |steps|
  {
    if steps != [] {
      InvKept(s, steps[0]);
      EveryRunKeeps(After(s, steps[0]), steps[1..]);
    }
  }

  /** Whether some removal in a run leaves its session alive. */
  predicate LeavesAliveInside(s: State, steps: seq<Step>)
    requires Runs(s, steps)
    decreases |steps|
  {
    steps != [] && (LeavesAlive(s, steps[0]) || LeavesAliveInside(After(s, steps[0]), steps[1..]))
  }

  /**
   Without such a removal no session ever leaks: one that nobody holds any more is ended, or a
   grant of it is on its way to the realm. So retiring the last held grant of a session revokes it.
   */
  lemma {:induction false} NothingLeaks(s: State, steps: seq<Step>, session: string)
    requires Inv(s) && Runs(s, steps) && !LeavesAliveInside(s, steps) && !Leaked(s, session)
    ensures !Leaked(Final(s, steps), session)
    decreases |steps|
  {
    if steps != [] {
      InvKept(s, steps[0]);
      LeaksExactly(s, steps[0], session);
      NothingLeaks(After(s, steps[0]), steps[1..], session);
    }
  }

  predicate HonestInside(s: State, steps: seq<Step>)
    requires Runs(s, steps)
    decreases |steps|
  {
    steps != [] ==> Honest(s, steps[0]) && HonestInside(After(s, steps[0]), steps[1..])
  }

  /** Whether some removal in a run hits another grant than the one that was refused. */
  predicate DropsAnotherInside(s: State, steps: seq<Step>)
    requires Runs(s, steps)
    decreases |steps|
  {
    steps != [] && (DropsAnother(s, steps[0]) || DropsAnotherInside(After(s, steps[0]), steps[1..]))
  }

  /** With an honest realm only a removal that hits another grant leaves a session alive. */
  lemma {:induction false} OnlyAnotherIsAlive(s: State, steps: seq<Step>)
    requires Inv(s) && RefusedIsOver(s) && RefusedIsPast(s) && Runs(s, steps)
    requires HonestInside(s, steps) && !DropsAnotherInside(s, steps)
    ensures !LeavesAliveInside(s, steps)
    decreases |steps|
  {
    if steps != [] {
      InvKept(s, steps[0]);
      RefusedKept(s, steps[0]);
      OnlyAnotherIsAlive(After(s, steps[0]), steps[1..]);
      hide Inv, After;
    }
  }

  /**
   From the start, with everything retired settled: a session that nobody holds is ended, when no
   removal left it alive. With an honest realm that is when no removal hit another grant.
   */
  lemma NothingLeaksFromTheStart(steps: seq<Step>, session: string)
    requires Runs(START, steps)
    requires !LeavesAliveInside(START, steps) || (HonestInside(START, steps) && !DropsAnotherInside(START, steps))
    ensures var s := Final(START, steps);
      session in s.bound && s.looking == map[] && s.revoking == map[] && !Live(s, session) ==> session in s.ended
  {
    if LeavesAliveInside(START, steps) {
      OnlyAnotherIsAlive(START, steps);
    }
    NothingLeaks(START, steps, session);
  }

  /**
   With no hand-over of the session between the look and the revocation, the revocation ends no
   held grant.
   */
  lemma {:induction false} NoHandOverNoHit(s: State, steps: seq<Step>, session: string)
    requires Runs(s, steps) && !Live(s, session)
    requires forall step | step in steps && step.Bind? :: step.session != Some(session)
    ensures !Live(Final(s, steps), session)
    decreases |steps|
  {
    if steps != [] {
      var s' := After(s, steps[0]);
      assert steps[0] in steps;
      forall run | run in s'.held
        ensures s'.held[run].session != Some(session)
      {
        if steps[0].Bind? && steps[0].run == run {
        } else {
          assert run in s.held && s'.held[run] == s.held[run];
        }
      }
      NoHandOverNoHit(s', steps[1..], session);
    }
  }

  /** A hand-over that replaces a grant of its own session revokes nothing while the new grant is held. */
  lemma ReplacedInItsSessionIsDropped(s: State, run: string, session: string)
    requires Inv(s) && run in s.held && s.held[run].session == Some(session)
    ensures var bound := After(s, Bind(run, Some(session)));
      var replaced := s.held[run].grant;
      Enabled(bound, Look(replaced)) && replaced !in After(bound, Look(replaced)).revoking
  {
    var bound := After(s, Bind(run, Some(session)));
    assert bound.held[run].session == Some(session);
    assert Live(bound, session);
  }

  /**
   A leak with an honest realm: the run is handed over again between its refused refresh and its
   removal.
   */
  lemma LeakHappens()
    ensures var steps :=
        [Bind("run", Some("a")), Refuse("run", true), Bind("run", Some("b")), Drop("run", 0), Look(0), Revoke(0)];
      Runs(START, steps) && HonestInside(START, steps) && Leaked(Final(START, steps), "b")
  {
    var a, b, again := Bind("run", Some("a")), Refuse("run", true), Bind("run", Some("b"));
    var s := After(After(After(START, a), b), again);
    assert s.held == map["run" := Held(Some("b"), 2)] && s.looking == map[0 := Held(Some("a"), 0)]
      && s.revoking == map[] && s.refused == {("run", 0)} && s.bound == {"a", "b"} && s.ended == {"a"};
    var rest := [Drop("run", 0), Look(0), Revoke(0)];
    LeaksFrom(s);
    hide Leaked;
    RunsOn(After(After(START, a), b), again, rest);
    RunsOn(After(START, a), b, [again] + rest);
    RunsOn(START, a, [b] + ([again] + rest));
    assert [a] + ([b] + ([again] + rest)) == [a, b, again, Drop("run", 0), Look(0), Revoke(0)];
  }

  lemma LeaksFrom(s: State)
    requires s.held.Keys == {"run"} && s.held["run"] == Held(Some("b"), 2) && s.looking == map[0 := Held(Some("a"), 0)]
    requires s.revoking == map[] && ("run", 0) in s.refused && "b" in s.bound && s.ended == {"a"}
    ensures var steps := [Drop("run", 0), Look(0), Revoke(0)];
      Runs(s, steps) && HonestInside(s, steps) && Leaked(Final(s, steps), "b")
  {
    var s4 := After(s, Drop("run", 0));
    assert s4.held == map[];
    var s5 := After(s4, Look(0));
    assert s5.looking == map[] && s5.revoking.Keys == {0};
    var s6 := After(s5, Revoke(0));
    assert s6.revoking == map[];
    hide Shared, Ended, Live;
    assert Leaked(s6, "b") by { NobodyHolds(s6, "b"); }
    RunsOn(s5, Revoke(0), []);
    RunsOn(s4, Look(0), [Revoke(0)]);
    RunsOn(s, Drop("run", 0), [Look(0), Revoke(0)]);
  }

  /** A leak without any hand-over: the realm refuses a refresh and leaves the session alive. */
  lemma RefusalLeaks()
    ensures var steps := [Bind("run", Some("a")), Refuse("run", false), Drop("run", 0)];
      Runs(START, steps) && Leaked(Final(START, steps), "a")
  {
    var a, b, c := Bind("run", Some("a")), Refuse("run", false), Drop("run", 0);
    var s := After(After(START, a), b);
    assert s.held.Keys == {"run"} && s.refused == {("run", 0)} && s.bound == {"a"} && s.ended == {};
    var t := After(s, c);
    assert t.held == map[] && t.looking == map[] && t.revoking == map[];
    assert Leaked(t, "a") by { NobodyHolds(t, "a"); }
    hide Leaked;
    RunsOn(s, c, []);
    RunsOn(After(START, a), b, [c]);
    RunsOn(START, a, [b] + [c]);
    assert [a] + ([b] + [c]) == [a, b, c];
  }

  /**
   A hand-over that comes between a look and the revocation is ended with the retired grant, and
   held all the same.
   */
  lemma HitHappens()
    ensures var steps := [Bind("run", Some("a")), End("run"), Look(0), Bind("other", Some("a"))];
      && Runs(START, steps) && 0 in Final(START, steps).revoking && HitsHeld(Final(START, steps), 0)
      && Runs(START, steps + [Revoke(0)])
      && Live(Final(START, steps + [Revoke(0)]), "a") && "a" in Final(START, steps + [Revoke(0)]).ended
  {
    var a, b, c, d, e := Bind("run", Some("a")), End("run"), Look(0), Bind("other", Some("a")), Revoke(0);
    var s2 := After(After(START, a), b);
    assert s2.held == map[] && s2.looking == map[0 := Held(Some("a"), 0)] && s2.revoking == map[];
    var s3 := After(s2, c);
    assert s3.held == map[] && s3.revoking.Keys == {0} && s3.revoking[0].held == Held(Some("a"), 0);
    var s4 := After(s3, d);
    assert "other" in s4.held && s4.held["other"].session == Some("a");
    assert Live(s4, "a");
    HitFrom(s4);
    hide *;
    FourSteps(a, b, c, d, []);
    FourSteps(a, b, c, d, [e]);
    assert [a, b, c, d] + [] == [a, b, c, d];
  }

  lemma HitFrom(s: State)
    requires 0 in s.revoking && s.revoking[0].held == Held(Some("a"), 0) && Live(s, "a")
    ensures HitsHeld(s, 0) && Runs(s, [Revoke(0)]) && Runs(s, []) && Final(s, []) == s
    ensures var t := Final(s, [Revoke(0)]); Live(t, "a") && "a" in t.ended
  {
    var t := After(s, Revoke(0));
    assert Live(t, "a") by { SameHeld(s, t); assert Shared(s, s.revoking[0].held) == Shared(t, s.revoking[0].held); }
    RunsOn(s, Revoke(0), []);
  }

  lemma FourSteps(a: Step, b: Step, c: Step, d: Step, rest: seq<Step>)
    requires Enabled(START, a) && Enabled(After(START, a), b) && Enabled(After(After(START, a), b), c)
    requires Enabled(After(After(After(START, a), b), c), d)
    requires Runs(After(After(After(After(START, a), b), c), d), rest)
    ensures Runs(START, [a, b, c, d] + rest)
    ensures Final(START, [a, b, c, d] + rest) == Final(After(After(After(After(START, a), b), c), d), rest)
  {
    hide *;
    var s1, s2, s3 := After(START, a), After(After(START, a), b), After(After(After(START, a), b), c);
    RunsOn(s3, d, rest);
    RunsOn(s2, c, [d] + rest);
    RunsOn(s1, b, [c] + ([d] + rest));
    RunsOn(START, a, [b] + ([c] + ([d] + rest)));
    assert [a] + ([b] + ([c] + ([d] + rest))) == [a, b, c, d] + rest;
  }

  lemma NobodyHolds(s: State, session: string)
    requires s.held == map[]
    ensures !Live(s, session)
  {}

  lemma RunsOn(s: State, step: Step, rest: seq<Step>)
    requires Enabled(s, step) && Runs(After(s, step), rest)
    ensures Runs(s, [step] + rest) && Final(s, [step] + rest) == Final(After(s, step), rest)
    ensures HonestInside(s, [step] + rest) <==> Honest(s, step) && HonestInside(After(s, step), rest)
  {
    assert ([step] + rest)[1..] == rest;
  }
}

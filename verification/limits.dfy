/**
 The per-minute limit of a run: a fixed window that starts a minute anew after its first request.

 Time is in seconds. A request reads the clock before it waits for the map's lock, so that the
 readings of one run come in order is a premise: `InOrder`, where a claim needs it.
 */
module Limits {
  import opened Wrappers

  const WINDOW := 60.0

  /** When the current window started, and the requests counted in it. */
  datatype Usage = Usage(started: Option<real>, count: nat)

  const FRESH := Usage(None, 0)

  predicate InWindow(u: Usage, now: real) {
    u.started.Some? && now - u.started.value < WINDOW
  }

  /** The usage a request at `now` is judged by: a new window when the last one is over. */
  function Opened(u: Usage, now: real): Usage {
    if InWindow(u, now) then u else Usage(Some(now), 0)
  }

  predicate Passes(u: Usage, limit: nat, now: real) {
    Opened(u, now).count < limit
  }

  function Counted(u: Usage, limit: nat, now: real): Usage {
    var entry := Opened(u, now);
    if entry.count < limit then entry.(count := entry.count + 1) else entry
  }

  function UsageOf(runs: map<string, Usage>, run: string): Usage {
    if run in runs then runs[run] else FRESH
  }

  class LimitManager {
    var runs: map<string, Usage>

    constructor ()
      ensures runs == map[]
    {
      runs := map[];
    }

    /** Counts one request of the run against its limit; refuses the one past it. */
    method CheckRpm(run: string, limit: nat, now: real) returns (passes: bool)
      modifies this
      ensures passes == Passes(UsageOf(old(runs), run), limit, now)
      ensures runs == old(runs)[run := Counted(UsageOf(old(runs), run), limit, now)]
    {
      var entry := UsageOf(runs, run);
      if entry.started.None? || now - entry.started.value >= WINDOW {
        entry := Usage(Some(now), 0);
      }
      if entry.count >= limit {
        runs := runs[run := entry];
        return false;
      }
      runs := runs[run := entry.(count := entry.count + 1)];
      return true;
    }
  }

  // ----- the requests of all the runs, and of one

  datatype Call = Call(run: string, at: real)

  function After(calls: seq<Call>, limit: nat): map<string, Usage> {
    if calls == [] then map[]
    else
      var before, call := After(calls[..|calls| - 1], limit), calls[|calls| - 1];
      before[call.run := Counted(UsageOf(before, call.run), limit, call.at)]
  }

  /** The moments the requests of a run were let through at. */
  function Admitted(calls: seq<Call>, limit: nat, run: string): seq<real> {
    if calls == [] then []
    else
      var before, call := calls[..|calls| - 1], calls[|calls| - 1];
      Admitted(before, limit, run)
      + (if call.run == run && Passes(UsageOf(After(before, limit), run), limit, call.at) then [call.at] else [])
  }

  /** The requests of one run alone. */
  function Only(calls: seq<Call>, run: string): seq<Call> {
    if calls == [] then []
    else
      var before, call := calls[..|calls| - 1], calls[|calls| - 1];
      Only(before, run) + if call.run == run then [call] else []
  }

  /** Other runs do not matter: a run is let through as if it were alone. */
  lemma {:induction false} OtherRunsDoNotMatter(calls: seq<Call>, limit: nat, run: string)
    ensures UsageOf(After(calls, limit), run) == UsageOf(After(Only(calls, run), limit), run)
    ensures Admitted(calls, limit, run) == Admitted(Only(calls, run), limit, run)
  {
    hide Counted, Passes;
    if calls != [] {
      var before, call := calls[..|calls| - 1], calls[|calls| - 1];
      OtherRunsDoNotMatter(before, limit, run);
      var alone := Only(before, run);
      assert alone + [] == alone;
      assert Admitted(before, limit, run) + [] == Admitted(before, limit, run);
      if call.run == run {
        OneMore(alone, call, limit);
      }
    }
  }

  lemma OneMore(calls: seq<Call>, call: Call, limit: nat)
    ensures UsageOf(After(calls + [call], limit), call.run)
      == Counted(UsageOf(After(calls, limit), call.run), limit, call.at)
    ensures Admitted(calls + [call], limit, call.run)
      == Admitted(calls, limit, call.run)
         + if Passes(UsageOf(After(calls, limit), call.run), limit, call.at) then [call.at] else []
  {
    hide Counted, Passes;
    assert (calls + [call])[..|calls|] == calls;
  }

  // ----- how many pass in sixty seconds

  /** How many of the moments lie in the sixty seconds from `t`. */
  function Within(moments: seq<real>, t: real): nat {
    if moments == [] then 0
    else
      var last := moments[|moments| - 1];
      Within(moments[..|moments| - 1], t) + if t <= last < t + WINDOW then 1 else 0
  }

  /** The requests of a run come in the order of time. */
  predicate InOrder(calls: seq<Call>, run: string) {
    forall i, j | 0 <= i < j < |calls| && calls[i].run == run && calls[j].run == run :: calls[i].at <= calls[j].at
  }

  /**
   The most that pass in any sixty seconds: two windows meet in them, the earlier without the
   request that opened it.
   */
  function Most(limit: nat): nat {
    if limit == 0 then 0 else 2 * limit - 1
  }

  /** How many of the sixty seconds from `t` may be used up, by where the current window stands. */
  predicate Bounded(u: Usage, limit: nat, used: nat, t: real) {
    match u.started
    case None => used == 0 && u.count == 0
    case Some(w) =>
      && u.count <= limit && (limit > 0 ==> u.count > 0)
      && (w < t ==> used <= if u.count == 0 then 0 else u.count - 1)
      && (t <= w < t + WINDOW ==> used <= if limit == 0 then 0 else limit - 1 + u.count)
      && (t + WINDOW <= w ==> used <= Most(limit))
  }

  // One request of the run at `now`, which is not before any earlier one.
  lemma BoundStep(u: Usage, limit: nat, used: nat, t: real, now: real)
    requires Bounded(u, limit, used, t)
    requires used > 0 ==> t <= now
    requires u.started.Some? ==> u.started.value <= now
    ensures Bounded(Counted(u, limit, now), limit,
                    used + (if Passes(u, limit, now) && t <= now < t + WINDOW then 1 else 0), t)
    ensures Counted(u, limit, now).started.Some? && Counted(u, limit, now).started.value <= now
  {}

  lemma WithinMore(moments: seq<real>, at: real, t: real)
    ensures Within(moments + [at], t) == Within(moments, t) + if t <= at < t + WINDOW then 1 else 0
  {
    assert (moments + [at])[..|moments|] == moments;
  }

  lemma {:induction false} BoundKept(calls: seq<Call>, limit: nat, run: string, t: real, now: real)
    requires InOrder(calls, run)
    requires forall i | 0 <= i < |calls| && calls[i].run == run :: calls[i].at <= now
    ensures Bounded(UsageOf(After(calls, limit), run), limit, Within(Admitted(calls, limit, run), t), t)
    ensures Within(Admitted(calls, limit, run), t) > 0 ==> t <= now
    ensures var u := UsageOf(After(calls, limit), run); u.started.Some? ==> u.started.value <= now
  {
    hide Bounded, Counted, Passes, Within, InOrder;
    if calls == [] {
      NothingYet(limit, t);
    } else {
      var before, call := calls[..|calls| - 1], calls[|calls| - 1];
      var past := Admitted(before, limit, run);
      assert past + [] == past;
      InOrderBefore(calls, run);
      if call.run != run {
        BoundKept(before, limit, run, t, now);
      } else {
        var u := UsageOf(After(before, limit), run);
        BoundKept(before, limit, run, t, call.at);
        BoundStep(u, limit, Within(past, t), t, call.at);
        WithinMore(past, call.at, t);
      }
    }
  }

  lemma NothingYet(limit: nat, t: real)
    ensures Bounded(FRESH, limit, Within([], t), t) && Within([], t) == 0
  {}

  lemma InOrderBefore(calls: seq<Call>, run: string)
    requires InOrder(calls, run) && calls != []
    ensures InOrder(calls[..|calls| - 1], run)
    ensures calls[|calls| - 1].run == run ==>
      forall i | 0 <= i < |calls| - 1 && calls[i].run == run :: calls[i].at <= calls[|calls| - 1].at
  {}

  /**
   A window lets at most the limit through, as its count says, and any sixty seconds at most twice
   the limit less one.
   */
  lemma AtMostInAMinute(calls: seq<Call>, limit: nat, run: string, t: real)
    requires InOrder(calls, run)
    ensures Within(Admitted(calls, limit, run), t) <= Most(limit)
    ensures var u := UsageOf(After(calls, limit), run);
      u.count <= limit && (u.started.Some? ==> Within(Admitted(calls, limit, run), u.started.value) == u.count)
  {
    var now := Latest(calls, t);
    BoundKept(calls, limit, run, t, now);
    CountIsAdmitted(calls, limit, run);
    hide After, Admitted, Within;
  }

  // ----- how many pass in one window

  /** Every one of the moments lies in the window from `w` or before it. */
  predicate NoneAfter(moments: seq<real>, w: real) {
    forall m | m in moments :: m < w + WINDOW
  }

  lemma {:induction false} NoneWithin(moments: seq<real>, w: real, later: real)
    requires NoneAfter(moments, w) && w + WINDOW <= later
    ensures Within(moments, later) == 0
  {
    if moments != [] {
      var before, last := moments[..|moments| - 1], moments[|moments| - 1];
      assert last in moments && forall m | m in before :: m in moments;
      NoneWithin(before, w, later);
    }
  }

  /** What a run's window counts: the moments let through in it. */
  predicate Counts(u: Usage, limit: nat, moments: seq<real>) {
    match u.started
    case None => moments == [] && u.count == 0
    case Some(w) => NoneAfter(moments, w) && Within(moments, w) == u.count <= limit
  }

  lemma CountsStep(u: Usage, limit: nat, moments: seq<real>, now: real)
    requires Counts(u, limit, moments) && (u.started.Some? ==> u.started.value <= now)
    ensures Counts(Counted(u, limit, now), limit, moments + if Passes(u, limit, now) then [now] else [])
  {
    var w := Opened(u, now).started.value;
    WithinMore(moments, now, w);
    assert moments + [] == moments;
    if !InWindow(u, now) && u.started.Some? {
      NoneWithin(moments, u.started.value, now);
    }
    hide Within;
  }

  /** The count of a run's window is the number of requests let through in it, which is at most the limit. */
  lemma {:induction false} CountIsAdmitted(calls: seq<Call>, limit: nat, run: string)
    requires InOrder(calls, run)
    ensures Counts(UsageOf(After(calls, limit), run), limit, Admitted(calls, limit, run))
    decreases |calls|
  {
    hide Counts, Counted, Passes, InOrder;
    if calls == [] {
      CountsNothing(limit);
    } else {
      var before, call := calls[..|calls| - 1], calls[|calls| - 1];
      InOrderBefore(calls, run);
      CountIsAdmitted(before, limit, run);
      var admitted := Admitted(before, limit, run);
      assert admitted + [] == admitted;
      if call.run == run {
        StartedBefore(before, limit, run, call.at);
        CountsStep(UsageOf(After(before, limit), run), limit, admitted, call.at);
      }
    }
  }

  lemma CountsNothing(limit: nat)
    ensures Counts(FRESH, limit, [])
  {}

  // A window started at one of the run's requests, so not after a moment that is after all of them.
  lemma StartedBefore(calls: seq<Call>, limit: nat, run: string, now: real)
    requires InOrder(calls, run) && forall i | 0 <= i < |calls| && calls[i].run == run :: calls[i].at <= now
    ensures var u := UsageOf(After(calls, limit), run); u.started.Some? ==> u.started.value <= now
  {
    BoundKept(calls, limit, run, now, now);
  }

  /**
   Every window a run ever has, here the one from `w` that is open after `k` requests, lets at most
   the limit through, and the next one starts a minute after it or later.
   */
  lemma {:induction false} EveryWindow(calls: seq<Call>, limit: nat, run: string, k: nat, w: real)
    requires InOrder(calls, run) && k <= |calls| && UsageOf(After(calls[..k], limit), run).started == Some(w)
    ensures Within(Admitted(calls, limit, run), w) <= limit
    ensures var u := UsageOf(After(calls, limit), run);
      u.started.Some? && (u.started.value == w || w + WINDOW <= u.started.value)
    decreases |calls|
  {
    CountIsAdmitted(calls, limit, run);
    hide InOrder, Within;
    if k == |calls| {
      assert calls[..k] == calls;
    } else {
      var before, call := calls[..|calls| - 1], calls[|calls| - 1];
      InOrderBefore(calls, run);
      assert before[..k] == calls[..k];
      EveryWindow(before, limit, run, k, w);
      if call.run == run {
        StartedBefore(before, limit, run, call.at);
        WithinMore(Admitted(before, limit, run), call.at, w);
      }
      var admitted := Admitted(before, limit, run);
      assert admitted + [] == admitted;
    }
  }

  lemma {:induction false} Latest(calls: seq<Call>, t: real) returns (now: real)
    ensures t <= now && forall i | 0 <= i < |calls| :: calls[i].at <= now
  {
    now := t;
    if calls != [] {
      var last := calls[|calls| - 1].at;
      now := Latest(calls[..|calls| - 1], if t < last then last else t);
    }
  }

  /** `n` requests of the run "r" at one moment. */
  function Burst(at: real, n: nat): seq<Call> {
    if n == 0 then [] else Burst(at, n - 1) + [Call("r", at)]
  }

  lemma {:induction false} BurstPasses(calls: seq<Call>, limit: nat, at: real, n: nat, t: real)
    requires var u := UsageOf(After(calls, limit), "r"); InWindow(u, at) && u.count + n <= limit
    requires t <= at < t + WINDOW
    ensures var all := calls + Burst(at, n);
      var u := UsageOf(After(calls, limit), "r");
      && UsageOf(After(all, limit), "r") == u.(count := u.count + n)
      && Within(Admitted(all, limit, "r"), t) == Within(Admitted(calls, limit, "r"), t) + n
  {
    hide InWindow, Counted, Passes, Within, Admitted, After, UsageOf;
    if n == 0 {
      assert calls + [] == calls;
    } else {
      BurstPasses(calls, limit, at, n - 1, t);
      var all := calls + Burst(at, n - 1);
      var call := Call("r", at);
      CountsOn(UsageOf(After(calls, limit), "r"), n - 1, limit, at);
      OneMore(all, call, limit);
      WithinMore(Admitted(all, limit, "r"), at, t);
      assert calls + Burst(at, n) == all + [call];
    }
  }

  lemma CountsOn(u: Usage, k: nat, limit: nat, at: real)
    requires InWindow(u, at) && u.count + k < limit
    ensures var v := u.(count := u.count + k);
      Passes(v, limit, at) && Counted(v, limit, at) == v.(count := v.count + 1)
  {}

  /** The bound is met: for every limit some run has twice the limit less one let through in sixty seconds. */
  lemma TheBoundIsMet(limit: nat) returns (calls: seq<Call>)
    requires limit > 0
    ensures InOrder(calls, "r") && Within(Admitted(calls, limit, "r"), 59.0) == Most(limit)
  {
    NothingAdmitted(limit);
    hide *;
    var early := FullWindow([], limit, 0.0, 59.0, 59.0);
    assert [] + early == early;
    var late := FullWindow(early, limit, 60.0, 60.0, 59.0);
    calls := early + late;
    TwoWindows(early, late, limit);
  }

  lemma NothingAdmitted(limit: nat)
    ensures WINDOW == 60.0 && Most(limit) == if limit == 0 then 0 else 2 * limit - 1
    ensures !InWindow(UsageOf(After([], limit), "r"), 0.0) && Within(Admitted([], limit, "r"), 59.0) == 0
    ensures !InWindow(Usage(Some(0.0), limit), 60.0)
  {}

  lemma TwoWindows(early: seq<Call>, late: seq<Call>, limit: nat)
    requires |early| == |late| == limit > 0
    requires early[0] == Call("r", 0.0) && forall i | 0 < i < limit :: early[i] == Call("r", 59.0)
    requires late[0] == Call("r", 60.0) && forall i | 0 < i < limit :: late[i] == Call("r", 60.0)
    ensures InOrder(early + late, "r")
  {
    assert forall c | c in early :: c.at <= 59.0;
    assert forall c | c in late :: c.at == 60.0;
  }

  // A window opened at `start` and filled at `at`, in which the limit passes.
  lemma FullWindow(calls: seq<Call>, limit: nat, start: real, at: real, t: real) returns (more: seq<Call>)
    requires limit > 0 && !InWindow(UsageOf(After(calls, limit), "r"), start)
    requires start <= at < start + WINDOW && t <= at < t + WINDOW
    ensures UsageOf(After(calls + more, limit), "r") == Usage(Some(start), limit)
    ensures Within(Admitted(calls + more, limit, "r"), t)
      == Within(Admitted(calls, limit, "r"), t) + limit - if t <= start < t + WINDOW then 0 else 1
    ensures |more| == limit && more[0] == Call("r", start) && forall i | 0 < i < limit :: more[i] == Call("r", at)
  {
    hide *;
    OpensWindow(calls, limit, start, t);
    StillOpen(start, at);
    var first := calls + [Call("r", start)];
    BurstPasses(first, limit, at, limit - 1, t);
    BurstAt(at, limit - 1);
    more := [Call("r", start)] + Burst(at, limit - 1);
    assert calls + more == first + Burst(at, limit - 1);
  }

  lemma OpensWindow(calls: seq<Call>, limit: nat, start: real, t: real)
    requires limit > 0 && !InWindow(UsageOf(After(calls, limit), "r"), start)
    ensures var first := calls + [Call("r", start)];
      && UsageOf(After(first, limit), "r") == Usage(Some(start), 1)
      && Within(Admitted(first, limit, "r"), t)
         == Within(Admitted(calls, limit, "r"), t) + if t <= start < t + WINDOW then 1 else 0
  {
    Opens(UsageOf(After(calls, limit), "r"), limit, start);
    hide *;
    OneMore(calls, Call("r", start), limit);
    WithinMore(Admitted(calls, limit, "r"), start, t);
  }

  lemma StillOpen(start: real, at: real)
    requires start <= at < start + WINDOW
    ensures InWindow(Usage(Some(start), 1), at)
  {}

  lemma Opens(u: Usage, limit: nat, now: real)
    requires limit > 0 && !InWindow(u, now)
    ensures Passes(u, limit, now) && Counted(u, limit, now) == Usage(Some(now), 1)
  {}

  lemma {:induction false} BurstAt(at: real, n: nat)
    ensures |Burst(at, n)| == n && forall i | 0 <= i < n :: Burst(at, n)[i] == Call("r", at)
  {
    if n > 0 {
      BurstAt(at, n - 1);
    }
  }
}

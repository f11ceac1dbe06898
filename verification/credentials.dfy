/**
 A run's short-lived data credentials: at most eight live ones a run, five minutes each, kept as
 digests and pruned on every mint of any run.

 The simple form is a log of what was minted and revoked. SHA-256 is a function from secrets to
 digests. Time is in seconds. An operation reads the clock before it waits for the map's lock, so that
 the readings come in the order of the operations is a premise: `InOrder`, where a claim needs it.
 */
module Credentials {
  import opened Wrappers

  type Digest = nat

  const TTL := 300.0
  const MAX_PER_RUN := 8

  datatype Entry = Entry(digest: Digest, expires: real)

  type Store = map<string, seq<Entry>>

  // ----- the simple form

  datatype Op =
    | Minted(run: string, digest: Digest, at: real)
    | Revoked(run: string)

  /** What was minted for a run since its last revocation, oldest first. */
  function Mints(log: seq<Op>, run: string): seq<Entry> {
    if log == [] then []
    else
      var before, op := Mints(log[..|log| - 1], run), log[|log| - 1];
      if op.run != run then before
      else match op
        case Revoked(_) => []
        case Minted(_, digest, at) => before + [Entry(digest, at + TTL)]
  }

  /** The newest eight of them. */
  function Newest(entries: seq<Entry>): seq<Entry> {
    if |entries| <= MAX_PER_RUN then entries else entries[|entries| - MAX_PER_RUN..]
  }

  /** A credential is good when it is one of the newest eight and its five minutes are not over. */
  predicate Good(log: seq<Op>, run: string, digest: Digest, now: real) {
    exists e | e in Newest(Mints(log, run)) :: e.digest == digest && e.expires > now
  }

  // ----- the store

  function Unexpired(entries: seq<Entry>, now: real): seq<Entry> {
    if entries == [] then []
    else (if entries[0].expires > now then [entries[0]] else []) + Unexpired(entries[1..], now)
  }

  function Of(store: Store, run: string): seq<Entry> {
    if run in store then store[run] else []
  }

  /** The store without its expired entries, and without the runs that have no other. */
  function Pruned(store: Store, now: real): Store {
    map run | run in store && Unexpired(store[run], now) != [] :: Unexpired(store[run], now)
  }

  /** Room for one more: the oldest goes when there are eight. */
  function WithRoom(entries: seq<Entry>): seq<Entry> {
    if |entries| >= MAX_PER_RUN then entries[1..] else entries
  }

  function AfterMint(store: Store, run: string, digest: Digest, now: real): Store {
    var live := Pruned(store, now);
    live[run := WithRoom(Of(live, run)) + [Entry(digest, now + TTL)]]
  }

  predicate Verify(store: Store, run: string, digest: Digest, now: real) {
    exists e | e in Of(store, run) :: e.expires > now && e.digest == digest
  }

  function After(store: Store, op: Op): Store {
    match op
    case Minted(run, digest, at) => AfterMint(store, run, digest, at)
    case Revoked(run) => store - {run}
  }

  // ----- the store is the log

  /** The moment of the last mint of any run. */
  function LastMint(log: seq<Op>): Option<real> {
    if log == [] then None
    else match log[|log| - 1]
      case Minted(_, _, at) => Some(at)
      case Revoked(_) => LastMint(log[..|log| - 1])
  }

  /** Mints in the order of time. */
  predicate InOrder(log: seq<Op>) {
    log == [] || (InOrder(log[..|log| - 1]) && NotBefore(log[..|log| - 1], log[|log| - 1]))
  }

  predicate NotBefore(log: seq<Op>, op: Op) {
    op.Revoked? || LastMint(log) == None || LastMint(log).value <= op.at
  }

  function Replay(log: seq<Op>): Store {
    if log == [] then map[] else After(Replay(log[..|log| - 1]), log[|log| - 1])
  }

  /** The newest eight of the log that were not expired at the last mint. */
  function Kept(log: seq<Op>, run: string): seq<Entry> {
    match LastMint(log)
    case None => []
    case Some(at) => Unexpired(Newest(Mints(log, run)), at)
  }

  predicate Sorted(entries: seq<Entry>) {
    forall i, j | 0 <= i < j < |entries| :: entries[i].expires <= entries[j].expires
  }

  lemma {:induction false} UnexpiredIs(entries: seq<Entry>, now: real)
    ensures forall e :: e in Unexpired(entries, now) <==> e in entries && e.expires > now
    ensures |Unexpired(entries, now)| <= |entries|
    ensures (forall e | e in entries :: e.expires > now) <==> Unexpired(entries, now) == entries
    ensures |Unexpired(entries, now)| == |entries| ==> Unexpired(entries, now) == entries
  {
    if entries != [] {
      UnexpiredIs(entries[1..], now);
      assert entries == [entries[0]] + entries[1..];
    }
  }

  lemma {:induction false} UnexpiredTwice(entries: seq<Entry>, a: real, b: real)
    requires a <= b
    ensures Unexpired(Unexpired(entries, a), b) == Unexpired(entries, b)
  {
    if entries != [] {
      UnexpiredTwice(entries[1..], a, b);
      var rest := Unexpired(entries[1..], a);
      assert ([entries[0]] + rest)[1..] == rest;
      assert [] + rest == rest;
    }
  }

  lemma {:induction false} UnexpiredMore(entries: seq<Entry>, e: Entry, now: real)
    ensures Unexpired(entries + [e], now) == Unexpired(entries, now) + if e.expires > now then [e] else []
  {
    if entries != [] {
      UnexpiredMore(entries[1..], e, now);
      assert (entries + [e])[1..] == entries[1..] + [e];
    }
  }

  // Every mint of a run is from the last mint or before it, and they are in the order of time.
  lemma {:induction false} MintsAreInOrder(log: seq<Op>, run: string)
    requires InOrder(log)
    ensures Sorted(Mints(log, run))
    ensures Mints(log, run) != [] ==> LastMint(log).Some?
    ensures forall e | e in Mints(log, run) :: e.expires <= LastMint(log).value + TTL
  {
    if log != [] {
      MintsAreInOrder(log[..|log| - 1], run);
    }
  }

  // Making room in the pruned entries is making room in the newest eight.
  lemma RoomIsTheNewestSeven(newest: seq<Entry>, now: real)
    requires Sorted(newest) && |newest| <= MAX_PER_RUN
    ensures WithRoom(Unexpired(newest, now)) == Unexpired(WithRoom(newest), now)
  {
    if |newest| < MAX_PER_RUN {
      UnexpiredIs(newest, now);
      hide Unexpired, Sorted;
    } else if newest[0].expires > now {
      AllUnexpired(newest, now);
      AllUnexpired(newest[1..], now);
      hide Unexpired, Sorted;
    } else {
      FirstExpired(newest, now);
      UnexpiredIs(newest[1..], now);
      hide Unexpired, Sorted;
    }
  }

  lemma AllUnexpired(entries: seq<Entry>, now: real)
    requires Sorted(entries) && (entries != [] ==> entries[0].expires > now)
    ensures Unexpired(entries, now) == entries
  {
    UnexpiredIs(entries, now);
    hide Unexpired;
  }

  lemma FirstExpired(entries: seq<Entry>, now: real)
    requires entries != [] && entries[0].expires <= now
    ensures Unexpired(entries, now) == Unexpired(entries[1..], now)
  {
    assert [] + Unexpired(entries[1..], now) == Unexpired(entries[1..], now);
  }

  lemma NewestAfterOneMore(entries: seq<Entry>, e: Entry)
    ensures Newest(entries + [e]) == WithRoom(Newest(entries)) + [e]
  {}

  /**
   After every run of mints and revocations, what is held for a run is the log's newest eight not
   expired at the last mint.
   */
  lemma {:induction false} StoreIsTheLog(log: seq<Op>, run: string)
    requires InOrder(log)
    ensures Of(Replay(log), run) == Kept(log, run)
  {
    if log != [] {
      var before, op := log[..|log| - 1], log[|log| - 1];
      StoreIsTheLog(before, run);
      assert log == before + [op];
      hide *;
      OneMoreOp(before, op, run);
    }
  }

  lemma OneMoreOp(log: seq<Op>, op: Op, run: string)
    requires InOrder(log) && NotBefore(log, op) && Of(Replay(log), run) == Kept(log, run)
    ensures Of(Replay(log + [op]), run) == Kept(log + [op], run)
  {
    LogGrows(log, op);
    match op
    case Revoked(r) => RevokedOp(log, r, run);
    case Minted(r, digest, at) => MintedOp(log, r, digest, at, run);
  }

  lemma RevokedOp(log: seq<Op>, r: string, run: string)
    requires Of(Replay(log), run) == Kept(log, run)
    ensures Of(Replay(log) - {r}, run) == Kept(log + [Revoked(r)], run)
  {
    MintsAfter(log, Revoked(r), run);
    NothingKept(if LastMint(log).Some? then LastMint(log).value else 0.0);
    hide Newest, Unexpired, Mints, Replay, LastMint;
  }

  lemma MintedOp(log: seq<Op>, r: string, digest: Digest, at: real, run: string)
    requires InOrder(log) && NotBefore(log, Minted(r, digest, at)) && Of(Replay(log), run) == Kept(log, run)
    ensures Of(AfterMint(Replay(log), r, digest, at), run) == Kept(log + [Minted(r, digest, at)], run)
  {
    hide *;
    OfAfterMint(Replay(log), r, digest, at, run);
    KeptPruned(log, run, r, digest, at);
    KeptAfterMint(log, r, digest, at, run);
    if run == r {
      MintsAreInOrder(log, run);
      OneMoreMint(Mints(log, run), digest, at);
    }
  }

  lemma OfAfterMint(store: Store, r: string, digest: Digest, at: real, run: string)
    ensures Of(AfterMint(store, r, digest, at), run) ==
      if run == r then WithRoom(Unexpired(Of(store, run), at)) + [Entry(digest, at + TTL)]
      else Unexpired(Of(store, run), at)
  {
    PrunedKeeps(store, run, at);
    hide Unexpired, WithRoom, Pruned;
  }

  lemma KeptAfterMint(log: seq<Op>, r: string, digest: Digest, at: real, run: string)
    ensures Kept(log + [Minted(r, digest, at)], run) ==
      Unexpired(Newest(if r == run then Mints(log, run) + [Entry(digest, at + TTL)] else Mints(log, run)), at)
  {
    MintsAfter(log, Minted(r, digest, at), run);
    hide Unexpired, Newest, Mints, LastMint;
  }

  lemma OneMoreMint(entries: seq<Entry>, digest: Digest, at: real)
    requires Sorted(entries)
    ensures Unexpired(Newest(entries + [Entry(digest, at + TTL)]), at) ==
      WithRoom(Unexpired(Newest(entries), at)) + [Entry(digest, at + TTL)]
  {
    var e := Entry(digest, at + TTL);
    NewestAfterOneMore(entries, e);
    NewestIsSorted(entries);
    RoomIsTheNewestSeven(Newest(entries), at);
    UnexpiredMore(WithRoom(Newest(entries)), e, at);
    hide Unexpired, Newest, WithRoom, Sorted;
  }

  lemma NewestIsSorted(entries: seq<Entry>)
    requires Sorted(entries)
    ensures Sorted(Newest(entries)) && |Newest(entries)| <= MAX_PER_RUN
  {}

  // What is kept, pruned again at a later moment.
  lemma KeptPruned(log: seq<Op>, run: string, r: string, digest: Digest, at: real)
    requires InOrder(log) && NotBefore(log, Minted(r, digest, at))
    ensures Unexpired(Kept(log, run), at) == Unexpired(Newest(Mints(log, run)), at)
  {
    MintsAreInOrder(log, run);
    if LastMint(log).Some? {
      UnexpiredTwice(Newest(Mints(log, run)), LastMint(log).value, at);
    }
    hide Mints, InOrder;
  }

  lemma MintsAfter(log: seq<Op>, op: Op, run: string)
    ensures Mints(log + [op], run) ==
      if op.run != run then Mints(log, run)
      else match op
        case Revoked(_) => []
        case Minted(_, digest, at) => Mints(log, run) + [Entry(digest, at + TTL)]
    ensures LastMint(log + [op]) == match op
      case Minted(_, _, at) => Some(at)
      case Revoked(_) => LastMint(log)
  {
    assert (log + [op])[..|log|] == log;
  }

  lemma NothingKept(now: real)
    ensures Unexpired(Newest([]), now) == []
  {}

  lemma PrunedKeeps(store: Store, run: string, now: real)
    ensures Of(Pruned(store, now), run) == Unexpired(Of(store, run), now)
  {}

  /**
   The store answers as the log: a credential verifies exactly when it is among the newest eight
   minted for its run since the last revocation and its time is not over, whatever other runs
   minted and whenever entries were pruned.
   */
  lemma VerifyIsGood(log: seq<Op>, run: string, digest: Digest, now: real)
    requires InOrder(log) && (LastMint(log).Some? ==> LastMint(log).value <= now)
    ensures Verify(Replay(log), run, digest, now) <==> Good(log, run, digest, now)
  {
    StoreIsTheLog(log, run);
    MintsAreInOrder(log, run);
    var newest := Newest(Mints(log, run));
    if LastMint(log).Some? {
      UnexpiredIs(newest, LastMint(log).value);
    }
  }

  /**
   Whatever the clock did, a run holds at most eight credentials, all minted for it since its last
   revocation.
   */
  lemma {:induction false} HeldIsMinted(log: seq<Op>, run: string)
    ensures |Of(Replay(log), run)| <= MAX_PER_RUN
    ensures forall e | e in Of(Replay(log), run) :: e in Mints(log, run)
  {
    if log != [] {
      hide Replay, Mints, Unexpired;
      var before, op := log[..|log| - 1], log[|log| - 1];
      assert log == before + [op];
      HeldIsMinted(before, run);
      MintsAfter(before, op, run);
      LastReplay(log);
      if op.Minted? {
        UnexpiredIs(Of(Replay(before), run), op.at);
        OfAfterMint(Replay(before), op.run, op.digest, op.at, run);
      }
    }
  }

  lemma LastReplay(log: seq<Op>)
    requires log != []
    ensures Replay(log) == After(Replay(log[..|log| - 1]), log[|log| - 1])
  {
    hide After;
  }

  /**
   In terms of secrets, `secrets[i]` the one drawn for the mint `log[i]`: one that verifies was itself
   minted for the run less than five minutes ago, unless it shares a digest with another minted one.
   */
  lemma OnlyMintedSecretsVerify(
    sha: string -> Digest, log: seq<Op>, secrets: seq<string>, run: string, secret: string, now: real)
    requires |secrets| == |log| && forall i | 0 <= i < |log| && log[i].Minted? :: log[i].digest == sha(secrets[i])
    requires forall i | 0 <= i < |log| && sha(secrets[i]) == sha(secret) :: secrets[i] == secret
    requires Verify(Replay(log), run, sha(secret), now)
    ensures exists i | 0 <= i < |log| ::
      log[i].Minted? && log[i].run == run && secrets[i] == secret && now < log[i].at + TTL
  {
    var e :| e in Of(Replay(log), run) && e.expires > now && e.digest == sha(secret);
    HeldIsMinted(log, run);
    var i := MintOf(log, run, e);
  }

  lemma {:induction false} MintOf(log: seq<Op>, run: string, e: Entry) returns (i: nat)
    requires e in Mints(log, run)
    ensures i < |log| && log[i] == Minted(run, e.digest, e.expires - TTL)
  {
    var before, op := log[..|log| - 1], log[|log| - 1];
    if op.run == run && op.Minted? && e == Entry(op.digest, op.at + TTL) {
      i := |log| - 1;
    } else {
      i := MintOf(before, run, e);
      assert before[i] == log[i];
    }
  }

  lemma LogGrows(log: seq<Op>, op: Op)
    ensures Replay(log + [op]) == After(Replay(log), op)
    ensures InOrder(log) && NotBefore(log, op) <==> InOrder(log + [op])
  {
    assert (log + [op])[..|log|] == log;
    hide After, LastMint;
  }

  /** `n` mints of a run at one moment, of the digests from `first` on. */
  function Burst(run: string, first: nat, n: nat, at: real): seq<Op> {
    if n == 0 then [] else Burst(run, first, n - 1, at) + [Minted(run, first + n - 1, at)]
  }

  lemma {:induction false} BurstMints(run: string, n: nat, at: real)
    ensures |Mints(Burst(run, 0, n, at), run)| == n
    ensures forall i | 0 <= i < n :: Mints(Burst(run, 0, n, at), run)[i] == Entry(i, at + 300.0)
  {
    hide *;
    if n == 0 {
      NoMints(run);
      assert Burst(run, 0, 0, at) == [] by { BurstMore(run, 1, at); }
    } else {
      BurstMints(run, n - 1, at);
      MintsOneMore(run, n, at);
    }
  }

  lemma MintsOneMore(run: string, n: nat, at: real)
    requires n > 0
    ensures Mints(Burst(run, 0, n, at), run) == Mints(Burst(run, 0, n - 1, at), run) + [Entry(n - 1, at + 300.0)]
  {
    BurstMore(run, n, at);
    MintsAfter(Burst(run, 0, n - 1, at), Minted(run, n - 1, at), run);
    hide Mints, Burst, LastMint;
  }

  lemma {:induction false} BurstInOrder(run: string, n: nat, at: real)
    ensures InOrder(Burst(run, 0, n, at)) && (n > 0 ==> LastMint(Burst(run, 0, n, at)) == Some(at))
  {
    hide *;
    BurstMore(run, if n == 0 then 1 else n, at);
    if n == 0 {
      NoMints(run);
    } else {
      var before, op := Burst(run, 0, n - 1, at), Minted(run, n - 1, at);
      BurstInOrder(run, n - 1, at);
      assert n == 1 ==> before == [];
      NotBeforeSame(before, op, n - 1, at);
      LogGrows(before, op);
      LastIsMinted(before, op);
    }
  }

  lemma LastIsMinted(log: seq<Op>, op: Op)
    requires op.Minted?
    ensures LastMint(log + [op]) == Some(op.at)
  {}

  lemma NoMints(run: string)
    ensures Mints([], run) == [] && InOrder([])
  {}

  lemma BurstMore(run: string, n: nat, at: real)
    requires n > 0
    ensures Burst(run, 0, n, at) == Burst(run, 0, n - 1, at) + [Minted(run, n - 1, at)]
    ensures Burst(run, 0, 0, at) == []
  {}

  lemma NotBeforeSame(log: seq<Op>, op: Op, n: nat, at: real)
    requires op.Minted? && op.at == at && (if n == 0 then log == [] else LastMint(log) == Some(at))
    ensures NotBefore(log, op)
  {}

  /**
   Of any number of credentials minted for a run, the last eight verify, and no other, for three hundred
   seconds, and none after them.
   */
  lemma LastEightForFiveMinutes(run: string, n: nat, at: real, digest: nat, now: real)
    requires at <= now
    ensures Verify(Replay(Burst(run, 0, n, at)), run, digest, now) <==>
      digest < n && digest + 8 >= n && now < at + 300.0
  {
    var log := Burst(run, 0, n, at);
    BurstMints(run, n, at);
    BurstInOrder(run, n, at);
    assert log == [] ==> LastMint(log) == None;
    hide Mints, Replay, InOrder, Verify, LastMint;
    VerifyIsGood(log, run, digest, now);
    hide Burst;
    AmongTheNewest(Mints(log, run), n, at + 300.0, digest);
  }

  lemma AmongTheNewest(mints: seq<Entry>, n: nat, expires: real, digest: nat)
    requires |mints| == n && forall i | 0 <= i < n :: mints[i] == Entry(i, expires)
    ensures forall e | e in Newest(mints) :: e.expires == expires && e.digest < n && e.digest + 8 >= n
    ensures digest < n && digest + 8 >= n ==> Entry(digest, expires) in Newest(mints)
  {
    if digest < n && digest + 8 >= n {
      assert Newest(mints)[if n <= 8 then digest else digest - (n - 8)] == mints[digest];
    }
  }

  // ----- the map in place

  class DataCredentials {
    var live: Store
    ghost var log: seq<Op>

    ghost predicate Valid()
      reads this
    {
      live == Replay(log)
    }

    constructor ()
      ensures Valid() && log == []
    {
      live, log := map[], [];
    }

    /** A new credential of the run; the secret is drawn by the caller. */
    method Mint(run: string, digest: Digest, now: real)
      requires Valid()
      modifies this
      ensures Valid() && log == old(log) + [Minted(run, digest, now)]
    {
      hide Pruned, Replay, InOrder;
      LogGrows(log, Minted(run, digest, now));
      live := Pruned(live, now);
      var entries := if run in live then live[run] else [];
      if |entries| >= MAX_PER_RUN {
        entries := entries[1..];
      }
      live := live[run := entries + [Entry(digest, now + TTL)]];
      log := log + [Minted(run, digest, now)];
    }

    /** Whether the digest is that of a live credential of the run. */
    method VerifyDigest(run: string, digest: Digest, now: real) returns (ok: bool)
      requires Valid()
      ensures ok == Verify(Replay(log), run, digest, now)
      ensures InOrder(log) && (LastMint(log).Some? ==> LastMint(log).value <= now) ==> ok == Good(log, run, digest, now)
    {
      if InOrder(log) && (LastMint(log).Some? ==> LastMint(log).value <= now) {
        VerifyIsGood(log, run, digest, now);
      }
      if run !in live {
        return false;
      }
      var entries := live[run];
      for i := 0 to |entries|
        invariant forall j | 0 <= j < i :: !(entries[j].expires > now && entries[j].digest == digest)
      {
        if entries[i].expires > now && entries[i].digest == digest {
          assert entries[i] in Of(live, run);
          return true;
        }
      }
      return false;
    }

    /** Drops every credential of a run. */
    method Revoke(run: string)
      requires Valid()
      modifies this
      ensures Valid() && log == old(log) + [Revoked(run)]
      ensures forall digest, now :: !Good(log, run, digest, now)
    {
      LogGrows(log, Revoked(run));
      live := live - {run};
      log := log + [Revoked(run)];
    }
  }

  // ----- the bearer token

  const PREFIX := "jcd_"

  /** `jcd_<run>.<secret>` */
  function Token(run: string, secret: string): string {
    PREFIX + run + "." + secret
  }

  function SplitAtDot(text: string): Option<(string, string)> {
    if text == "" then None
    else if text[0] == '.' then Some(("", text[1..]))
    else match SplitAtDot(text[1..]) case None => None case Some((a, b)) => Some(([text[0]] + a, b))
  }

  /** The run and secret a bearer token names. */
  function Presented(token: string): Option<(string, string)> {
    if !(PREFIX <= token) then None
    else
      match SplitAtDot(token[|PREFIX|..])
      case None => None
      case Some((run, secret)) => if run == "" || secret == "" then None else Some((run, secret))
  }

  lemma {:induction false} SplitsAtFirstDot(run: string, rest: string)
    requires '.' !in run
    ensures SplitAtDot(run + "." + rest) == Some((run, rest))
  {
    var text := run + "." + rest;
    if run == "" {
      assert text[1..] == rest;
    } else {
      assert text[1..] == run[1..] + "." + rest;
      SplitsAtFirstDot(run[1..], rest);
      assert [run[0]] + run[1..] == run;
    }
  }

  lemma {:induction false} NoDotInFront(text: string)
    ensures SplitAtDot(text).Some? ==> '.' !in SplitAtDot(text).value.0
  {
    if text != "" {
      NoDotInFront(text[1..]);
    }
  }

  /** A minted token names its run and its secret exactly when neither is empty and the run has no dot. */
  lemma TokenReadsBack(run: string, secret: string)
    ensures Token(run, secret) == "jcd_" + run + "." + secret
    ensures Presented(Token(run, secret)) == Some((run, secret)) <==> run != "" && secret != "" && '.' !in run
  {
    var token := Token(run, secret);
    assert token[|PREFIX|..] == run + "." + secret;
    assert PREFIX <= token;
    NoDotInFront(run + "." + secret);
    if '.' !in run {
      SplitsAtFirstDot(run, secret);
    }
  }
}

/**
 The run tickets that verified: kept so that a run's later calls cost one SHA-256 instead of one
 Argon2 verify.

 SHA-256, the parsing of a stored hash and Argon2 are functions. The map is locked for a look, for an
 insertion and for a removal, so the calls of several tasks interleave between those.
 */
module Tickets {
  import opened Wrappers

  type Digest = d: seq<bv8> | |d| == 32 witness seq(32, _ => 0)

  datatype Broken = NoHash

  // ----- the compare

  /** The bits in which two bytes differ, on top of those found before. */
  function Differing(acc: bv8, x: bv8, y: bv8): bv8 {
    acc | (x ^ y)
  }

  /** The bits in which two digests differ, folded into one byte on top of `acc`. */
  function Differences(a: seq<bv8>, b: seq<bv8>, acc: bv8): bv8
    requires |a| == |b|
  {
    if a == [] then acc else Differences(a[1..], b[1..], Differing(acc, a[0], b[0]))
  }

  predicate DigestsEqual(a: Digest, b: Digest) {
    Differences(a, b, 0) == 0
  }

  lemma BitsDiffer(acc: bv8, x: bv8, y: bv8)
    ensures Differing(acc, x, y) == 0 <==> acc == 0 && x == y
  {}

  /** The fold over all bytes is equality: no difference is left out, and none is made up. */
  lemma {:induction false} FoldIsEquality(a: seq<bv8>, b: seq<bv8>, acc: bv8)
    requires |a| == |b|
    ensures Differences(a, b, acc) == 0 <==> acc == 0 && a == b
  {
    hide Differing;
    if a != [] {
      BitsDiffer(acc, a[0], b[0]);
      FoldIsEquality(a[1..], b[1..], Differing(acc, a[0], b[0]));
      FirstAndRest(a, b);
    }
  }

  lemma FirstAndRest(a: seq<bv8>, b: seq<bv8>)
    requires a != [] && b != []
    ensures a == b <==> a[0] == b[0] && a[1..] == b[1..]
  {
    assert a == [a[0]] + a[1..] && b == [b[0]] + b[1..];
  }

  lemma DigestsEqualIsEquality(a: Digest, b: Digest)
    ensures DigestsEqual(a, b) <==> a == b
  {
    FoldIsEquality(a, b, 0);
  }

  // ----- the simple form

  /** What the cache is built on: SHA-256, the parser of a stored hash, and Argon2 of a ticket against one. */
  datatype Functions = Functions(sha: string -> Digest, parses: string -> bool, argon2: (string, string) -> bool)

  /** One Argon2 verify against the stored hash, after parsing it. */
  function Plain(f: Functions, hash: string, ticket: string): Result<bool, Broken> {
    if f.parses(hash) then Ok(f.argon2(ticket, hash)) else Err(NoHash)
  }

  // ----- the steps of the calls, in any interleaving

  type Entries = map<string, (string, Digest)>

  datatype Step =
    | Look(run: string, hash: string, ticket: string)   // a verify looks at the map
    | Keep(run: string, hash: string, ticket: string)   // a verify keeps the ticket Argon2 took
    | Forget(run: string)

  predicate Enabled(f: Functions, step: Step) {
    step.Keep? ==> Plain(f, step.hash, step.ticket) == Ok(true)
  }

  predicate IsKnown(f: Functions, entries: Entries, run: string, hash: string, ticket: string) {
    run in entries && entries[run] == (hash, f.sha(ticket))
  }

  /** What a verify answers whose look at the map is this one. */
  function Answer(f: Functions, entries: Entries, run: string, hash: string, ticket: string): Result<bool, Broken> {
    if IsKnown(f, entries, run, hash, ticket) then Ok(true) else Plain(f, hash, ticket)
  }

  function After(f: Functions, entries: Entries, step: Step): Entries {
    match step
    case Look(_, _, _) => entries
    case Keep(run, hash, ticket) => entries[run := (hash, f.sha(ticket))]
    case Forget(run) => entries - {run}
  }

  function Final(f: Functions, steps: seq<Step>): Entries {
    if steps == [] then map[] else After(f, Final(f, steps[..|steps| - 1]), steps[|steps| - 1])
  }

  predicate Runs(f: Functions, steps: seq<Step>) {
    forall step | step in steps :: Enabled(f, step)
  }

  /** The tickets the steps were called with. */
  function Presented(steps: seq<Step>): set<string> {
    set step | step in steps && !step.Forget? :: step.ticket
  }

  /** No two of the tickets share a digest. */
  ghost predicate Apart(f: Functions, tickets: set<string>) {
    forall a, b | a in tickets && b in tickets && f.sha(a) == f.sha(b) :: a == b
  }

  /** An entry was kept for a ticket Argon2 took against that very hash. */
  ghost predicate Earned(f: Functions, steps: seq<Step>, run: string, entry: (string, Digest)) {
    exists ticket :: Keep(run, entry.0, ticket) in steps && entry.1 == f.sha(ticket)
  }

  lemma {:induction false} EntriesAreEarned(f: Functions, steps: seq<Step>, run: string)
    requires run in Final(f, steps)
    ensures Earned(f, steps, run, Final(f, steps)[run])
  {
    var before, step := steps[..|steps| - 1], steps[|steps| - 1];
    assert steps == before + [step];
    var entry := Final(f, steps)[run];
    if step.Keep? && step.run == run {
      assert Keep(run, entry.0, step.ticket) in steps;
    } else {
      EntriesAreEarned(f, before, run);
      var ticket :| Keep(run, entry.0, ticket) in before && entry.1 == f.sha(ticket);
      assert Keep(run, entry.0, ticket) in steps;
    }
  }

  /**
   The cache cannot be seen: after every run of steps, with re-minted hashes, forgotten runs and
   verifies that overlap, a verify answers what Argon2 alone would, unless its ticket shares a
   digest with another one presented before.
   */
  lemma CacheIsInvisible(f: Functions, steps: seq<Step>, run: string, hash: string, ticket: string)
    requires Runs(f, steps) && Apart(f, Presented(steps) + {ticket})
    ensures Answer(f, Final(f, steps), run, hash, ticket) == Plain(f, hash, ticket)
  {
    if IsKnown(f, Final(f, steps), run, hash, ticket) {
      EntriesAreEarned(f, steps, run);
      var other :| Keep(run, hash, other) in steps && f.sha(ticket) == f.sha(other);
      assert other in Presented(steps);
      assert Enabled(f, Keep(run, hash, other));
    }
  }

  /**
   It answers wrongly exactly when the known ticket is another one of the same digest, which
   Argon2 took and takes this one not.
   */
  lemma WrongExactly(f: Functions, steps: seq<Step>, run: string, hash: string, ticket: string)
    requires Runs(f, steps)
    ensures Answer(f, Final(f, steps), run, hash, ticket) != Plain(f, hash, ticket) <==>
      IsKnown(f, Final(f, steps), run, hash, ticket) && !f.argon2(ticket, hash)
    ensures IsKnown(f, Final(f, steps), run, hash, ticket) ==>
      exists other :: Keep(run, hash, other) in steps && f.sha(other) == f.sha(ticket) && f.argon2(other, hash)
  {
    if IsKnown(f, Final(f, steps), run, hash, ticket) {
      EntriesAreEarned(f, steps, run);
      var other :| Keep(run, hash, other) in steps && f.sha(ticket) == f.sha(other);
      assert Enabled(f, Keep(run, hash, other));
    }
  }

  /**
   A ticket that was kept stays known, through the calls of all other runs, until its own run's is
   forgotten or replaced.
   */
  lemma {:induction false} KnownUntilItsOwn(
    f: Functions, steps: seq<Step>, later: seq<Step>, run: string, hash: string, ticket: string)
    requires forall step | step in later :: step.Look? || step.run != run
    ensures IsKnown(f, Final(f, steps + [Keep(run, hash, ticket)] + later), run, hash, ticket)
  {
    var all := steps + [Keep(run, hash, ticket)] + later;
    if later == [] {
      assert all[..|all| - 1] == steps;
    } else {
      var before := later[..|later| - 1];
      KnownUntilItsOwn(f, steps, before, run, hash, ticket);
      assert all[..|all| - 1] == steps + [Keep(run, hash, ticket)] + before;
    }
  }

  // ----- the cache in place

  class TicketCache {
    const f: Functions
    var verified: Entries
    /** How often Argon2 ran. */
    var hashed: nat
    ghost var steps: seq<Step>

    constructor (f: Functions)
      ensures this.f == f && Valid() && hashed == 0 && steps == []
    {
      this.f := f;
      verified, hashed, steps := map[], 0, [];
    }

    ghost predicate Valid()
      reads this
    {
      Runs(f, steps) && verified == Final(f, steps)
    }

    /** Whether a look at the map answers for the ticket, without Argon2. */
    method Known(run: string, hash: string, ticket: string) returns (known: bool)
      ensures known == IsKnown(f, verified, run, hash, ticket)
    {
      if run !in verified || verified[run].0 != hash {
        return false;
      }
      DigestsEqualIsEquality(verified[run].1, f.sha(ticket));
      known := DigestsEqual(verified[run].1, f.sha(ticket));
    }

    /**
     Whether the ticket is the run's: the answer of one Argon2 verify, without running it when the
     ticket is known.
     */
    method Verify(run: string, hash: string, ticket: string) returns (answer: Result<bool, Broken>)
      requires Valid()
      modifies this
      ensures Valid()
      ensures answer == Answer(f, old(verified), run, hash, ticket)
      ensures steps == old(steps) + [Look(run, hash, ticket)]
                       + if IsKnown(f, old(verified), run, hash, ticket) || answer != Ok(true) then []
                         else [Keep(run, hash, ticket)]
      ensures hashed == old(hashed) + if IsKnown(f, old(verified), run, hash, ticket) || !f.parses(hash) then 0 else 1
    {
      hide IsKnown, Final;
      var known := Known(run, hash, ticket);
      StepsOn(f, steps, Look(run, hash, ticket));
      steps := steps + [Look(run, hash, ticket)];
      if known {
        return Ok(true);
      }
      if !f.parses(hash) {
        return Err(NoHash);
      }
      hashed := hashed + 1;
      if !f.argon2(ticket, hash) {
        return Ok(false);
      }
      StepsOn(f, steps, Keep(run, hash, ticket));
      verified := verified[run := (hash, f.sha(ticket))];
      steps := steps + [Keep(run, hash, ticket)];
      return Ok(true);
    }

    /** Drops what is held for a run that ended. */
    method Drop(run: string)
      requires Valid()
      modifies this
      ensures Valid() && steps == old(steps) + [Forget(run)]
      ensures verified == old(verified) - {run} && hashed == old(hashed)
    {
      StepsOn(f, steps, Forget(run));
      verified := verified - {run};
      steps := steps + [Forget(run)];
    }
  }

  lemma StepsOn(f: Functions, steps: seq<Step>, step: Step)
    ensures Final(f, steps + [step]) == After(f, Final(f, steps), step)
    ensures Runs(f, steps) && Enabled(f, step) ==> Runs(f, steps + [step])
  {
    assert (steps + [step])[..|steps|] == steps;
  }
}

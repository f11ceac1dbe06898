/**
 The search over several projects: each project ranks its own passages and answers its best few,
 and the best few of all the answers are the result. The projects answer in any order.

 A project's answer is what its SQL promises: its passages by score, then news last, then by chunk,
 cut at the limit. The merge orders by score, then by chunk. Scores are real numbers.
 */
module Search {
  datatype Hit = Hit(chunk: int, score: real, news: bool)

  /** The merge's order. */
  predicate Before(a: Hit, b: Hit) {
    a.score > b.score || (a.score == b.score && a.chunk <= b.chunk)
  }

  /** A project's own order. */
  predicate BeforeInProject(a: Hit, b: Hit) {
    || a.score > b.score
    || (a.score == b.score && ((!a.news && b.news) || (a.news == b.news && a.chunk <= b.chunk)))
  }

  // ----- the merge

  predicate Sorted(hits: seq<Hit>) {
    forall i, j | 0 <= i < j < |hits| :: Before(hits[i], hits[j])
  }

  function Insert(h: Hit, hits: seq<Hit>): seq<Hit> {
    if hits == [] || Before(h, hits[0]) then [h] + hits else [hits[0]] + Insert(h, hits[1..])
  }

  /** The hits in the merge's order. */
  function Sort(hits: seq<Hit>): seq<Hit> {
    if hits == [] then [] else Insert(hits[0], Sort(hits[1..]))
  }

  function Flatten(answers: seq<seq<Hit>>): seq<Hit> {
    if answers == [] then [] else answers[0] + Flatten(answers[1..])
  }

  function Truncate(hits: seq<Hit>, limit: nat): seq<Hit> {
    if |hits| <= limit then hits else hits[..limit]
  }

  /** The best `limit` of the projects' answers. */
  function Merge(answers: seq<seq<Hit>>, limit: nat): seq<Hit> {
    Truncate(Sort(Flatten(answers)), limit)
  }

  method SearchProjects(answers: seq<seq<Hit>>, limit: nat) returns (hits: seq<Hit>)
    ensures hits == Merge(answers, limit)
  {
    hits := [];
    for i := 0 to |answers|
      invariant Flatten(answers) == hits + Flatten(answers[i..])
    {
      assert answers[i..][1..] == answers[i + 1..];
      hits := hits + answers[i];
    }
    assert answers[|answers|..] == [];
    assert hits + [] == hits;
    hits := Sort(hits);
    if |hits| > limit {
      hits := hits[..limit];
    }
  }

  lemma {:induction false} InsertKeeps(h: Hit, hits: seq<Hit>)
    requires Sorted(hits)
    ensures Sorted(Insert(h, hits)) && multiset(Insert(h, hits)) == multiset(hits) + multiset{h}
  {
    if hits != [] && !Before(h, hits[0]) {
      InsertKeeps(h, hits[1..]);
      var rest := Insert(h, hits[1..]);
      assert hits == [hits[0]] + hits[1..];
      FirstStays(h, hits, rest);
    }
  }

  lemma FirstStays(h: Hit, hits: seq<Hit>, rest: seq<Hit>)
    requires hits != [] && Sorted(hits) && !Before(h, hits[0])
    requires Sorted(rest) && multiset(rest) == multiset(hits[1..]) + multiset{h}
    ensures Sorted([hits[0]] + rest)
  {
    forall i | 0 <= i < |rest|
      ensures Before(hits[0], rest[i])
    {
      assert rest[i] in multiset(rest);
      if rest[i] != h {
        assert rest[i] in hits[1..];
      }
    }
  }

  lemma {:induction false} SortSorts(hits: seq<Hit>)
    ensures Sorted(Sort(hits)) && multiset(Sort(hits)) == multiset(hits)
  {
    if hits != [] {
      SortSorts(hits[1..]);
      InsertKeeps(hits[0], Sort(hits[1..]));
      assert hits == [hits[0]] + hits[1..];
    }
  }

  /** No two hits are of one chunk. */
  ghost predicate OneOfAChunk(hits: multiset<Hit>) {
    forall a, b | a in hits && b in hits && a.chunk == b.chunk :: a == b && hits[a] == 1
  }

  // With unique chunks there is one order only.
  lemma {:induction false} OneOrder(a: seq<Hit>, b: seq<Hit>)
    requires Sorted(a) && Sorted(b) && multiset(a) == multiset(b) && OneOfAChunk(multiset(a))
    ensures a == b
  {
    if a == [] {
      assert |multiset(b)| == 0;
    } else {
      assert |multiset(b)| == |multiset(a)|;
      SameFirst(a, b);
      hide Before, Sorted;
      assert a == [a[0]] + a[1..] && b == [b[0]] + b[1..];
      assert multiset(a[1..]) == multiset(a) - multiset{a[0]};
      assert multiset(b[1..]) == multiset(b) - multiset{b[0]};
      FewerOfAChunk(multiset(a), multiset(a[1..]));
      TailSorted(a);
      TailSorted(b);
      OneOrder(a[1..], b[1..]);
    }
  }

  lemma TailSorted(a: seq<Hit>)
    requires Sorted(a) && a != []
    ensures Sorted(a[1..])
  {}

  lemma FewerOfAChunk(all: multiset<Hit>, some: multiset<Hit>)
    requires OneOfAChunk(all) && some <= all
    ensures OneOfAChunk(some)
  {
    forall a, b | a in some && b in some && a.chunk == b.chunk
      ensures a == b && some[a] == 1
    {
      assert a in all && b in all;
      assert some[a] <= all[a];
    }
  }

  lemma SameFirst(a: seq<Hit>, b: seq<Hit>)
    requires Sorted(a) && Sorted(b) && a != [] && b != []
    requires multiset(a) == multiset(b) && OneOfAChunk(multiset(a))
    ensures a[0] == b[0]
  {
    assert a[0] in multiset(b) && b[0] in multiset(a);
    var i :| 0 <= i < |b| && b[i] == a[0];
    var j :| 0 <= j < |a| && a[j] == b[0];
    if i > 0 && j > 0 {
      assert Before(b[0], b[i]) && Before(a[0], a[j]);
      assert a[0].chunk == b[0].chunk;
    }
  }

  /** The answers in another order give the same result: it depends on the hits alone. */
  lemma OrderOfAnswersDoesNotMatter(answers: seq<seq<Hit>>, others: seq<seq<Hit>>, limit: nat)
    requires multiset(answers) == multiset(others) && OneOfAChunk(multiset(Flatten(answers)))
    ensures Merge(answers, limit) == Merge(others, limit)
  {
    FlattenPermuted(answers, others);
    SortSorts(Flatten(answers));
    SortSorts(Flatten(others));
    OneOrder(Sort(Flatten(answers)), Sort(Flatten(others)));
  }

  lemma {:induction false} FlattenPermuted(answers: seq<seq<Hit>>, others: seq<seq<Hit>>)
    requires multiset(answers) == multiset(others)
    ensures multiset(Flatten(answers)) == multiset(Flatten(others))
    decreases |answers|
  {
    if answers == [] {
      assert |multiset(others)| == 0;
    } else {
      assert answers[0] in multiset(others);
      var i :| 0 <= i < |others| && others[i] == answers[0];
      var rest := others[..i] + others[i + 1..];
      assert others == others[..i] + [others[i]] + others[i + 1..];
      assert answers == [answers[0]] + answers[1..];
      assert multiset(others) == multiset(others[..i]) + multiset{others[i]} + multiset(others[i + 1..]);
      assert multiset(rest) == multiset(others[..i]) + multiset(others[i + 1..]);
      assert multiset(answers) == multiset{answers[0]} + multiset(answers[1..]);
      assert multiset(answers[1..]) == multiset(answers) - multiset{answers[0]};
      assert multiset(rest) == multiset(others) - multiset{others[i]};
      FlattenPermuted(answers[1..], rest);
      FlattenOut(others[..i], answers[0], others[i + 1..]);
    }
  }

  lemma {:induction false} FlattenOut(a: seq<seq<Hit>>, x: seq<Hit>, b: seq<seq<Hit>>)
    ensures multiset(Flatten(a + [x] + b)) == multiset(x) + multiset(Flatten(a + b))
  {
    if a == [] {
      assert a + [x] + b == [x] + b && a + b == b;
      assert ([x] + b)[1..] == b;
    } else {
      assert (a + [x] + b)[1..] == a[1..] + [x] + b && (a + b)[1..] == a[1..] + b;
      assert (a + [x] + b)[0] == a[0] && (a + b)[0] == a[0];
      FlattenOut(a[1..], x, b);
    }
  }

  // ----- the result is the best of everything

  /** What a project answers about its passages `pool`: its best, in its order, cut at the limit. */
  ghost predicate Answers(answer: seq<Hit>, pool: set<Hit>, limit: nat) {
    && (forall i, j | 0 <= i < j < |answer| :: answer[i] != answer[j] && BeforeInProject(answer[i], answer[j]))
    && (forall h | h in answer :: h in pool)
    && |answer| <= limit
    && (forall h | h in pool && h !in answer :: |answer| == limit && forall k | k in answer :: BeforeInProject(k, h))
  }

  /** The projects' passages and answers: every passage is of one chunk and one project. */
  ghost predicate Searched(answers: seq<seq<Hit>>, pools: seq<set<Hit>>, limit: nat) {
    && |answers| == |pools|
    && (forall i | 0 <= i < |pools| :: Answers(answers[i], pools[i], limit))
    && (forall i, j, a, b |
          0 <= i < |pools| && 0 <= j < |pools| && a in pools[i] && b in pools[j] && a.chunk == b.chunk ::
          i == j && a == b)
  }

  lemma {:induction false} InFlatten(answers: seq<seq<Hit>>, h: Hit)
    ensures h in Flatten(answers) <==> exists i | 0 <= i < |answers| :: h in answers[i]
  {
    if answers != [] {
      InFlatten(answers[1..], h);
      if h in Flatten(answers[1..]) {
        var i :| 0 <= i < |answers| - 1 && h in answers[1..][i];
        assert h in answers[i + 1];
      }
      if i :| 0 < i < |answers| && h in answers[i] {
        assert h in answers[1..][i - 1];
      }
    }
  }

  predicate Distinct(hits: seq<Hit>) {
    forall i, j | 0 <= i < j < |hits| :: hits[i] != hits[j]
  }

  lemma {:induction false} FlattenDistinct(answers: seq<seq<Hit>>, pools: seq<set<Hit>>, limit: nat)
    requires Searched(answers, pools, limit)
    ensures Distinct(Flatten(answers))
  {
    if answers != [] {
      var first, rest := answers[0], Flatten(answers[1..]);
      SearchedTail(answers, pools, limit);
      FlattenDistinct(answers[1..], pools[1..], limit);
      assert Answers(first, pools[0], limit);
      forall h | h in first
        ensures h !in rest
      {
        InFlatten(answers[1..], h);
        OneProject(answers, pools, limit, h);
      }
      DistinctTogether(first, rest);
    }
  }

  lemma DistinctTogether(a: seq<Hit>, b: seq<Hit>)
    requires Distinct(a) && Distinct(b) && forall h | h in a :: h !in b
    ensures Distinct(a + b)
  {
    var all := a + b;
    forall i, j | 0 <= i < j < |all|
      ensures all[i] != all[j]
    {
      if i < |a| <= j {
        assert all[i] in a && all[j] in b;
      }
    }
  }

  // A hit of the first project is in no other answer.
  lemma OneProject(answers: seq<seq<Hit>>, pools: seq<set<Hit>>, limit: nat, h: Hit)
    requires Searched(answers, pools, limit) && answers != [] && h in answers[0]
    ensures forall i | 0 <= i < |answers| - 1 :: h !in answers[1..][i]
  {
    assert Answers(answers[0], pools[0], limit);
    forall i | 0 <= i < |answers| - 1
      ensures h !in answers[1..][i]
    {
      assert Answers(answers[i + 1], pools[i + 1], limit);
      assert h in pools[0];
      assert h in pools[i + 1] ==> i + 1 == 0;
    }
  }

  lemma SearchedTail(answers: seq<seq<Hit>>, pools: seq<set<Hit>>, limit: nat)
    requires Searched(answers, pools, limit) && answers != []
    ensures Searched(answers[1..], pools[1..], limit)
  {
    var a', p' := answers[1..], pools[1..];
    assert forall i | 0 <= i < |p'| :: p'[i] == pools[i + 1] && a'[i] == answers[i + 1];
  }

  // The elements of the sorted hits, and where a hit that is not in the result stands.

  lemma SortKeepsMembers(hits: seq<Hit>, h: Hit)
    ensures h in Sort(hits) <==> h in hits
  {
    SortSorts(hits);
    assert h in multiset(Sort(hits)) <==> h in multiset(hits);
  }

  lemma CutComesLater(hits: seq<Hit>, limit: nat, h: Hit)
    requires Sorted(hits) && h in hits && h !in Truncate(hits, limit)
    ensures |Truncate(hits, limit)| == limit && forall r | r in Truncate(hits, limit) :: Before(r, h)
  {
    var k :| 0 <= k < |hits| && hits[k] == h;
    var kept := Truncate(hits, limit);
    assert forall j | 0 <= j < |kept| :: kept[j] == hits[j] && kept[j] in kept;
  }

  function Members(hits: seq<Hit>): set<Hit> {
    set h | h in hits
  }

  lemma {:induction false} MembersOfDistinct(hits: seq<Hit>)
    requires Distinct(hits)
    ensures |Members(hits)| == |hits|
  {
    if hits != [] {
      MembersOfDistinct(hits[1..]);
      assert Members(hits) == Members(hits[1..]) + {hits[0]};
      assert hits[0] !in hits[1..];
    }
  }

  lemma {:induction false} MembersAtMost(hits: seq<Hit>)
    ensures |Members(hits)| <= |hits|
  {
    if hits != [] {
      MembersAtMost(hits[1..]);
      assert Members(hits) == Members(hits[1..]) + {hits[0]};
    } else {
      assert Members(hits) == {};
    }
  }

  // A whole answer of `limit` hits in the result is the result.
  lemma AllOfTheResult(answer: seq<Hit>, result: seq<Hit>)
    requires Distinct(answer) && |answer| >= |result| && forall k | k in answer :: k in result
    ensures forall r | r in result :: r in answer
  {
    MembersOfDistinct(answer);
    MembersAtMost(result);
    assert Members(answer) <= Members(result);
    Larger(Members(answer), Members(result));
    assert forall r | r in result :: r in Members(result);
  }

  lemma Larger(a: set<Hit>, b: set<Hit>)
    requires a <= b && |a| >= |b|
    ensures a == b
  {
    if x :| x in b && x !in a {
      assert a <= b - {x};
      Smaller(a, b - {x});
    }
  }

  lemma {:induction false} Smaller(a: set<Hit>, b: set<Hit>)
    requires a <= b
    ensures |a| <= |b|
    decreases a
  {
    if x :| x in a {
      Smaller(a - {x}, b - {x});
    }
  }

  // A hit its project cut is behind every hit of the result by score, whatever its news flag.
  lemma CutByItsProject(answers: seq<seq<Hit>>, pools: seq<set<Hit>>, limit: nat, i: nat, h: Hit)
    requires Searched(answers, pools, limit) && i < |pools| && h in pools[i] && h !in answers[i]
    ensures |Merge(answers, limit)| == limit
    ensures forall r | r in Merge(answers, limit) ::
      r in answers[i] || exists k | k in answers[i] :: Before(r, k)
  {
    var result := Merge(answers, limit);
    var sorted := Sort(Flatten(answers));
    SortSorts(Flatten(answers));
    assert Answers(answers[i], pools[i], limit);
    forall k | k in answers[i]
      ensures k in sorted
    {
      InFlatten(answers, k);
      SortKeepsMembers(Flatten(answers), k);
    }
    if k :| k in answers[i] && k !in result {
      CutComesLater(sorted, limit, k);
    } else {
      if |result| < limit {
        assert result == sorted;
      }
      AllOfTheResult(answers[i], result);
      MembersOfDistinct(answers[i]);
      MembersAtMost(result);
      assert Members(answers[i]) <= Members(result);
      Smaller(Members(answers[i]), Members(result));
    }
  }

  /** The result is the best by score of everything the projects hold, not of their answers alone. */
  lemma BestByScore(answers: seq<seq<Hit>>, pools: seq<set<Hit>>, limit: nat, i: nat, h: Hit)
    requires Searched(answers, pools, limit) && i < |pools| && h in pools[i] && h !in Merge(answers, limit)
    ensures |Merge(answers, limit)| == limit && forall r | r in Merge(answers, limit) :: r.score >= h.score
  {
    assert Answers(answers[i], pools[i], limit);
    if h in answers[i] {
      SortSorts(Flatten(answers));
      InFlatten(answers, h);
      SortKeepsMembers(Flatten(answers), h);
      CutComesLater(Sort(Flatten(answers)), limit, h);
    } else {
      CutByItsProject(answers, pools, limit, i, h);
    }
  }

  /** Every hit of the result is of some project, and the result is in the merge's order without repeats. */
  lemma ResultIsOfTheProjects(answers: seq<seq<Hit>>, pools: seq<set<Hit>>, limit: nat)
    requires Searched(answers, pools, limit)
    ensures Sorted(Merge(answers, limit)) && Distinct(Merge(answers, limit)) && |Merge(answers, limit)| <= limit
    ensures forall r | r in Merge(answers, limit) :: exists i | 0 <= i < |pools| :: r in pools[i]
  {
    var flat := Flatten(answers);
    SortSorts(flat);
    FlattenDistinct(answers, pools, limit);
    SortedDistinct(flat);
    forall r | r in Merge(answers, limit)
      ensures exists i | 0 <= i < |pools| :: r in pools[i]
    {
      assert r in Sort(flat);
      SortKeepsMembers(flat, r);
      InFlatten(answers, r);
      var i :| 0 <= i < |answers| && r in answers[i];
      assert Answers(answers[i], pools[i], limit);
    }
  }

  lemma SortedDistinct(hits: seq<Hit>)
    requires Distinct(hits)
    ensures Distinct(Sort(hits))
  {
    SortSorts(hits);
    var sorted := Sort(hits);
    assert multiset(sorted) == multiset(hits);
    MembersOfDistinct(hits);
    assert Members(sorted) == Members(hits) by {
      forall h
        ensures h in Members(sorted) <==> h in Members(hits)
      {
        SortKeepsMembers(hits, h);
      }
    }
    assert |sorted| == |multiset(sorted)| == |multiset(hits)| == |hits|;
    AsManyMembers(sorted);
  }

  lemma {:induction false} AsManyMembers(hits: seq<Hit>)
    requires |Members(hits)| == |hits|
    ensures Distinct(hits)
  {
    if hits != [] {
      var rest := hits[1..];
      assert Members(hits) == Members(rest) + {hits[0]};
      MembersAtMost(rest);
      assert hits[0] !in rest;
      AsManyMembers(rest);
    }
  }

  /** The result is also the best in the merge's own order: nothing left out comes before anything in it. */
  ghost predicate IsBest(result: seq<Hit>, pools: seq<set<Hit>>) {
    forall i, h, r | 0 <= i < |pools| && h in pools[i] && h !in result && r in result :: Before(r, h)
  }

  function AllOf(pools: seq<set<Hit>>): set<Hit> {
    set i, h | 0 <= i < |pools| && h in pools[i] :: h
  }

  /** The passages that stand before one in the merge's order. */
  function Ahead(all: set<Hit>, h: Hit): set<Hit> {
    set g | g in all && g != h && Before(g, h)
  }

  /** The passages of a project that stand before one in the project's own order. */
  function AheadInProject(pool: set<Hit>, h: Hit): set<Hit> {
    set g | g in pool && g != h && BeforeInProject(g, h)
  }

  /** A passage belongs to the best of all projects, but its own project has enough that it puts before it. */
  ghost predicate Missed(pools: seq<set<Hit>>, limit: nat) {
    exists i, h | 0 <= i < |pools| && h in pools[i] ::
      |Ahead(AllOf(pools), h)| < limit <= |AheadInProject(pools[i], h)|
  }

  // A project cuts a passage exactly when as many as the limit stand before it there.
  lemma CutExactly(answer: seq<Hit>, pool: set<Hit>, limit: nat, h: Hit)
    requires Answers(answer, pool, limit) && h in pool
    requires forall a, b | a in pool && b in pool && a.chunk == b.chunk :: a == b
    ensures h !in answer <==> |AheadInProject(pool, h)| >= limit
  {
    MembersOfDistinct(answer);
    if h !in answer {
      Smaller(Members(answer), AheadInProject(pool, h));
    } else {
      forall g | g in AheadInProject(pool, h)
        ensures g in Members(answer) - {h}
      {
        assert g !in answer ==> BeforeInProject(h, g);
      }
      Smaller(AheadInProject(pool, h), Members(answer) - {h});
    }
  }

  lemma InOnePool(answers: seq<seq<Hit>>, pools: seq<set<Hit>>, limit: nat, i: nat, h: Hit)
    requires Searched(answers, pools, limit) && i < |pools| && h in pools[i]
    ensures h !in answers[i] <==> |AheadInProject(pools[i], h)| >= limit
    ensures h !in answers[i] ==> h !in Merge(answers, limit)
  {
    CutExactly(answers[i], pools[i], limit, h);
    if h !in answers[i] && h in Merge(answers, limit) {
      SortKeepsMembers(Flatten(answers), h);
      InFlatten(answers, h);
    }
  }

  // A passage that is left out though its project answered it stands behind the whole result.
  lemma AnsweredComesLater(answers: seq<seq<Hit>>, limit: nat, i: nat, h: Hit)
    requires i < |answers| && h in answers[i] && h !in Merge(answers, limit)
    ensures forall r | r in Merge(answers, limit) :: Before(r, h)
  {
    SortSorts(Flatten(answers));
    InFlatten(answers, h);
    SortKeepsMembers(Flatten(answers), h);
    CutComesLater(Sort(Flatten(answers)), limit, h);
  }

  // Nothing missed, a passage left out stands behind the whole result.
  lemma {:induction false} LeftOutComesLater(
    answers: seq<seq<Hit>>, pools: seq<set<Hit>>, limit: nat, i: nat, h: Hit, r: Hit)
    requires Searched(answers, pools, limit) && !Missed(pools, limit)
    requires i < |pools| && h in pools[i] && h !in Merge(answers, limit) && r in Merge(answers, limit)
    ensures Before(r, h)
    decreases |Ahead(AllOf(pools), h)|
  {
    if h in answers[i] {
      AnsweredComesLater(answers, limit, i, h);
    } else if !Before(r, h) {
      InOnePool(answers, pools, limit, i, h);
      var j, g := OneOutside(answers, pools, limit, h, r);
      FewerAhead(AllOf(pools), g, h);
      LeftOutComesLater(answers, pools, limit, j, g, r);
    }
  }

  // With as many as the limit before `h`, which stands before `r` of the result, one of them is left out.
  lemma OneOutside(answers: seq<seq<Hit>>, pools: seq<set<Hit>>, limit: nat, h: Hit, r: Hit)
    returns (j: nat, g: Hit)
    requires r in Merge(answers, limit) && !Before(r, h) && |Ahead(AllOf(pools), h)| >= limit
    ensures j < |pools| && g in pools[j] && g !in Merge(answers, limit) && g != h && Before(g, h) && !Before(r, g)
  {
    hide Merge;
    assert |Merge(answers, limit)| <= limit by { AtMostTheLimit(answers, limit); }
    g := Outside(Ahead(AllOf(pools), h), Merge(answers, limit), r);
    j :| 0 <= j < |pools| && g in pools[j];
  }

  lemma AtMostTheLimit(answers: seq<seq<Hit>>, limit: nat)
    ensures |Merge(answers, limit)| <= limit
  {}

  lemma Outside(ahead: set<Hit>, result: seq<Hit>, r: Hit) returns (g: Hit)
    requires |ahead| >= |result| && r in result && r !in ahead
    ensures g in ahead && g !in result
  {
    MembersAtMost(result);
    if ahead <= Members(result) {
      Smaller(ahead, Members(result) - {r});
    }
    g :| g in ahead && g !in Members(result);
  }

  lemma FewerAhead(all: set<Hit>, g: Hit, h: Hit)
    requires g in all && g != h && Before(g, h) && forall a, b | a in all && b in all && a.chunk == b.chunk :: a == b
    requires h in all
    ensures |Ahead(all, g)| < |Ahead(all, h)|
  {
    assert Ahead(all, g) <= Ahead(all, h) - {g};
    Smaller(Ahead(all, g), Ahead(all, h) - {g});
  }

  /**
   The result is the best in the merge's order exactly when no project cuts, by its own order, a
   passage that fewer than `limit` of all the projects' passages stand before in the merge's.
   */
  lemma BestExactly(answers: seq<seq<Hit>>, pools: seq<set<Hit>>, limit: nat)
    requires Searched(answers, pools, limit)
    ensures IsBest(Merge(answers, limit), pools) <==> !Missed(pools, limit)
  {
    var result := Merge(answers, limit);
    if !Missed(pools, limit) {
      forall i, h, r | 0 <= i < |pools| && h in pools[i] && h !in result && r in result
        ensures Before(r, h)
      {
        LeftOutComesLater(answers, pools, limit, i, h, r);
      }
    } else {
      var i, h :| 0 <= i < |pools| && h in pools[i]
        && |Ahead(AllOf(pools), h)| < limit <= |AheadInProject(pools[i], h)|;
      MissedIsNotBest(answers, pools, limit, i, h);
    }
  }

  lemma MissedIsNotBest(answers: seq<seq<Hit>>, pools: seq<set<Hit>>, limit: nat, i: nat, h: Hit)
    requires Searched(answers, pools, limit) && i < |pools| && h in pools[i]
    requires |Ahead(AllOf(pools), h)| < limit <= |AheadInProject(pools[i], h)|
    ensures !IsBest(Merge(answers, limit), pools)
  {
    var result := Merge(answers, limit);
    InOnePool(answers, pools, limit, i, h);
    BestByScore(answers, pools, limit, i, h);
    ResultIsOfTheProjects(answers, pools, limit);
    MembersOfDistinct(result);
    if forall r | r in result :: Before(r, h) {
      forall r | r in Members(result)
        ensures r in Ahead(AllOf(pools), h)
      {}
      Smaller(Members(result), Ahead(AllOf(pools), h));
      assert false;
    }
  }

  /** Where no two passages of a project differ in being news, nothing is missed: the result is the best. */
  lemma NoNewsNoMiss(answers: seq<seq<Hit>>, pools: seq<set<Hit>>, limit: nat)
    requires Searched(answers, pools, limit)
    requires forall i, a, b | 0 <= i < |pools| && a in pools[i] && b in pools[i] :: a.news == b.news
    ensures IsBest(Merge(answers, limit), pools)
  {
    hide Searched, AheadInProject, Ahead, Merge, IsBest;
    forall i, h | 0 <= i < |pools| && h in pools[i]
      ensures |AheadInProject(pools[i], h)| <= |Ahead(AllOf(pools), h)|
    {
      NoMoreAhead(pools[i], AllOf(pools), h);
    }
    BestExactly(answers, pools, limit);
  }

  lemma NoMoreAhead(pool: set<Hit>, all: set<Hit>, h: Hit)
    requires pool <= all && h in pool && forall a, b | a in pool && b in pool :: a.news == b.news
    ensures |AheadInProject(pool, h)| <= |Ahead(all, h)|
  {
    assert AheadInProject(pool, h) <= Ahead(all, h);
    Smaller(AheadInProject(pool, h), Ahead(all, h));
  }

  /** Such a tie: a project's news passage is cut for a later one that is no news. */
  lemma TieHappens()
    ensures var kept, cut := Hit(2, 1.0, false), Hit(1, 1.0, true);
      Searched([[kept]], [{kept, cut}], 1) && !IsBest(Merge([[kept]], 1), [{kept, cut}])
  {
    var kept, cut := Hit(2, 1.0, false), Hit(1, 1.0, true);
    assert [[kept]][1..] == [] && [kept][1..] == [];
    assert Flatten([[kept]]) == [kept];
    assert Sort([kept]) == Insert(kept, Sort([]));
    assert Merge([[kept]], 1) == [kept];
    var pools := [{kept, cut}];
    assert cut in pools[0] && kept in [kept] && !Before(kept, cut);
    assert Answers([kept], pools[0], 1);
  }
}

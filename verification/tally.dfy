/**
 The gateway's activity tally: the calls of one caller on one Endpoint added up in a row, the rows
 taken out to be posted, at most ten thousand of them held between two posts.

 A call is noted and the rows are taken under one lock, so every run is a sequence of the two.
 */
module Tally {
  import opened Wrappers

  const MAX_KEYS := 10_000
  const U64_MAX := 0xffff_ffff_ffff_ffff
  const ANONYMOUS := "anonymous"

  datatype Kind = McpTool | RateLimited

  datatype Outcome = Answered | ToolError | Refused | Failed

  /** What one row counts the calls of. */
  datatype Call = Call(
    kind: Kind, project: string, space: string, endpoint: string, caller: string, tool: string, outcome: Outcome)

  /** The calls since the last post, and the moment of the first of them. */
  datatype Held = Held(count: nat, first: int)

  type Rows = map<Call, Held>

  // ----- one call

  /** A name a tool could have: 1 to 64 lower-case letters, digits, `_` and `-`. */
  predicate IsToolName(tool: string) {
    1 <= |tool| <= 64 && forall c | c in tool :: 'a' <= c <= 'z' || '0' <= c <= '9' || c == '_' || c == '-'
  }

  function ToolName(tool: string): string {
    if IsToolName(tool) then tool else "unknown"
  }

  /** The call as its row names it; none on a space the last reload did not name. */
  function CallOf(
    names: map<string, string>, project: string, segment: string, endpoint: string, caller: string,
    tool: Option<string>, outcome: Outcome): Option<Call>
  {
    if segment !in names then None
    else
      match tool
      case None => Some(Call(RateLimited, project, names[segment], endpoint, caller, "", outcome))
      case Some(t) => Some(Call(McpTool, project, names[segment], endpoint, caller, ToolName(t), outcome))
  }

  /** What a caller sent as a tool's name reaches a row only as a name a tool could have. */
  lemma RowNamesATool(
    names: map<string, string>, project: string, segment: string, endpoint: string, caller: string,
    tool: Option<string>, outcome: Outcome)
    ensures match CallOf(names, project, segment, endpoint, caller, tool, outcome)
      case None => segment !in names
      case Some(call) =>
        && segment in names && call.space == names[segment]
        && (call.kind == McpTool <==> tool.Some?)
        && (call.kind == McpTool ==> IsToolName(call.tool))
        && (call.kind == RateLimited ==> call.tool == "")
        && (tool.Some? ==> call.tool == if NamesTool(tool.value) then tool.value else "unknown")
        && call.project == project && call.endpoint == endpoint && call.caller == caller && call.outcome == outcome
  {
    assert IsToolName("unknown");
  }

  /** At least one and at most 64 of ASCII's lower-case letters, digits, `_` and `-`. */
  predicate NamesTool(tool: string) {
    0 < |tool| < 65 && forall c | c in tool :: 97 <= c as int <= 122 || 48 <= c as int <= 57 || c as int in {95, 45}
  }

  // ----- a step of the tally

  datatype Step =
    | Note(call: Call, now: int)
    | Take(anonymousToo: bool)

  predicate Due(call: Call, anonymousToo: bool) {
    anonymousToo || call.caller != ANONYMOUS
  }

  function Added(rows: Rows, call: Call, now: int): Rows {
    if call in rows then
      rows[call := rows[call].(count := if rows[call].count < U64_MAX then rows[call].count + 1 else U64_MAX)]
    else if |rows| < MAX_KEYS then rows[call := Held(1, now)]
    else rows
  }

  function DueRows(rows: Rows, anonymousToo: bool): Rows {
    map call | call in rows && Due(call, anonymousToo) :: rows[call]
  }

  function NotDue(rows: Rows, anonymousToo: bool): Rows {
    map call | call in rows && !Due(call, anonymousToo) :: rows[call]
  }

  /** The rows held, the rows of every post so far, and the calls that reached none. */
  datatype State = State(
    rows: Rows,
    posts: seq<Rows>,
    dropped: multiset<Call>,          // new rows past the limit
    lost: multiset<Call>)             // calls past what a row can count

  const START := State(map[], [], multiset{}, multiset{})

  function After(s: State, step: Step): State {
    match step
    case Note(call, now) =>
      s.(rows := Added(s.rows, call, now),
         dropped := if call !in s.rows && |s.rows| >= MAX_KEYS then s.dropped + multiset{call} else s.dropped,
         lost := if call in s.rows && s.rows[call].count >= U64_MAX then s.lost + multiset{call} else s.lost)
    case Take(all) => s.(rows := NotDue(s.rows, all), posts := s.posts + [DueRows(s.rows, all)])
  }

  function Final(steps: seq<Step>): State {
    if steps == [] then START else After(Final(steps[..|steps| - 1]), steps[|steps| - 1])
  }

  // ----- no call is lost or counted twice

  /** How often the steps note the call. */
  function Noted(steps: seq<Step>, call: Call): nat {
    if steps == [] then 0
    else Noted(steps[..|steps| - 1], call) + if IsNoteOf(steps[|steps| - 1], call) then 1 else 0
  }

  predicate IsNoteOf(step: Step, call: Call) {
    step.Note? && step.call == call
  }

  function Count(rows: Rows, call: Call): nat {
    if call in rows then rows[call].count else 0
  }

  function Posted(posts: seq<Rows>, call: Call): nat {
    if posts == [] then 0 else Posted(posts[..|posts| - 1], call) + Count(posts[|posts| - 1], call)
  }

  /**
   Every row counts at least one call and no more than it can, and there are no more rows than the
   limit.
   */
  ghost predicate Bounded(rows: Rows) {
    |rows| <= MAX_KEYS && forall call | call in rows :: 1 <= rows[call].count <= U64_MAX
  }

  lemma AddedBounded(rows: Rows, call: Call, now: int)
    requires Bounded(rows)
    ensures Bounded(Added(rows, call, now))
  {
    if call in rows {
      assert Added(rows, call, now).Keys == rows.Keys;
      assert |Added(rows, call, now)| == |Added(rows, call, now).Keys|;
    }
  }

  lemma TakenBounded(rows: Rows, all: bool)
    requires Bounded(rows)
    ensures Bounded(NotDue(rows, all)) && Bounded(DueRows(rows, all))
  {
    FewerKeys(NotDue(rows, all), rows);
    FewerKeys(DueRows(rows, all), rows);
  }

  lemma FewerKeys(few: Rows, rows: Rows)
    requires few.Keys <= rows.Keys
    ensures |few| <= |rows|
  {
    var rest := rows.Keys - few.Keys;
    assert rows.Keys == few.Keys + rest;
    assert |rows.Keys| == |few.Keys| + |rest|;
    assert |rows| == |rows.Keys| && |few| == |few.Keys|;
  }

  lemma {:induction false} AlwaysBounded(steps: seq<Step>)
    ensures Bounded(Final(steps).rows) && |Final(steps).rows| <= 10_000
  {
    if steps != [] {
      AlwaysBounded(steps[..|steps| - 1]);
      var s := Final(steps[..|steps| - 1]);
      match steps[|steps| - 1]
      case Note(call, now) => AddedBounded(s.rows, call, now);
      case Take(all) => TakenBounded(s.rows, all);
    }
  }

  /**
   Every call noted is in exactly one place: in a post, in the row held, among the calls dropped as
   new rows past the limit, or among those past what a row can count.
   */
  lemma {:induction false} EveryCallOnce(steps: seq<Step>, call: Call)
    ensures var s := Final(steps);
      Noted(steps, call) == Posted(s.posts, call) + Count(s.rows, call) + s.dropped[call] + s.lost[call]
  {
    if steps != [] {
      var before, step := steps[..|steps| - 1], steps[|steps| - 1];
      EveryCallOnce(before, call);
      AlwaysBounded(before);
      StepMovesCalls(Final(before), step, call);
    }
  }

  function Accounted(s: State, call: Call): nat {
    Posted(s.posts, call) + Count(s.rows, call) + s.dropped[call] + s.lost[call]
  }

  lemma StepMovesCalls(s: State, step: Step, call: Call)
    requires Bounded(s.rows)
    ensures Accounted(After(s, step), call) == Accounted(s, call) + if IsNoteOf(step, call) then 1 else 0
  {
    match step
    case Note(c, now) =>
    case Take(all) =>
      var posts := s.posts + [DueRows(s.rows, all)];
      assert posts[..|posts| - 1] == s.posts;
  }

  /** The calls a run notes. */
  function Calls(steps: seq<Step>): set<Call> {
    set step | step in steps && step.Note? :: step.call
  }

  /** Nothing is dropped in a run whose calls fit the rows, and nothing is lost in one a row can count. */
  lemma {:induction false} NothingDropped(steps: seq<Step>)
    ensures Final(steps).rows.Keys <= Calls(steps)
    ensures |Calls(steps)| <= 10_000 ==> Final(steps).dropped == multiset{}
    ensures |steps| <= 18_446_744_073_709_551_615 ==> Final(steps).lost == multiset{}
  {
    if steps != [] {
      var before, step := steps[..|steps| - 1], steps[|steps| - 1];
      NothingDropped(before);
      assert steps == before + [step];
      assert Calls(steps) == Calls(before) + if step.Note? then {step.call} else {};
      Subset(Calls(before), Calls(steps));
      if step.Note? {
        if step.call !in Final(before).rows {
          NoRoomNeeded(Final(before).rows, step.call, Calls(steps));
        }
        NotedAtMost(before, step.call);
        EveryCallOnce(before, step.call);
      }
    }
  }

  lemma Subset(a: set<Call>, b: set<Call>)
    requires a <= b
    ensures |a| <= |b|
  {
    assert b == a + (b - a);
  }

  lemma NoRoomNeeded(rows: Rows, call: Call, calls: set<Call>)
    requires rows.Keys <= calls && call in calls && call !in rows
    ensures |rows| < |calls|
  {
    Subset(rows.Keys + {call}, calls);
    assert |rows| == |rows.Keys|;
  }

  lemma {:induction false} NotedAtMost(steps: seq<Step>, call: Call)
    ensures Noted(steps, call) <= |steps|
  {
    if steps != [] {
      NotedAtMost(steps[..|steps| - 1], call);
    }
  }

  /**
   A row held is what its calls made of it: it starts at the first call noted that found no row,
   and counts every call since; no post that took it came in between.
   */
  lemma {:induction false} RowIsItsCalls(steps: seq<Step>, call: Call) returns (i: nat)
    requires call in Final(steps).rows
    ensures var held := Final(steps).rows[call];
      && i < |steps| && steps[i] == Note(call, held.first) && call !in Final(steps[..i]).rows
      && (forall j | i < j < |steps| && steps[j].Take? :: !Due(call, steps[j].anonymousToo))
      && held.count == Capped(Noted(steps, call) - Noted(steps[..i], call))
  {
    hide Final, Noted;
    var n := |steps| - 1;
    LastStep(steps, call);
    var before, step := steps[..n], steps[n];
    RowStep(Final(before), step, call);
    if call in Final(before).rows {
      i := RowIsItsCalls(before, call);
      assert before[..i] == steps[..i];
      assert forall j | i < j < n :: steps[j] == before[j];
    } else {
      i := n;
    }
  }

  lemma LastStep(steps: seq<Step>, call: Call)
    requires call in Final(steps).rows
    ensures var n := |steps| - 1;
      && n >= 0 && Final(steps) == After(Final(steps[..n]), steps[n])
      && Noted(steps, call) == Noted(steps[..n], call) + if IsNoteOf(steps[n], call) then 1 else 0
  {
    hide After;
  }

  lemma RowStep(s: State, step: Step, call: Call)
    requires call in After(s, step).rows
    ensures var held := After(s, step).rows[call];
      if call in s.rows then
        && (step.Take? ==> !Due(call, step.anonymousToo))
        && held == Held(
             if IsNoteOf(step, call) then Capped(s.rows[call].count + 1) else s.rows[call].count, s.rows[call].first)
      else step == Note(call, held.first) && held.count == 1
  {}

  function Capped(n: int): int {
    if n < U64_MAX then n else U64_MAX
  }

  /** A post takes every due row as it is and leaves every other as it is; a full one leaves none. */
  lemma TakeParts(s: State, all: bool)
    ensures var s' := After(s, Take(all));
      var post := s'.posts[|s.posts|];
      && post.Keys !! s'.rows.Keys && post + s'.rows == s.rows
      && (forall call | call in s.rows :: call in post <==> all || call.caller != ANONYMOUS)
      && (all ==> s'.rows == map[])
  {
    var s' := After(s, Take(all));
    assert s'.posts[|s.posts|] == DueRows(s.rows, all);
  }

  // ----- the order of a post

  /** Whether `a` stands at or before `b` in the order of texts, character by character. */
  predicate TextUpTo(a: string, b: string) {
    a == "" || (b != "" && (a[0] < b[0] || (a[0] == b[0] && TextUpTo(a[1..], b[1..]))))
  }

  lemma {:induction false} TextTotal(a: string, b: string)
    ensures TextUpTo(a, b) || TextUpTo(b, a)
    ensures TextUpTo(a, b) && TextUpTo(b, a) ==> a == b
  {
    if a != "" && b != "" {
      TextTotal(a[1..], b[1..]);
      assert a == [a[0]] + a[1..] && b == [b[0]] + b[1..];
    }
  }

  lemma {:induction false} TextTransitive(a: string, b: string, c: string)
    requires TextUpTo(a, b) && TextUpTo(b, c)
    ensures TextUpTo(a, c)
  {
    if a != "" && a[0] == b[0] == c[0] {
      TextTransitive(a[1..], b[1..], c[1..]);
    }
  }

  /**
   A call's fields in the order they are compared; the kinds and the outcomes in the order they
   are declared.
   */
  function Fields(call: Call): (fields: seq<string>)
    ensures |fields| == 7
  {
    [if call.kind == McpTool then "0" else "1", call.project, call.space, call.endpoint, call.caller, call.tool,
     match call.outcome case Answered => "0" case ToolError => "1" case Refused => "2" case Failed => "3"]
  }

  lemma FieldsTell(a: Call, b: Call)
    requires Fields(a) == Fields(b)
    ensures a == b
  {
    var f, g := Fields(a), Fields(b);
    assert f[0] == g[0] && f[1] == g[1] && f[2] == g[2] && f[3] == g[3] && f[4] == g[4] && f[5] == g[5] && f[6] == g[6];
    assert f[0][0] == g[0][0] && f[6][0] == g[6][0];
  }

  predicate FieldsUpTo(a: seq<string>, b: seq<string>)
    requires |a| == |b|
  {
    a == [] || (if a[0] == b[0] then FieldsUpTo(a[1..], b[1..]) else TextUpTo(a[0], b[0]))
  }

  lemma {:induction false} FieldsTotal(a: seq<string>, b: seq<string>)
    requires |a| == |b|
    ensures FieldsUpTo(a, b) || FieldsUpTo(b, a)
    ensures FieldsUpTo(a, b) && FieldsUpTo(b, a) ==> a == b
  {
    hide TextUpTo;
    if a != [] {
      TextTotal(a[0], b[0]);
      FieldsTotal(a[1..], b[1..]);
      assert a == [a[0]] + a[1..] && b == [b[0]] + b[1..];
    }
  }

  lemma {:induction false} FieldsTransitive(a: seq<string>, b: seq<string>, c: seq<string>)
    requires |a| == |b| == |c| && FieldsUpTo(a, b) && FieldsUpTo(b, c)
    ensures FieldsUpTo(a, c)
  {
    hide TextUpTo;
    if a != [] {
      if a[0] == b[0] == c[0] {
        FieldsTransitive(a[1..], b[1..], c[1..]);
      } else {
        TextTotal(a[0], b[0]);
        if a[0] != b[0] && b[0] != c[0] {
          TextTransitive(a[0], b[0], c[0]);
        }
      }
    }
  }

  predicate UpTo(a: Call, b: Call) {
    FieldsUpTo(Fields(a), Fields(b))
  }

  /**
   A text stands at or before another exactly when it starts it, or has the earlier character
   where they first differ.
   */
  lemma {:induction false} TextUpToExactly(a: string, b: string)
    ensures TextUpTo(a, b) <==>
      a <= b || exists i: nat :: i < |a| && i < |b| && a[..i] == b[..i] && a[i] < b[i]
  {
    if a != "" && b != "" && a[0] == b[0] {
      TextUpToExactly(a[1..], b[1..]);
      assert a[1..] <= b[1..] <==> a <= b;
      if i: nat :| i < |a| && i < |b| && a[..i] == b[..i] && a[i] < b[i] {
        assert i > 0 && a[1..][..i - 1] == a[..i][1..] && b[1..][..i - 1] == b[..i][1..];
        assert a[1..][i - 1] < b[1..][i - 1];
      }
      if i: nat :| i < |a[1..]| && i < |b[1..]| && a[1..][..i] == b[1..][..i] && a[1..][i] < b[1..][i] {
        assert a[..i + 1] == [a[0]] + a[1..][..i] && b[..i + 1] == [b[0]] + b[1..][..i];
        assert a[i + 1] < b[i + 1];
      }
    } else if a != "" && b != "" {
      assert a[..0] == b[..0];
      forall i: nat | 0 < i < |a| && i < |b|
        ensures a[..i] != b[..i]
      {
        assert a[..i][0] == a[0] && b[..i][0] == b[0];
      }
    }
  }

  /**
   The rows' order: by kind, project, space, Endpoint, caller, tool and outcome, the first that
   differs deciding.
   */
  lemma RowsOrder(a: Call, b: Call)
    ensures UpTo(a, b) <==>
      if a.kind != b.kind then a.kind == McpTool
      else if a.project != b.project then TextUpTo(a.project, b.project)
      else if a.space != b.space then TextUpTo(a.space, b.space)
      else if a.endpoint != b.endpoint then TextUpTo(a.endpoint, b.endpoint)
      else if a.caller != b.caller then TextUpTo(a.caller, b.caller)
      else if a.tool != b.tool then TextUpTo(a.tool, b.tool)
      else Place(a.outcome) <= Place(b.outcome)
  {
    FieldsByOne(Fields(a), Fields(b));
    OutcomesInOrder(a.outcome, b.outcome);
    hide FieldsUpTo, TextUpTo;
  }

  function Place(outcome: Outcome): nat {
    match outcome case Answered => 0 case ToolError => 1 case Refused => 2 case Failed => 3
  }

  lemma OutcomesInOrder(a: Outcome, b: Outcome)
    ensures TextUpTo(Fields(Call(McpTool, "", "", "", "", "", a))[6], Fields(Call(McpTool, "", "", "", "", "", b))[6])
      <==> Place(a) <= Place(b)
    ensures TextUpTo("0", "1") && !TextUpTo("1", "0")
  {}

  lemma FieldsByOne(a: seq<string>, b: seq<string>)
    requires |a| == |b| == 7
    ensures FieldsUpTo(a, b) <==>
      if a[0] != b[0] then TextUpTo(a[0], b[0])
      else if a[1] != b[1] then TextUpTo(a[1], b[1])
      else if a[2] != b[2] then TextUpTo(a[2], b[2])
      else if a[3] != b[3] then TextUpTo(a[3], b[3])
      else if a[4] != b[4] then TextUpTo(a[4], b[4])
      else if a[5] != b[5] then TextUpTo(a[5], b[5])
      else TextUpTo(a[6], b[6])
  {
    FieldsStep(a, b);
    FieldsStep(a[1..], b[1..]);
    FieldsStep(a[2..], b[2..]);
    FieldsStep(a[3..], b[3..]);
    FieldsStep(a[4..], b[4..]);
    FieldsStep(a[5..], b[5..]);
    FieldsStep(a[6..], b[6..]);
    FieldsStep(a[7..], b[7..]);
    TextTotal(a[6], b[6]);
    Tails(a);
    Tails(b);
    hide FieldsUpTo, TextUpTo;
  }

  lemma Tails(a: seq<string>)
    requires |a| == 7
    ensures a[1..][1..] == a[2..] && a[2..][1..] == a[3..] && a[3..][1..] == a[4..] && a[4..][1..] == a[5..]
    ensures a[5..][1..] == a[6..] && a[6..][1..] == a[7..]
  {}

  lemma FieldsStep(a: seq<string>, b: seq<string>)
    requires |a| == |b|
    ensures FieldsUpTo(a, b) <==> a == [] || (if a[0] == b[0] then FieldsUpTo(a[1..], b[1..]) else TextUpTo(a[0], b[0]))
  {
    hide TextUpTo;
  }

  /** The calls are in one order: two of them are each up to the other only when they are the same. */
  lemma CallsInOneOrder(a: Call, b: Call, c: Call)
    ensures UpTo(a, b) || UpTo(b, a)
    ensures UpTo(a, b) && UpTo(b, a) ==> a == b
    ensures UpTo(a, b) && UpTo(b, c) ==> UpTo(a, c)
  {
    hide FieldsUpTo, Fields;
    FieldsTotal(Fields(a), Fields(b));
    if UpTo(a, b) && UpTo(b, a) {
      FieldsTell(a, b);
    }
    if UpTo(a, b) && UpTo(b, c) {
      FieldsTransitive(Fields(a), Fields(b), Fields(c));
    }
  }

  datatype Row = Row(call: Call, held: Held)

  predicate Sorted(taken: seq<Row>) {
    forall i, j | 0 <= i < j < |taken| :: taken[i].call != taken[j].call && UpTo(taken[i].call, taken[j].call)
  }

  /** `taken` is `rows`, every one once, in the order of their calls. */
  ghost predicate Lists(taken: seq<Row>, rows: Rows) {
    && Sorted(taken)
    && (forall row | row in taken :: row.call in rows && rows[row.call] == row.held)
    && (forall call | call in rows :: Row(call, rows[call]) in taken)
  }

  /** `taken` is `rows`, every one once, in any order. */
  ghost predicate Holds(taken: seq<Row>, rows: Rows) {
    && (forall i, j | 0 <= i < j < |taken| :: taken[i].call != taken[j].call)
    && (forall row | row in taken :: row.call in rows && rows[row.call] == row.held)
    && (forall call | call in rows :: Row(call, rows[call]) in taken)
  }

  lemma HoldsOneMore(taken: seq<Row>, rows: Rows, call: Call, held: Held)
    requires Holds(taken, rows) && call !in rows
    ensures Holds(taken + [Row(call, held)], rows[call := held])
  {
    assert forall i | 0 <= i < |taken| :: taken[i] in taken;
  }

  function Insert(row: Row, taken: seq<Row>): seq<Row> {
    if taken == [] || UpTo(row.call, taken[0].call) then [row] + taken else [taken[0]] + Insert(row, taken[1..])
  }

  function InOrder(taken: seq<Row>): seq<Row> {
    if taken == [] then [] else Insert(taken[0], InOrder(taken[1..]))
  }

  lemma {:induction false} OrderingHolds(taken: seq<Row>)
    ensures forall row :: row in InOrder(taken) <==> row in taken
  {
    if taken != [] {
      OrderingHolds(taken[1..]);
      InsertHolds(taken[0], InOrder(taken[1..]));
      hide Insert;
      assert taken == [taken[0]] + taken[1..];
    }
  }

  lemma {:induction false} OrderingSorts(taken: seq<Row>)
    requires forall i, j | 0 <= i < j < |taken| :: taken[i].call != taken[j].call
    ensures Sorted(InOrder(taken))
  {
    if taken != [] {
      var rest := taken[1..];
      assert forall i | 0 <= i < |rest| :: rest[i] == taken[i + 1];
      OrderingSorts(rest);
      OrderingHolds(rest);
      InsertSorts(taken[0], InOrder(rest));
      hide Insert, Sorted, UpTo;
    }
  }

  lemma OrderedLists(taken: seq<Row>, rows: Rows)
    requires Holds(taken, rows)
    ensures Lists(InOrder(taken), rows)
  {
    OrderingHolds(taken);
    OrderingSorts(taken);
    hide InOrder, Sorted;
  }

  lemma {:induction false} InsertHolds(row: Row, taken: seq<Row>)
    ensures forall r :: r in Insert(row, taken) <==> r == row || r in taken
  {
    hide UpTo;
    if taken != [] {
      InsertHolds(row, taken[1..]);
      assert taken == [taken[0]] + taken[1..];
    }
  }

  lemma {:induction false} InsertSorts(row: Row, taken: seq<Row>)
    requires Sorted(taken) && forall r | r in taken :: r.call != row.call
    ensures Sorted(Insert(row, taken))
  {
    hide UpTo;
    if taken == [] {
      assert Insert(row, taken) == [row];
    } else {
      InsertHolds(row, taken[1..]);
      CallsInOneOrder(row.call, taken[0].call, row.call);
      if UpTo(row.call, taken[0].call) {
        forall i | 0 < i < |taken|
          ensures UpTo(row.call, taken[i].call)
        {
          CallsInOneOrder(row.call, taken[0].call, taken[i].call);
        }
      } else {
        assert forall i | 0 <= i < |taken[1..]| :: taken[1..][i] == taken[i + 1];
        InsertSorts(row, taken[1..]);
        var rest := Insert(row, taken[1..]);
        forall i | 0 <= i < |rest|
          ensures taken[0].call != rest[i].call && UpTo(taken[0].call, rest[i].call)
        {
          assert rest[i] in rest;
          if rest[i] != row {
            var k := PlaceOf(rest[i], taken[1..]);
          }
        }
      }
    }
  }

  lemma PlaceOf(row: Row, taken: seq<Row>) returns (k: nat)
    requires row in taken
    ensures k < |taken| && taken[k] == row
  {
    k :| 0 <= k < |taken| && taken[k] == row;
  }

  /** A post is the rows' own: it does not depend on the order the tally keeps them in. */
  lemma {:induction false} OneListing(a: seq<Row>, b: seq<Row>, rows: Rows)
    requires Lists(a, rows) && Lists(b, rows)
    ensures a == b
    decreases |rows|
  {
    hide *;
    if a == [] {
      NothingListed(rows);
      if b != [] {
        FirstListed(b, rows);
      }
    } else {
      SameFirst(a, b, rows);
      Fewer(rows, a[0].call);
      Shorter(a, rows);
      Shorter(b, rows);
      OneListing(a[1..], b[1..], rows - {a[0].call});
      assert a == [a[0]] + a[1..] && b == [b[0]] + b[1..];
    }
  }

  lemma NothingListed(rows: Rows)
    requires Lists([], rows)
    ensures rows == map[]
  {
    hide Sorted;
  }

  lemma FirstListed(b: seq<Row>, rows: Rows)
    requires Lists(b, rows) && b != []
    ensures b[0].call in rows
  {
    hide Sorted;
    assert b[0] in b;
  }

  lemma Fewer(rows: Rows, call: Call)
    requires call in rows
    ensures |rows - {call}| < |rows|
  {
    var rest := rows - {call};
    assert rows.Keys == rest.Keys + {call};
    assert |rows.Keys| == |rest.Keys| + 1;
    assert |rows| == |rows.Keys| && |rest| == |rest.Keys|;
  }

  lemma SameFirst(a: seq<Row>, b: seq<Row>, rows: Rows)
    requires Lists(a, rows) && Lists(b, rows) && a != []
    ensures b != [] && a[0] == b[0] && a[0].call in rows
  {
    hide UpTo;
    assert a[0] in a && a[0] in b && b[0] in b && b[0] in a;
    var i :| 0 <= i < |b| && b[i] == a[0];
    var k :| 0 <= k < |a| && a[k] == b[0];
    if i > 0 && k > 0 {
      CallsInOneOrder(a[0].call, b[0].call, a[0].call);
    }
  }

  lemma Shorter(a: seq<Row>, rows: Rows)
    requires Lists(a, rows) && a != []
    ensures Lists(a[1..], rows - {a[0].call})
  {
    hide UpTo;
    var rest := rows - {a[0].call};
    forall row | row in a[1..]
      ensures row.call in rest && rest[row.call] == row.held
    {
      var i :| 0 <= i < |a[1..]| && a[1..][i] == row;
      assert a[i + 1] == row && a[i + 1] in a;
    }
    forall call | call in rest
      ensures Row(call, rest[call]) in a[1..]
    {
      var i :| 0 <= i < |a| && a[i] == Row(call, rows[call]);
      assert a[1..][i - 1] == a[i];
    }
  }

  // ----- the tally in place

  class Tally {
    var rows: Rows
    ghost var steps: seq<Step>

    ghost predicate Valid()
      reads this
    {
      rows == Final(steps).rows
    }

    constructor ()
      ensures Valid() && steps == []
    {
      rows, steps := map[], [];
    }

    /** Counts one call. */
    method Add(call: Call, now: int)
      requires Valid()
      modifies this
      ensures Valid() && steps == old(steps) + [Note(call, now)]
    {
      StepsOn(steps, Note(call, now));
      if call in rows {
        var held := rows[call];
        rows := rows[call := held.(count := if held.count < U64_MAX then held.count + 1 else U64_MAX)];
      } else if |rows| < MAX_KEYS {
        rows := rows[call := Held(1, now)];
      }
      steps := steps + [Note(call, now)];
    }

    /** Counts one call on the space of tenant `segment`. */
    method Record(
      names: map<string, string>, project: string, segment: string, endpoint: string, caller: string,
      tool: Option<string>, outcome: Outcome, now: int)
      requires Valid()
      modifies this
      ensures Valid()
      ensures match CallOf(names, project, segment, endpoint, caller, tool, outcome)
        case None => steps == old(steps)
        case Some(call) => steps == old(steps) + [Note(call, now)]
    {
      if segment !in names {
        return;
      }
      var call := Call(
        if tool.Some? then McpTool else RateLimited, project, names[segment], endpoint, caller,
        if tool.Some? then ToolName(tool.value) else "", outcome);
      Add(call, now);
    }

    /** Takes the due rows out, sorted. */
    method TakeDue(all: bool) returns (taken: seq<Row>)
      requires Valid()
      modifies this
      ensures Valid() && steps == old(steps) + [Take(all)]
      ensures Lists(taken, DueRows(old(rows), all))
    {
      hide Final, InOrder, Lists, DueRows, NotDue;
      StepsOn(steps, Take(all));
      taken, rows := Retain(rows, all);
      OrderedLists(taken, DueRows(old(rows), all));
      taken := InOrder(taken);
      steps := steps + [Take(all)];
    }
  }

  /** Goes over the rows in whatever order the map gives them: the due ones out, the others kept. */
  method Retain(rows: Rows, all: bool) returns (taken: seq<Row>, kept: Rows)
    ensures Holds(taken, DueRows(rows, all)) && kept == NotDue(rows, all)
  {
    hide Due, Holds;
    taken, kept := [], rows;
    ghost var due: Rows := map[];
    NoRowsHeld();
    var keys := rows.Keys;
    while keys != {}
      invariant keys <= rows.Keys
      invariant forall call :: call in kept <==> call in rows && (call in keys || !Due(call, all))
      invariant forall call :: call in due <==> call in rows && call !in keys && Due(call, all)
      invariant forall call | call in kept :: kept[call] == rows[call]
      invariant forall call | call in due :: due[call] == rows[call]
      invariant Holds(taken, due)
      decreases |keys|
    {
      var call :| call in keys;
      keys := keys - {call};
      if Due(call, all) {
        HoldsOneMore(taken, due, call, rows[call]);
        taken := taken + [Row(call, rows[call])];
        due := due[call := rows[call]];
        kept := kept - {call};
      }
    }
    assert due == DueRows(rows, all) && kept == NotDue(rows, all);
  }

  lemma NoRowsHeld()
    ensures Holds([], map[])
  {}

  lemma StepsOn(steps: seq<Step>, step: Step)
    ensures Final(steps + [step]) == After(Final(steps), step)
  {
    assert (steps + [step])[..|steps|] == steps;
  }
}

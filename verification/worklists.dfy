/**
 The two worklists of the repository's tools: the crates a change reaches through their dependents,
 and the symbols no entry point reaches.

 Both are proved against the same simple form: a node is reached when a path of edges leads to it
 from where the search starts. Sets are walked in any order.
 */
module Worklists {
  import opened Wrappers

  type Edges = map<string, set<string>>

  function Next(edges: Edges, x: string): set<string> {
    if x in edges then edges[x] else {}
  }

  // ----- the simple form

  ghost predicate Path(edges: Edges, p: seq<string>) {
    p != [] && forall i | 0 <= i < |p| - 1 :: p[i + 1] in Next(edges, p[i])
  }

  ghost predicate Reached(edges: Edges, starts: set<string>, x: string) {
    exists p :: Path(edges, p) && p[0] in starts && p[|p| - 1] == x
  }

  /** Whether a set has every start and, with a node, every node an edge leads to from it. */
  ghost predicate Closed(edges: Edges, starts: set<string>, nodes: set<string>) {
    starts <= nodes && forall x | x in nodes :: Next(edges, x) <= nodes
  }

  lemma StartIsReached(edges: Edges, starts: set<string>, x: string)
    requires x in starts
    ensures Reached(edges, starts, x)
  {
    assert Path(edges, [x]);
  }

  lemma NextIsReached(edges: Edges, starts: set<string>, x: string, y: string)
    requires Reached(edges, starts, x) && y in Next(edges, x)
    ensures Reached(edges, starts, y)
  {
    var p :| Path(edges, p) && p[0] in starts && p[|p| - 1] == x;
    assert Path(edges, p + [y]);
  }

  lemma {:induction false} PathStaysInside(edges: Edges, starts: set<string>, nodes: set<string>, p: seq<string>)
    requires Closed(edges, starts, nodes) && Path(edges, p) && p[0] in nodes
    ensures p[|p| - 1] in nodes
  {
    if |p| > 1 {
      assert p[1] in Next(edges, p[0]);
      assert Path(edges, p[1..]);
      PathStaysInside(edges, starts, nodes, p[1..]);
    }
  }

  /** A closed set of reached nodes is the set of all reached nodes, so it is the least closed one. */
  lemma ClosedAndReachedIsAll(edges: Edges, starts: set<string>, nodes: set<string>)
    requires Closed(edges, starts, nodes) && forall x | x in nodes :: Reached(edges, starts, x)
    ensures forall x :: x in nodes <==> Reached(edges, starts, x)
    ensures forall others | Closed(edges, starts, others) :: nodes <= others
  {
    forall x, others | Reached(edges, starts, x) && Closed(edges, starts, others)
      ensures x in others
    {
      var p :| Path(edges, p) && p[0] in starts && p[|p| - 1] == x;
      PathStaysInside(edges, starts, others, p);
    }
  }

  // ----- the crates a change reaches

  /** A dependency, and whether it is on a folder of the workspace. */
  datatype Dependency = Dependency(name: string, local: bool)

  /** A package of the workspace: its name, the folder its manifest is in, and what it depends on. */
  datatype Package = Package(name: string, folder: string, dependencies: seq<Dependency>)

  type Members = map<string, Package>

  /** The packages by name, a later one in the place of an earlier of its name. */
  function MembersOf(packages: seq<Package>): Members {
    if packages == [] then map[]
    else
      var last := packages[|packages| - 1];
      MembersOf(packages[..|packages| - 1])[last.name := last]
  }

  /** The names in the order they first come in. */
  function NamesOf(packages: seq<Package>): (names: seq<string>)
    ensures forall n :: n in names <==> n in MembersOf(packages)
  {
    if packages == [] then []
    else
      var before, name := NamesOf(packages[..|packages| - 1]), packages[|packages| - 1].name;
      if name in before then before else before + [name]
  }

  /** The package of each folder, the last one in the order of the names. */
  function ByFolder(members: Members, names: seq<string>): map<string, string>
    requires forall n | n in names :: n in members
  {
    if names == [] then map[]
    else
      var last := names[|names| - 1];
      ByFolder(members, names[..|names| - 1])[members[last].folder := last]
  }

  /**
   A folder names a package exactly when some package's manifest is in it, and then one whose
   manifest is.
   */
  lemma {:induction false} FolderNamesItsPackage(members: Members, names: seq<string>, folder: string)
    requires forall n | n in names :: n in members
    ensures folder in ByFolder(members, names) <==> exists n | n in names :: members[n].folder == folder
    ensures folder in ByFolder(members, names) ==>
      var n := ByFolder(members, names)[folder]; n in names && members[n].folder == folder
  {
    if names != [] {
      var before, last := names[..|names| - 1], names[|names| - 1];
      FolderNamesItsPackage(members, before, folder);
      assert names == before + [last];
      assert last in names;
    }
  }

  predicate DependsOn(members: Members, p: string, d: string) {
    p in members && d in members && d != p && Dependency(d, true) in members[p].dependencies
  }

  /** The dependents of every member. */
  function Dependents(members: Members): Edges {
    map d | d in members :: set p | p in members && DependsOn(members, p, d)
  }

  /** Turns a set into a list, in any order. */
  method Listed(nodes: set<string>) returns (list: seq<string>)
    ensures forall x :: x in list <==> x in nodes
  {
    list := [];
    var left := nodes;
    while left != {}
      invariant left <= nodes && forall x :: x in list <==> x in nodes && x !in left
    {
      var x :| x in left;
      list := list + [x];
      left := left - {x};
    }
  }

  /** The worklist: a node is followed the first time it comes off the stack, however often it is on it. */
  method Follow(dependents: Edges, starts: seq<string>) returns (seen: set<string>)
    requires forall x | x in starts :: x in dependents
    requires forall x | x in dependents :: dependents[x] <= dependents.Keys
    ensures forall x :: x in seen <==> Reached(dependents, Elements(starts), x)
    ensures forall others | Closed(dependents, Elements(starts), others) :: seen <= others
  {
    hide Path, Reached;
    var todo := starts;
    seen := {};
    forall x | x in starts
      ensures Reached(dependents, Elements(starts), x)
    {
      StartIsReached(dependents, Elements(starts), x);
    }
    while todo != []
      invariant seen <= dependents.Keys && forall x | x in todo :: x in dependents
      invariant forall x | x in seen || x in todo :: Reached(dependents, Elements(starts), x)
      invariant forall x | x in starts :: x in seen || x in todo
      invariant forall x, y | x in seen && y in Next(dependents, x) :: y in seen || y in todo
      decreases dependents.Keys - seen, |todo|
    {
      var name := todo[|todo| - 1];
      var rest := todo[..|todo| - 1];
      assert todo == rest + [name];
      if name !in seen {
        var more := Listed(dependents[name]);
        forall x | x in more
          ensures Reached(dependents, Elements(starts), x)
        {
          NextIsReached(dependents, Elements(starts), name, x);
        }
        seen := seen + {name};
        todo := rest + more;
      } else {
        todo := rest;
      }
    }
    assert Closed(dependents, Elements(starts), seen);
    ClosedAndReachedIsAll(dependents, Elements(starts), seen);
  }

  function Elements(list: seq<string>): set<string> {
    set x | x in list
  }

  /** The packages of the folders, in their order. */
  function StartsOf(byFolder: map<string, string>, folders: seq<string>): seq<string>
    requires forall f | f in folders :: f in byFolder
  {
    seq(|folders|, i requires 0 <= i < |folders| => byFolder[folders[i]])
  }

  /** Where a name first comes in. */
  function FirstAt(packages: seq<Package>, name: string): nat {
    if packages == [] || packages[0].name == name then 0 else 1 + FirstAt(packages[1..], name)
  }

  lemma {:induction false} FirstAtMore(packages: seq<Package>, last: Package, name: string)
    ensures FirstAt(packages + [last], name)
      == if FirstAt(packages, name) < |packages| || last.name == name then FirstAt(packages, name) else |packages| + 1
    ensures FirstAt(packages, name) <= |packages|
    ensures FirstAt(packages, name) < |packages| <==> name in MembersOf(packages)
  {
    LastOfItsName(packages, name);
    hide MembersOf;
    var all := packages + [last];
    if packages != [] {
      FirstAtMore(packages[1..], last, name);
      LastOfItsName(packages[1..], name);
      assert all[1..] == packages[1..] + [last];
      assert forall i | 0 < i < |packages| :: packages[i] == packages[1..][i - 1];
    } else {
      assert all[1..] == [];
    }
  }

  /** The names are in the order they first come in, each once. */
  lemma {:induction false} NamesAreInOrder(packages: seq<Package>)
    ensures var names := NamesOf(packages);
      forall i, j | 0 <= i < j < |names| :: FirstAt(packages, names[i]) < FirstAt(packages, names[j])
  {
    if packages != [] {
      var before, last := packages[..|packages| - 1], packages[|packages| - 1];
      NamesAreInOrder(before);
      assert packages == before + [last];
      var names := NamesOf(packages);
      forall n | n in names
        ensures FirstAt(packages, n) == FirstAt(before, n) && (n in NamesOf(before) ==> FirstAt(before, n) < |before|)
        ensures n !in NamesOf(before) ==> FirstAt(before, n) == |before|
      {
        FirstAtMore(before, last, n);
      }
      assert forall i | 0 <= i < |NamesOf(before)| :: NamesOf(before)[i] in NamesOf(before);
    }
  }

  /** Of the packages of one folder, the folder stands for the one whose name comes in last. */
  lemma FolderIsTheLast(packages: seq<Package>, folder: string, name: string)
    requires var members := MembersOf(packages); name in members && members[name].folder == folder
    requires forall n | n in MembersOf(packages) && n != name && MembersOf(packages)[n].folder == folder ::
      FirstAt(packages, n) < FirstAt(packages, name)
    ensures folder in ByFolder(MembersOf(packages), NamesOf(packages))
    ensures ByFolder(MembersOf(packages), NamesOf(packages))[folder] == name
  {
    var names := NamesOf(packages);
    var k :| 0 <= k < |names| && names[k] == name;
    forall j | k < j < |names|
      ensures names[j] in MembersOf(packages) && MembersOf(packages)[names[j]].folder != folder
    {
      assert names[j] in names;
      LaterName(packages, k, j);
    }
    LastInOrder(MembersOf(packages), names, folder, k);
  }

  lemma LaterName(packages: seq<Package>, i: int, j: int)
    requires 0 <= i < j < |NamesOf(packages)|
    ensures FirstAt(packages, NamesOf(packages)[i]) < FirstAt(packages, NamesOf(packages)[j])
  {
    NamesAreInOrder(packages);
    hide NamesOf, FirstAt;
  }

  lemma {:induction false} LastInOrder(members: Members, names: seq<string>, folder: string, k: nat)
    requires (forall n | n in names :: n in members) && k < |names| && members[names[k]].folder == folder
    requires forall j | k < j < |names| :: names[j] in members && members[names[j]].folder != folder
    ensures folder in ByFolder(members, names) && ByFolder(members, names)[folder] == names[k]
  {
    if k < |names| - 1 {
      LastInOrder(members, names[..|names| - 1], folder, k);
    }
  }

  /** The loop over the packages that finds the one of each folder. */
  method FindByFolder(members: Members, names: seq<string>) returns (byFolder: map<string, string>)
    requires forall n | n in names :: n in members
    ensures byFolder == ByFolder(members, names)
  {
    byFolder := map[];
    for i := 0 to |names|
      invariant byFolder == ByFolder(members, names[..i])
    {
      byFolder := byFolder[members[names[i]].folder := names[i]];
      assert names[..i + 1][..i] == names[..i];
    }
    assert names[..|names|] == names;
  }

  /** Whether a folder asked for is that of no package. */
  predicate Unknown(packages: seq<Package>, folder: string) {
    forall n | n in MembersOf(packages) :: MembersOf(packages)[n].folder != folder
  }

  /** The packages that the folders and their dependents make up; `None` stands for the whole workspace. */
  method Reach(packages: seq<Package>, folders: seq<string>) returns (reached: Option<set<string>>)
    ensures reached.None? <==> folders == [] || "all" in folders || exists f | f in folders :: Unknown(packages, f)
    ensures reached.Some? ==> forall f | f in folders :: f in ByFolder(MembersOf(packages), NamesOf(packages))
    ensures reached.Some? ==>
      var members := MembersOf(packages);
      var starts := Elements(StartsOf(ByFolder(members, NamesOf(packages)), folders));
      && (forall x :: x in reached.value <==> Reached(Dependents(members), starts, x))
      && (forall others | Closed(Dependents(members), starts, others) :: reached.value <= others)
  {
    if folders == [] || "all" in folders {
      return None;
    }
    var members := MembersOf(packages);
    var byFolder := FindByFolder(members, NamesOf(packages));
    forall f
      ensures f in byFolder <==> !Unknown(packages, f)
    {
      FolderNamesItsPackage(members, NamesOf(packages), f);
    }
    if exists f | f in folders :: f !in byFolder {
      return None;
    }
    StartsAreMembers(members, NamesOf(packages), folders);
    var seen := Follow(Dependents(members), StartsOf(byFolder, folders));
    return Some(seen);
  }

  lemma StartsAreMembers(members: Members, names: seq<string>, folders: seq<string>)
    requires forall n | n in names :: n in members
    requires forall f | f in folders :: f in ByFolder(members, names)
    ensures forall x | x in StartsOf(ByFolder(members, names), folders) :: x in members
    ensures forall i | 0 <= i < |folders| ::
      members[StartsOf(ByFolder(members, names), folders)[i]].folder == folders[i]
  {
    forall i | 0 <= i < |folders|
      ensures StartsOf(ByFolder(members, names), folders)[i] in members
      ensures members[StartsOf(ByFolder(members, names), folders)[i]].folder == folders[i]
    {
      assert folders[i] in folders;
      FolderNamesItsPackage(members, names, folders[i]);
    }
  }

  /**
   A list of packages in which each is another than the one before it and has it as a workspace
   dependency.
   */
  ghost predicate Chain(members: Members, p: seq<string>) {
    p != [] && forall i | 0 <= i < |p| - 1 :: Follows(members, p[i], p[i + 1])
  }

  predicate Follows(members: Members, dependency: string, dependent: string) {
    && dependency in members && dependent in members && dependent != dependency
    && exists d | d in members[dependent].dependencies :: d.name == dependency && d.local
  }

  lemma DependsIsFollows(members: Members, p: string, d: string)
    ensures DependsOn(members, p, d) <==> Follows(members, d, p)
  {
    if Follows(members, d, p) {
      var e :| e in members[p].dependencies && e.name == d && e.local;
      assert e == Dependency(d, true);
    }
  }

  /** The package of a name is the last one given of it. */
  lemma {:induction false} LastOfItsName(packages: seq<Package>, name: string)
    ensures name in MembersOf(packages) <==> exists i | 0 <= i < |packages| :: packages[i].name == name
    ensures forall i | 0 <= i < |packages| && packages[i].name == name
                       && (forall j | i < j < |packages| :: packages[j].name != name) ::
      name in MembersOf(packages) && MembersOf(packages)[name] == packages[i]
  {
    if packages != [] {
      var n := |packages| - 1;
      var before := packages[..n];
      LastOfItsName(before, name);
      assert forall i | 0 <= i < n :: packages[i] == before[i];
      assert packages[n].name == name ==> name in MembersOf(packages);
    }
  }

  /** What is reached is a start, or depends through a chain of workspace dependencies on one. */
  lemma ReachedDependsOnAStart(members: Members, starts: set<string>, x: string)
    requires starts <= members.Keys
    ensures Reached(Dependents(members), starts, x) <==>
      exists p :: Chain(members, p) && p[0] in starts && p[|p| - 1] == x
  {
    var edges := Dependents(members);
    forall d, p
      ensures p in Next(edges, d) <==> Follows(members, d, p)
    {
      DependsIsFollows(members, p, d);
    }
    hide Dependents, Follows, DependsOn, Next;
    if Reached(edges, starts, x) {
      var p :| Path(edges, p) && p[0] in starts && p[|p| - 1] == x;
      assert Chain(members, p);
    }
    forall p: seq<string> | Chain(members, p) && p[0] in starts && p[|p| - 1] == x
      ensures Reached(edges, starts, x)
    {
      assert Path(edges, p);
    }
  }

  // ----- the symbols nothing reaches

  datatype Kind = Struct | Enum | TypeAlias | Function | Other

  /**
   A symbol: `name` is the last part of its path; `owner` the type a trait is implemented for,
   without its arguments.
   */
  datatype Symbol = Symbol(kind: Kind, name: string, owner: Option<string>, production: bool, main: bool)

  predicate IsType(s: Symbol) {
    s.kind == Struct || s.kind == Enum || s.kind == TypeAlias
  }

  /** The symbols of the trait implementations for types of the name. */
  function ImplsOf(symbols: map<string, Symbol>, name: string): set<string> {
    set i | i in symbols && symbols[i].owner == Some(name)
  }

  /** What a symbol leads to: what it names, and for a type its trait implementations. */
  function Leads(symbols: map<string, Symbol>, out: Edges, x: string): set<string> {
    Next(out, x) + if x in symbols && IsType(symbols[x]) then ImplsOf(symbols, symbols[x].name) else {}
  }

  function AllLeads(symbols: map<string, Symbol>, out: Edges, universe: set<string>): Edges {
    map x | x in universe :: Leads(symbols, out, x)
  }

  function Targets(out: Edges): set<string> {
    set x, y | x in out && y in out[x] :: y
  }

  /** Symbols one after the other: each named by the one before, or a trait implementation for that type. */
  ghost predicate SymbolChain(symbols: map<string, Symbol>, out: Edges, p: seq<string>) {
    p != [] && forall i | 0 <= i < |p| - 1 :: LeadsTo(symbols, out, p[i], p[i + 1])
  }

  predicate LeadsTo(symbols: map<string, Symbol>, out: Edges, x: string, y: string) {
    || (x in out && y in out[x])
    || (&& x in symbols && y in symbols && symbols[y].owner == Some(symbols[x].name)
        && symbols[x].kind in {Struct, Enum, TypeAlias})
  }

  lemma LeadsAre(symbols: map<string, Symbol>, out: Edges, x: string, y: string)
    ensures y in Leads(symbols, out, x) <==> LeadsTo(symbols, out, x, y)
    ensures LeadsTo(symbols, out, x, y) ==> y in symbols.Keys + Targets(out)
  {}

  /** A symbol is reached exactly when such a chain leads to it from an entry. */
  lemma ReachedByAChain(symbols: map<string, Symbol>, out: Edges, entries: set<string>, x: string)
    requires entries <= symbols.Keys
    ensures Reached(AllLeads(symbols, out, symbols.Keys + Targets(out)), entries, x) <==>
      exists p :: SymbolChain(symbols, out, p) && p[0] in entries && p[|p| - 1] == x
  {
    var universe := symbols.Keys + Targets(out);
    var edges := AllLeads(symbols, out, universe);
    forall x, y
      ensures y in Next(edges, x) <==> x in universe && LeadsTo(symbols, out, x, y)
    {
      LeadsAre(symbols, out, x, y);
    }
    hide AllLeads, LeadsTo, Next;
    if Reached(edges, entries, x) {
      var p :| Path(edges, p) && p[0] in entries && p[|p| - 1] == x;
      assert SymbolChain(symbols, out, p);
    }
    forall p | SymbolChain(symbols, out, p) && p[0] in entries && p[|p| - 1] == x
      ensures Reached(edges, entries, x)
    {
      InsideUniverse(symbols, out, entries, p);
      assert Path(edges, p);
    }
  }

  lemma {:induction false} InsideUniverse(
    symbols: map<string, Symbol>, out: Edges, entries: set<string>, p: seq<string>)
    requires SymbolChain(symbols, out, p) && p[0] in entries && entries <= symbols.Keys
    ensures forall i | 0 <= i < |p| :: p[i] in symbols.Keys + Targets(out)
  {
    forall i | 0 <= i < |p|
      ensures p[i] in symbols.Keys + Targets(out)
    {
      if i > 0 {
        assert LeadsTo(symbols, out, p[i - 1], p[i - 1 + 1]);
        LeadsAre(symbols, out, p[i - 1], p[i]);
      }
    }
  }

  /** The production symbols that no entry reaches and that are no `main`. */
  method Unreachable(symbols: map<string, Symbol>, out: Edges, entries: set<string>) returns (rows: set<string>)
    requires entries <= symbols.Keys
    ensures var universe := symbols.Keys + Targets(out);
      forall i :: i in rows <==>
        i in symbols && symbols[i].production && !symbols[i].main
        && !Reached(AllLeads(symbols, out, universe), entries, i)
  {
    hide Path, Reached;
    ghost var universe := symbols.Keys + Targets(out);
    ghost var edges := AllLeads(symbols, out, universe);
    var seen := entries;
    var stack := Listed(entries);
    forall x | x in entries
      ensures Reached(edges, entries, x)
    {
      StartIsReached(edges, entries, x);
    }
    while stack != []
      invariant entries <= seen <= universe && forall x | x in stack :: x in seen
      invariant forall x | x in seen :: Reached(edges, entries, x)
      invariant forall x | x in seen && x !in stack :: Next(edges, x) <= seen
      decreases universe - seen, |stack|
    {
      var x := stack[|stack| - 1];
      var rest := stack[..|stack| - 1];
      assert stack == rest + [x];
      var found := Leads(symbols, out, x);
      assert found == Next(edges, x);
      assert found <= universe;
      forall y | y in found
        ensures Reached(edges, entries, y)
      {
        NextIsReached(edges, entries, x, y);
      }
      var more := Listed(found - seen);
      assert more != [] ==> more[0] in more;
      seen := seen + (found - seen);
      stack := rest + more;
    }
    assert Closed(edges, entries, seen);
    ClosedAndReachedIsAll(edges, entries, seen);
    rows := set i | i in symbols && i !in seen && symbols[i].production && !symbols[i].main;
  }
}

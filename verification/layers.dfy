/**
 The check that every edge between the workspace's crates follows the layers, and what a clean
 report means for the dependency graph.

 A package is its name and its dependencies; the report is the list of the findings, in the order
 the packages and dependencies are given.
 */
module Layers {
  datatype Layer = CoreBase | Core | Runtime | Service | Tool

  datatype Kind = Normal | Build | Dev

  datatype Dependency = Dependency(name: string, kind: Kind)

  datatype Package = Package(name: string, dependencies: seq<Dependency>)

  datatype Finding =
    | Unplaced(name: string)
    | CycleThroughDev(source: string, target: string)
    | OnItself(name: string, kind: Kind)
    | Forbidden(source: string, target: string, kind: Kind)
    | Stale(source: string, target: string)

  /** The layer of each crate. */
  const LAYER: map<string, Layer> := map[
    "jc-core" := CoreBase, "jc-manifest" := Core, "jc-dcat" := Core, "jc-ngsi-input" := Core,
    "jc-relationships" := Core, "jc-tabular" := Core, "wasm-host" := Runtime, "functions" := Runtime,
    "context-gateway" := Service, "assistant" := Service, "agent-proxy" := Service, "token-sidecar" := Service,
    "jcctl" := Tool, "camera-sim" := Tool, "jc-app-sdk" := Tool]

  /** What a crate of a layer may depend on. */
  function Allowed(layer: Layer): set<Layer> {
    match layer
    case CoreBase => {}
    case Core => {CoreBase}
    case Runtime => {CoreBase, Core}
    case Service => {CoreBase, Core, Runtime}
    case Tool => {CoreBase, Core}
  }

  const EXCEPTION := ("assistant", "agent-proxy")

  type Workspace = seq<Package>

  predicate IsMember(w: Workspace, name: string) {
    exists p | p in w :: p.name == name
  }

  /** An edge of the normal and build dependency graph. */
  predicate DependsOn(w: Workspace, source: string, target: string) {
    IsMember(w, target)
    && exists p | p in w :: p.name == source && exists d | d in p.dependencies :: d.name == target && d.kind != Dev
  }

  // ----- the check

  /** What is found about one dependency of a crate. */
  function FindingOf(w: Workspace, source: string, d: Dependency): seq<Finding> {
    if source !in LAYER || !IsMember(w, d.name) || d.name !in LAYER || (source, d.name) == EXCEPTION then []
    else if d.kind == Dev then
      if d.name == source || (LAYER[d.name] == Tool && !DependsOn(w, d.name, source)) then []
      else if DependsOn(w, d.name, source) then [CycleThroughDev(source, d.name)]
      else if LAYER[d.name] in Allowed(LAYER[source]) then []
      else [Forbidden(source, d.name, Dev)]
    else if d.name == source then [OnItself(source, d.kind)]
    else if LAYER[d.name] in Allowed(LAYER[source]) then []
    else [Forbidden(source, d.name, d.kind)]
  }

  /** Whether a finding is one of the workspace. */
  ghost predicate IsFinding(w: Workspace, f: Finding) {
    || (exists p | p in w :: p.name !in LAYER && f == Unplaced(p.name))
    || (exists p, d | p in w && d in p.dependencies :: f in FindingOf(w, p.name, d))
    || (f == Stale(EXCEPTION.0, EXCEPTION.1) && !DependsOn(w, EXCEPTION.0, EXCEPTION.1))
  }

  /** Every finding about the edges of one crate. */
  method EdgesOf(w: Workspace, p: Package) returns (out: seq<Finding>)
    ensures forall f :: f in out <==> exists d | d in p.dependencies :: f in FindingOf(w, p.name, d)
  {
    out := [];
    for i := 0 to |p.dependencies|
      invariant forall f :: f in out <==> exists j | 0 <= j < i :: f in FindingOf(w, p.name, p.dependencies[j])
    {
      out := out + FindingOf(w, p.name, p.dependencies[i]);
    }
  }

  /** The report: every finding, and nothing else. */
  method Violations(w: Workspace) returns (out: seq<Finding>)
    ensures forall f :: f in out <==> IsFinding(w, f)
  {
    hide FindingOf, DependsOn;
    out := [];
    for i := 0 to |w|
      invariant forall f :: f in out <==> exists j | 0 <= j < i :: w[j].name !in LAYER && f == Unplaced(w[j].name)
    {
      if w[i].name !in LAYER {
        out := out + [Unplaced(w[i].name)];
      }
    }
    ghost var unplaced := out;
    for i := 0 to |w|
      invariant forall f :: f in out <==>
        || f in unplaced
        || exists j, d | 0 <= j < i && d in w[j].dependencies :: f in FindingOf(w, w[j].name, d)
    {
      var edges := EdgesOf(w, w[i]);
      out := out + edges;
    }
    if !DependsOn(w, EXCEPTION.0, EXCEPTION.1) {
      out := out + [Stale(EXCEPTION.0, EXCEPTION.1)];
    }
  }

  /** The edges are those of the members' normal and build dependencies. */
  lemma EdgesAre(w: Workspace, source: string, target: string)
    ensures DependsOn(w, source, target) <==>
      && IsMember(w, target)
      && exists p | p in w && p.name == source ::
           Dependency(target, Normal) in p.dependencies || Dependency(target, Build) in p.dependencies
  {
    hide IsMember;
    if DependsOn(w, source, target) {
      var p :| p in w && p.name == source && exists d | d in p.dependencies :: d.name == target && d.kind != Dev;
      var d :| d in p.dependencies && d.name == target && d.kind != Dev;
      assert d == Dependency(target, Normal) || d == Dependency(target, Build);
    }
  }

  // ----- what is reported

  /** How far down a layer is; the tools stand apart from the runtime and the services. */
  function Level(layer: Layer): nat {
    match layer
    case CoreBase => 0
    case Core => 1
    case Runtime => 2
    case Service => 3
    case Tool => 4
  }

  /**
   A crate may depend on every layer below its own but the tools, and a tool on the two core
   layers only.
   */
  lemma AllowedIsBelow(source: Layer, target: Layer)
    ensures target in Allowed(source) <==>
      Level(target) < Level(source) && target != Tool && (source == Tool ==> Level(target) <= 1)
  {}

  /** Whether an edge between two placed crates follows the rule. */
  predicate Follows(source: string, target: string)
    requires source in LAYER && target in LAYER
  {
    var s, t := LAYER[source], LAYER[target];
    Level(t) < Level(s) && t != Tool && (s == Tool ==> Level(t) <= 1)
  }

  /** A dependency of a placed crate on a placed member of the workspace, apart from the known exception. */
  predicate Judged(w: Workspace, source: string, d: Dependency) {
    && source in LAYER && d.name in LAYER && IsMember(w, d.name)
    && !(source == "assistant" && d.name == "agent-proxy")
    && exists p | p in w && p.name == source :: d in p.dependencies
  }

  /** What the report says, finding by finding. */
  lemma ReportedExactly(w: Workspace, f: Finding)
    ensures IsFinding(w, f) <==>
      match f
      case Unplaced(name) => IsMember(w, name) && name !in LAYER
      case OnItself(name, kind) => kind != Dev && Judged(w, name, Dependency(name, kind))
      case CycleThroughDev(source, target) =>
        source != target && Judged(w, source, Dependency(target, Dev)) && DependsOn(w, target, source)
      case Forbidden(source, target, kind) =>
        && source != target && Judged(w, source, Dependency(target, kind)) && !Follows(source, target)
        && (kind == Dev ==> LAYER[target] != Tool && !DependsOn(w, target, source))
      case Stale(source, target) =>
        source == "assistant" && target == "agent-proxy" && !DependsOn(w, source, target)
  {
    hide LAYER, DependsOn, Follows, IsMember;
    FindingsOfAnEdge(w, f);
    assert f.Unplaced? ==> (IsMember(w, f.name) <==> exists p | p in w :: p.name == f.name) by { MemberIs(w, f); }
  }

  lemma MemberIs(w: Workspace, f: Finding)
    ensures f.Unplaced? ==> (IsMember(w, f.name) <==> exists p | p in w :: p.name == f.name)
  {}

  lemma FindingsOfAnEdge(w: Workspace, f: Finding)
    ensures (exists p, d | p in w && d in p.dependencies :: f in FindingOf(w, p.name, d)) <==>
      match f
      case Unplaced(_) => false
      case Stale(_, _) => false
      case OnItself(name, kind) => kind != Dev && Judged(w, name, Dependency(name, kind))
      case CycleThroughDev(source, target) =>
        source != target && Judged(w, source, Dependency(target, Dev)) && DependsOn(w, target, source)
      case Forbidden(source, target, kind) =>
        && source != target && Judged(w, source, Dependency(target, kind)) && !Follows(source, target)
        && (kind == Dev ==> LAYER[target] != Tool && !DependsOn(w, target, source))
  {
    hide LAYER, DependsOn, IsMember;
    forall p, d | p in w && d in p.dependencies
      ensures f in FindingOf(w, p.name, d) <==> IsOf(w, f, p.name, d)
    {
      OneEdge(w, f, p.name, d);
    }
    hide FindingOf, Follows;
  }

  /** Whether a finding is that of one dependency. */
  predicate IsOf(w: Workspace, f: Finding, source: string, d: Dependency) {
    && source in LAYER && d.name in LAYER && IsMember(w, d.name)
    && !(source == "assistant" && d.name == "agent-proxy")
    && match f
       case Unplaced(_) => false
       case Stale(_, _) => false
       case OnItself(name, kind) => name == source == d.name && kind == d.kind != Dev
       case CycleThroughDev(s, t) => s == source && t == d.name != s && d.kind == Dev && DependsOn(w, t, s)
       case Forbidden(s, t, kind) =>
         && s == source && t == d.name != s && kind == d.kind && !Follows(s, t)
         && (kind == Dev ==> LAYER[t] != Tool && !DependsOn(w, t, s))
  }

  lemma OneEdge(w: Workspace, f: Finding, source: string, d: Dependency)
    ensures f in FindingOf(w, source, d) <==> IsOf(w, f, source, d)
  {
    if source in LAYER && d.name in LAYER {
      AllowedIsBelow(LAYER[source], LAYER[d.name]);
    }
    hide LAYER, DependsOn, IsMember, Allowed;
  }

  // ----- what a clean report means

  ghost predicate Clean(w: Workspace) {
    forall f :: !IsFinding(w, f)
  }

  /** A place in one order of all the crates: every edge of a clean workspace leads down in it. */
  function Rank(name: string): int
    requires name in LAYER
  {
    if name == EXCEPTION.0 then 4
    else match LAYER[name]
      case CoreBase => 0
      case Core => 1
      case Runtime => 2
      case Service => 3
      case Tool => 2
  }

  lemma CleanEdge(w: Workspace, source: string, target: string)
    requires Clean(w) && DependsOn(w, source, target)
    ensures source in LAYER && target in LAYER
    ensures (source, target) == EXCEPTION || LAYER[target] in Allowed(LAYER[source])
    ensures Rank(target) < Rank(source)
  {
    var p :| p in w && p.name == source && exists d | d in p.dependencies :: d.name == target && d.kind != Dev;
    var d :| d in p.dependencies && d.name == target && d.kind != Dev;
    var q :| q in w && q.name == target;
    assert !IsFinding(w, Unplaced(source)) && !IsFinding(w, Unplaced(target));
    assert !IsFinding(w, Forbidden(source, target, d.kind)) && !IsFinding(w, OnItself(source, d.kind));
  }

  ghost predicate Path(w: Workspace, p: seq<string>) {
    |p| >= 2 && forall i | 0 <= i < |p| - 1 :: DependsOn(w, p[i], p[i + 1])
  }

  lemma {:induction false} PathsLeadDown(w: Workspace, p: seq<string>)
    requires Clean(w) && Path(w, p)
    ensures p[0] in LAYER && p[|p| - 1] in LAYER && Rank(p[|p| - 1]) < Rank(p[0])
  {
    hide IsFinding, DependsOn;
    CleanEdge(w, p[0], p[1]);
    if |p| > 2 {
      TailPath(w, p);
      PathsLeadDown(w, p[1..]);
    }
  }

  lemma TailPath(w: Workspace, p: seq<string>)
    requires Path(w, p) && |p| > 2
    ensures Path(w, p[1..])
  {
    var tail := p[1..];
    forall i | 0 <= i < |tail| - 1
      ensures DependsOn(w, tail[i], tail[i + 1])
    {
      assert DependsOn(w, p[i + 1], p[i + 2]);
    }
  }

  /**
   A workspace without findings has no cycle of normal and build dependencies, the known exception
   included.
   */
  lemma CleanIsAcyclic(w: Workspace, p: seq<string>)
    requires Clean(w) && Path(w, p)
    ensures p[0] != p[|p| - 1]
  {
    PathsLeadDown(w, p);
  }

  /** A dev-dependency on a crate that, directly or through others, depends back. */
  ghost predicate DependsBack(w: Workspace, source: string, target: string) {
    exists p :: Path(w, p) && p[0] == target && p[|p| - 1] == source
  }

  predicate DevDependsOn(w: Workspace, source: string, target: string) {
    IsMember(w, target)
    && exists p | p in w && p.name == source :: Dependency(target, Dev) in p.dependencies
  }

  /**
   The check looks for a direct dependency back only, which in a clean workspace leaves one way:
   from the base crate to a tool that reaches it through a crate of the core.
   */
  lemma DependsBackExactly(w: Workspace, source: string, target: string)
    requires Clean(w) && DevDependsOn(w, source, target) && source != target
    ensures DependsBack(w, source, target) <==>
      && source in LAYER && LAYER[source] == CoreBase && target in LAYER && LAYER[target] == Tool
      && exists c :: DependsOn(w, target, c) && DependsOn(w, c, source)
  {
    hide LAYER, IsFinding, DependsOn, DevDependsOn, Rank;
    if c :| DependsOn(w, target, c) && DependsOn(w, c, source) {
      assert Path(w, [target, c, source]);
    }
    if DependsBack(w, source, target) {
      var p :| Path(w, p) && p[0] == target && p[|p| - 1] == source;
      DevEdge(w, source, target);
      PathsLeadDown(w, p);
      if LAYER[target] == Tool {
        FromTool(w, p);
        NoException(target);
        assert DependsOn(w, p[0], p[1]);
        assert |p| == 3 && DependsOn(w, p[0], p[1]) && DependsOn(w, p[1], p[2]);
      } else {
        UpIsNotDown(source, target);
      }
    }
  }

  lemma UpIsNotDown(source: string, target: string)
    requires source in LAYER && target in LAYER
    requires (source, target) == EXCEPTION || LAYER[target] in Allowed(LAYER[source])
    ensures Rank(target) < Rank(source)
  {}

  // A tool reaches the core and, through it, the base crate; from there no edge leads on.
  lemma FromTool(w: Workspace, p: seq<string>)
    requires Clean(w) && Path(w, p) && p[0] in LAYER && LAYER[p[0]] == Tool
    ensures |p| == 2 || (|p| == 3 && p[2] in LAYER && LAYER[p[2]] == CoreBase)
  {
    NoException(p[0]);
    hide LAYER, IsFinding, DependsOn, Rank;
    CleanEdge(w, p[0], p[1]);
    if |p| > 2 {
      NoException(p[1]);
      CleanEdge(w, p[1], p[2]);
      if |p| > 3 {
        NoException(p[2]);
        CleanEdge(w, p[2], p[3]);
      }
    }
  }

  lemma NoException(name: string)
    ensures name in LAYER && LAYER[name] != Service ==> name != EXCEPTION.0 && name != EXCEPTION.1
  {}

  // What a clean workspace lets a dev-dependency on another crate be.
  lemma DevEdge(w: Workspace, source: string, target: string)
    requires Clean(w) && DevDependsOn(w, source, target) && source != target
    ensures source in LAYER && target in LAYER
    ensures (source, target) == EXCEPTION || LAYER[target] in Allowed(LAYER[source]) || LAYER[target] == Tool
    ensures (source, target) != EXCEPTION ==> !DependsOn(w, target, source)
  {
    var p :| p in w && p.name == source && Dependency(target, Dev) in p.dependencies;
    var q :| q in w && q.name == target;
    assert !IsFinding(w, Unplaced(source)) && !IsFinding(w, Unplaced(target));
    assert !IsFinding(w, Forbidden(source, target, Dev)) && !IsFinding(w, CycleThroughDev(source, target));
  }

  /** That way is open: the base crate tested with a tool, which depends on it through the core. */
  lemma DependsBackHappens()
    ensures Clean(EXAMPLE) && DevDependsOn(EXAMPLE, "jc-core", "jcctl") && DependsBack(EXAMPLE, "jc-core", "jcctl")
  {
    ExampleEdges();
    assert Path(EXAMPLE, ["jcctl", "jc-manifest", "jc-core"]);
    ExampleIsClean();
  }

  const BASE := Package("jc-core", [Dependency("jcctl", Dev)])
  const CORE := Package("jc-manifest", [Dependency("jc-core", Normal)])
  const TOOL := Package("jcctl", [Dependency("jc-manifest", Normal)])
  const FRONT := Package("assistant", [Dependency("agent-proxy", Normal)])
  const BACK := Package("agent-proxy", [])
  const EXAMPLE: Workspace := [BASE, CORE, TOOL, FRONT, BACK]

  lemma ExamplePackages()
    ensures BASE in EXAMPLE && CORE in EXAMPLE && TOOL in EXAMPLE && FRONT in EXAMPLE && BACK in EXAMPLE
    ensures forall p | p in EXAMPLE :: p in {BASE, CORE, TOOL, FRONT, BACK}
  {
    hide BASE, CORE, TOOL, FRONT, BACK;
    var w := EXAMPLE;
    assert w[0] == BASE && w[1] == CORE && w[2] == TOOL && w[3] == FRONT && w[4] == BACK;
  }

  lemma DirectEdge(w: Workspace, p: Package, d: Dependency, q: Package)
    requires p in w && q in w && d in p.dependencies && d.name == q.name
    ensures if d.kind == Dev then DevDependsOn(w, p.name, q.name) else DependsOn(w, p.name, q.name)
  {}

  lemma ExampleEdges()
    ensures DevDependsOn(EXAMPLE, "jc-core", "jcctl") && !DependsOn(EXAMPLE, "jcctl", "jc-core")
    ensures DependsOn(EXAMPLE, "jcctl", "jc-manifest") && DependsOn(EXAMPLE, "jc-manifest", "jc-core")
    ensures DependsOn(EXAMPLE, "assistant", "agent-proxy")
    ensures forall p | p in EXAMPLE :: p in {BASE, CORE, TOOL, FRONT, BACK} && IsMember(EXAMPLE, p.name)
  {
    ExamplePackages();
    NotDirect();
    hide EXAMPLE, DependsOn, DevDependsOn;
    DirectEdge(EXAMPLE, BASE, BASE.dependencies[0], TOOL);
    DirectEdge(EXAMPLE, CORE, CORE.dependencies[0], BASE);
    DirectEdge(EXAMPLE, TOOL, TOOL.dependencies[0], CORE);
    DirectEdge(EXAMPLE, FRONT, FRONT.dependencies[0], BACK);
  }

  lemma NotDirect()
    ensures !DependsOn(EXAMPLE, "jcctl", "jc-core")
  {
    ExamplePackages();
    hide EXAMPLE;
    assert forall d | d in TOOL.dependencies :: d == TOOL.dependencies[0];
  }

  lemma ExampleLayers()
    ensures {"jc-core", "jc-manifest", "jcctl", "assistant", "agent-proxy"} <= LAYER.Keys
    ensures LAYER["jc-core"] == CoreBase && LAYER["jc-manifest"] == Core && LAYER["jcctl"] == Tool
  {}

  lemma NoFinding(w: Workspace, source: string, d: Dependency)
    requires source in LAYER && d.name in LAYER && d.name != source
    requires || (source, d.name) == EXCEPTION
      || (d.kind == Dev && LAYER[d.name] == Tool && !DependsOn(w, d.name, source))
      || (d.kind != Dev && LAYER[d.name] in Allowed(LAYER[source]))
    ensures FindingOf(w, source, d) == []
  {
    hide LAYER, DependsOn, IsMember;
  }

  lemma ExampleIsClean()
    ensures Clean(EXAMPLE)
  {
    ExampleEdges();
    ExampleLayers();
    hide LAYER, DependsOn, IsMember, FindingOf;
    NoFinding(EXAMPLE, "jc-core", Dependency("jcctl", Dev));
    NoFinding(EXAMPLE, "jc-manifest", Dependency("jc-core", Normal));
    NoFinding(EXAMPLE, "jcctl", Dependency("jc-manifest", Normal));
    NoFinding(EXAMPLE, "assistant", Dependency("agent-proxy", Normal));
    hide EXAMPLE;
  }
}

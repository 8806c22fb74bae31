/**
 * The framework's State: the workloads added so far and the resources primed from their
 * declarations, with the operations that add a workload, prime the declared resources, order
 * the resources by their placeholder dependencies and look up resource outputs.
 */
module States {
  import opened Wrappers
  import opened Sorting
  import opened Types
  import opened ResourceUids
  import opened Substitution
  import opened ResourceStates
  import opened Primings
  import opened TopoSort

  /** The workload name WithWorkload files a spec under: metadata["name"] when it is a string. */
  function WorkloadName(spec: Workload): (r: Option<string>)
    ensures r.Some? <==> "name" in spec.metadata && spec.metadata["name"].Str?
    ensures r.Some? ==> spec.metadata["name"] == Str(r.value)
  {
    if "name" in spec.metadata && spec.metadata["name"].Str? then Some(spec.metadata["name"].s) else None
  }

  // ---------------------------------------------------------------------------------
  // Dependencies of a resource
  // ---------------------------------------------------------------------------------

  /** The resources of workload w, none when w is unknown. */
  function ResourcesOf<WX>(ws: map<string, WorkloadState<WX>>, w: string): map<string, Resource>
  {
    if w in ws then ws[w].spec.resources else map[]
  }

  /** The params of resource n of workload w as a tree; nil params and unknown resources are nil. */
  function ParamsOf<WX>(ws: map<string, WorkloadState<WX>>, w: string, n: string): Value
  {
    var rs := ResourcesOf(ws, w);
    if n in rs && rs[n].params.Some? then Obj(rs[n].params.value) else Null
  }

  /** A placeholder under resources: at least two parts, the first of them "resources". */
  predicate ResourceRef(ref: string)
  {
    |RefParts(ref)| > 1 && RefParts(ref)[0] == "resources"
  }

  /** The resource names the placeholders of v refer to under resources. */
  function ReferencedNames(v: Value): set<string>
  {
    set c | c in PlaceholderSetIn(v) && ResourceRef(c) :: RefParts(c)[1]
  }

  /** The callback getResourceDependencies substitutes with: it rejects unknown resource names. */
  function DependencyCallback(rs: map<string, Resource>): Callback
  {
    ref => if ResourceRef(ref) && RefParts(ref)[1] !in rs then
             Reply(ref, Some("refers to unknown resource names '" + RefParts(ref)[1] + "'"))
           else Reply(ref, None)
  }

  /** The uids of the resources names of workload w. */
  function UidsOfNames(w: string, rs: map<string, Resource>, names: set<string>): set<ResourceUid>
    requires names <= rs.Keys
  {
    set x | x in names :: DeclOf(w, x, rs[x]).uid
  }

  /**
   * getResourceDependencies: the uids of the resources of the same workload that the params'
   * placeholders refer to under resources; a name that is not a resource of the workload is an
   * error naming the workload and the resource.
   */
  function Dependencies<WX>(ws: map<string, WorkloadState<WX>>, w: string, n: string): (r: Result<set<ResourceUid>>)
    ensures r.Ok? <==> ReferencedNames(ParamsOf(ws, w, n)) <= ResourcesOf(ws, w).Keys
    ensures r.Ok? ==> r.value == UidsOfNames(w, ResourcesOf(ws, w), ReferencedNames(ParamsOf(ws, w, n)))
    ensures r.Err? ==> exists e :: r.error == "workload '" + w + "' resource '" + n + "': " + e
  {
    var rs := ResourcesOf(ws, w);
    var params := ParamsOf(ws, w, n);
    if params.Null? then
      assert ReferencedNames(params) == {};
      Ok({})
    else
      var s := Substitute(params, DependencyCallback(rs));
      if s.error.Some? then
        var c :| c in PlaceholderSetIn(params) && DependencyCallback(rs)(c).err.Some?;
        assert RefParts(c)[1] in ReferencedNames(params);
        Err("workload '" + w + "' resource '" + n + "': " + s.error.value)
      else
        assert forall x | x in ReferencedNames(params) :: x in rs;
        Ok(UidsOfNames(w, rs, ReferencedNames(params)))
  }

  /** Every dependency of a resource is the uid of a declared resource of the same workload. */
  lemma DependenciesDeclared<WX>(ws: map<string, WorkloadState<WX>>, w: string, n: string, u: ResourceUid)
    requires Dependencies(ws, w, n).Ok? && u in Dependencies(ws, w, n).value
    ensures exists x | x in ResourcesOf(ws, w) :: Declared(ws, DeclOf(w, x, ws[w].spec.resources[x])) && u == DeclOf(w, x, ws[w].spec.resources[x]).uid
  {
    var rs := ResourcesOf(ws, w);
    var x :| x in ReferencedNames(ParamsOf(ws, w, n)) && u == DeclOf(w, x, rs[x]).uid;
  }

  // ---------------------------------------------------------------------------------
  // The dependency graph GetSortedResourceUids sorts
  // ---------------------------------------------------------------------------------

  /** The dependencies of each declaration, as getResourceDependencies finds them. */
  function DepsOf<WX>(ws: map<string, WorkloadState<WX>>): Decl -> Result<set<ResourceUid>>
  {
    (d: Decl) => Dependencies(ws, d.workload, d.name)
  }

  /** The starting frontier (nodesWithNoIncomingEdges) and waiting nodes (incomingEdges). */
  datatype Graph = Graph(ready: set<ResourceUid>, incoming: Edges)

  /**
   * The gathering loop of GetSortedResourceUids run over the declarations seen, in that order:
   * a uid with no dependencies joins the frontier, otherwise its entry is set to them.
   */
  function Gather(deps: Decl -> Result<set<ResourceUid>>, seen: seq<Decl>): Graph
  {
    if |seen| == 0 then Graph({}, map[])
    else
      var g := Gather(deps, seen[..|seen| - 1]);
      var d := seen[|seen| - 1];
      if deps(d).Err? then g
      else if deps(d).value == {} then Graph(g.ready + {d.uid}, g.incoming)
      else Graph(g.ready, g.incoming[d.uid := deps(d).value])
  }

  /** The dependencies of every declaration resolve. */
  ghost predicate Resolvable(deps: Decl -> Result<set<ResourceUid>>, all: seq<Decl>)
  {
    forall d | d in all :: deps(d).Ok?
  }

  /** Every two declarations of one uid have the same dependencies. */
  ghost predicate Consistent(deps: Decl -> Result<set<ResourceUid>>, all: seq<Decl>)
  {
    forall a, b | a in all && b in all && a.uid == b.uid :: deps(a) == deps(b)
  }

  /** The uids of the declarations. */
  function UidsOf(all: seq<Decl>): set<ResourceUid>
  {
    set d | d in all :: d.uid
  }

  /** The declared uids that depend on nothing. */
  function ReadyOf(deps: Decl -> Result<set<ResourceUid>>, all: seq<Decl>): set<ResourceUid>
  {
    set d | d in all && deps(d) == Ok({}) :: d.uid
  }

  /** The declared uids that depend on something. */
  function WaitingOf(deps: Decl -> Result<set<ResourceUid>>, all: seq<Decl>): set<ResourceUid>
  {
    set d | d in all && deps(d).Ok? && deps(d).value != {} :: d.uid
  }

  /** The dependencies of a waiting uid, taken from one of its declarations. */
  ghost function DepsFor(deps: Decl -> Result<set<ResourceUid>>, all: seq<Decl>, u: ResourceUid): set<ResourceUid>
    requires u in WaitingOf(deps, all)
  {
    var d :| d in all && deps(d).Ok? && deps(d).value != {} && d.uid == u;
    deps(d).value
  }

  /** Each waiting uid with the uids it depends on. */
  ghost function EdgesOf(deps: Decl -> Result<set<ResourceUid>>, all: seq<Decl>): Edges
  {
    map u | u in WaitingOf(deps, all) :: DepsFor(deps, all, u)
  }

  lemma {:induction false} GatherReady(deps: Decl -> Result<set<ResourceUid>>, seen: seq<Decl>, u: ResourceUid)
    ensures u in Gather(deps, seen).ready <==> exists d | d in seen :: deps(d) == Ok({}) && d.uid == u
  {
    if |seen| > 0 {
      var init := seen[..|seen| - 1];
      GatherReady(deps, init, u);
      assert seen == init + [seen[|seen| - 1]];
      assert forall d :: d in seen <==> d in init || d == seen[|seen| - 1];
    }
  }

  lemma {:induction false} GatherWaiting(deps: Decl -> Result<set<ResourceUid>>, seen: seq<Decl>, u: ResourceUid)
    ensures u in Gather(deps, seen).incoming <==>
      exists d | d in seen :: deps(d).Ok? && deps(d).value != {} && d.uid == u
    ensures u in Gather(deps, seen).incoming ==>
      exists d | d in seen :: d.uid == u && deps(d) == Ok(Gather(deps, seen).incoming[u])
  {
    if |seen| > 0 {
      var init := seen[..|seen| - 1];
      GatherWaiting(deps, init, u);
      assert seen == init + [seen[|seen| - 1]];
      assert forall d :: d in seen <==> d in init || d == seen[|seen| - 1];
    }
  }

  /**
   * When the declarations of one uid agree on their dependencies, gathering every declaration
   * in any order gives the frontier ReadyOf and the edges EdgesOf.
   */
  lemma GatherSpec(deps: Decl -> Result<set<ResourceUid>>, all: seq<Decl>, seen: seq<Decl>)
    requires Consistent(deps, all) && forall d :: d in seen <==> d in all
    ensures Gather(deps, seen) == Graph(ReadyOf(deps, all), EdgesOf(deps, all))
  {
    var g := Gather(deps, seen);
    forall u ensures u in g.ready <==> u in ReadyOf(deps, all) {
      GatherReady(deps, seen, u);
    }
    forall u ensures u in g.incoming <==> u in WaitingOf(deps, all) {
      GatherWaiting(deps, seen, u);
    }
    forall u | u in g.incoming ensures g.incoming[u] == EdgesOf(deps, all)[u] {
      GatherWaiting(deps, seen, u);
      var d :| d in seen && d.uid == u && deps(d) == Ok(g.incoming[u]);
      var e :| e in all && deps(e).Ok? && deps(e).value != {} && e.uid == u && deps(e).value == DepsFor(deps, all, u);
    }
  }

  /** Every dependency of a declaration is the uid of a declaration. */
  ghost predicate Closed(deps: Decl -> Result<set<ResourceUid>>, all: seq<Decl>)
  {
    forall d, u | d in all && deps(d).Ok? && u in deps(d).value :: u in UidsOf(all)
  }

  /** The edges of a waiting uid are the dependencies of each of its declarations. */
  lemma EdgesOfDecl(deps: Decl -> Result<set<ResourceUid>>, all: seq<Decl>, d: Decl)
    requires Consistent(deps, all) && d in all && deps(d).Ok? && deps(d).value != {}
    ensures d.uid in EdgesOf(deps, all) && EdgesOf(deps, all)[d.uid] == deps(d).value
  {
    assert d.uid in WaitingOf(deps, all);
    var e :| e in all && deps(e).Ok? && deps(e).value != {} && e.uid == d.uid && deps(e).value == DepsFor(deps, all, d.uid);
  }

  /**
   * A consistent, resolvable and closed set of declarations gives a well-formed graph whose
   * nodes are exactly the declared uids.
   */
  lemma GraphWf(deps: Decl -> Result<set<ResourceUid>>, all: seq<Decl>)
    requires Consistent(deps, all) && Resolvable(deps, all) && Closed(deps, all)
    ensures Wf(ReadyOf(deps, all), EdgesOf(deps, all))
    ensures forall u :: u in ReadyOf(deps, all) || u in EdgesOf(deps, all) <==> u in UidsOf(all)
  {
    var ready, edges := ReadyOf(deps, all), EdgesOf(deps, all);
    forall u | u in edges ensures u !in ready && edges[u] != {} {
      var e :| e in all && deps(e).Ok? && deps(e).value != {} && e.uid == u && deps(e).value == DepsFor(deps, all, u);
    }
    forall u | u in UidsOf(all) ensures u in ready || u in edges {
      var d :| d in all && d.uid == u;
      if deps(d).value != {} {
        EdgesOfDecl(deps, all, d);
      }
    }
    forall t, x | t in edges && x in edges[t] ensures x in ready || x in edges {
      var e :| e in all && deps(e).Ok? && deps(e).value != {} && e.uid == t && deps(e).value == DepsFor(deps, all, t);
      assert x in UidsOf(all);
    }
  }

  /**
   * Sorting the graph of a consistent, resolvable and closed set of declarations lists every
   * declared uid exactly once and each after all of its dependencies, or fails with the cycle
   * error exactly when the waiting uids hold a cycle.
   */
  lemma GraphSort(deps: Decl -> Result<set<ResourceUid>>, all: seq<Decl>)
    requires Consistent(deps, all) && Resolvable(deps, all) && Closed(deps, all)
    ensures var s := Sort(ReadyOf(deps, all), EdgesOf(deps, all));
      s.Ok? ==> Distinct(s.value) && forall u :: u in s.value <==> u in UidsOf(all)
    ensures var s := Sort(ReadyOf(deps, all), EdgesOf(deps, all));
      s.Ok? ==> forall j, d, u | 0 <= j < |s.value| && d in all && d.uid == s.value[j] && deps(d).Ok? && u in deps(d).value ::
        u in s.value[..j]
    ensures var s := Sort(ReadyOf(deps, all), EdgesOf(deps, all));
      (s.Err? <==> exists c :: Cycle(EdgesOf(deps, all), c)) && (s.Err? ==> s.error == CycleError)
  {
    var ready, edges := ReadyOf(deps, all), EdgesOf(deps, all);
    GraphWf(deps, all);
    SortPerm(ready, edges);
    SortTopo(ready, edges);
    SortCycleIff(ready, edges);
    var s := Sort(ready, edges);
    if s.Ok? {
      forall j, d, u | 0 <= j < |s.value| && d in all && d.uid == s.value[j] && deps(d).Ok? && u in deps(d).value
        ensures u in s.value[..j]
      {
        EdgesOfDecl(deps, all, d);
      }
    }
  }

  // ---------------------------------------------------------------------------------
  // One uid declared with and without dependencies
  // ---------------------------------------------------------------------------------

  /**
   * As gathered, a uid declared once without and once with dependencies is both on the
   * frontier and waiting, so a successful sort lists it twice.
   */
  lemma SharedUidListedTwice(deps: Decl -> Result<set<ResourceUid>>, all: seq<Decl>, seen: seq<Decl>, a: Decl, b: Decl)
    requires forall d :: d in seen <==> d in all
    requires a in all && b in all && a.uid == b.uid
    requires deps(a) == Ok({}) && deps(b).Ok? && deps(b).value != {}
    ensures a.uid in Gather(deps, seen).ready && a.uid in Gather(deps, seen).incoming
    ensures var g := Gather(deps, seen);
      Sort(g.ready, g.incoming).Ok? ==> !Distinct(Sort(g.ready, g.incoming).value)
  {
    var g := Gather(deps, seen);
    GatherReady(deps, seen, a.uid);
    GatherWaiting(deps, seen, a.uid);
    if Sort(g.ready, g.incoming).Ok? {
      SortRepeats(g.ready, g.incoming, a.uid);
    }
  }

  /**
   * Of the declarations of one uid that have dependencies, the last one visited sets its
   * edges: each later one overwrites the entry of an earlier one.
   */
  lemma {:induction false} GatherLastWins(deps: Decl -> Result<set<ResourceUid>>, seen: seq<Decl>, j: nat)
    requires j < |seen| && deps(seen[j]).Ok? && deps(seen[j]).value != {}
    requires forall k | j < k < |seen| && seen[k].uid == seen[j].uid :: deps(seen[k]).Err? || deps(seen[k]).value == {}
    ensures seen[j].uid in Gather(deps, seen).incoming
    ensures Gather(deps, seen).incoming[seen[j].uid] == deps(seen[j]).value
    decreases |seen|
  {
    var init := seen[..|seen| - 1];
    if j < |seen| - 1 {
      assert init[j] == seen[j];
      assert forall k | j < k < |init| :: init[k] == seen[k];
      GatherLastWins(deps, init, j);
    }
  }

  /** The dependencies of all the declarations of u together. */
  ghost function MergedDeps(deps: Decl -> Result<set<ResourceUid>>, all: seq<Decl>, u: ResourceUid): set<ResourceUid>
  {
    set d, x | d in all && d.uid == u && deps(d).Ok? && x in deps(d).value :: x
  }

  /** Each uid with some dependencies, waiting for those of all its declarations. */
  ghost function MergedEdges(deps: Decl -> Result<set<ResourceUid>>, all: seq<Decl>): Edges
  {
    map u | u in WaitingOf(deps, all) :: MergedDeps(deps, all, u)
  }

  /** The uids none of whose declarations has dependencies. */
  function MergedReady(deps: Decl -> Result<set<ResourceUid>>, all: seq<Decl>): set<ResourceUid>
  {
    ReadyOf(deps, all) - WaitingOf(deps, all)
  }

  /** The merged graph of resolvable and closed declarations is well formed over the declared uids. */
  lemma MergedWf(deps: Decl -> Result<set<ResourceUid>>, all: seq<Decl>)
    requires Resolvable(deps, all) && Closed(deps, all)
    ensures Wf(MergedReady(deps, all), MergedEdges(deps, all))
    ensures forall u :: u in MergedReady(deps, all) || u in MergedEdges(deps, all) <==> u in UidsOf(all)
  {
    var ready, edges := MergedReady(deps, all), MergedEdges(deps, all);
    forall u | u in edges ensures u !in ready && edges[u] != {} {
      var e :| e in all && deps(e).Ok? && deps(e).value != {} && e.uid == u;
      var x :| x in deps(e).value;
      assert x in MergedDeps(deps, all, u);
    }
    forall u | u in UidsOf(all) ensures u in ready || u in edges {
      var d :| d in all && d.uid == u;
      assert deps(d).Ok?;
    }
    forall t, x | t in edges && x in edges[t] ensures x in ready || x in edges {
      var d :| d in all && d.uid == t && deps(d).Ok? && x in deps(d).value;
      assert x in UidsOf(all);
    }
  }

  /**
   * Sorting the merged graph of resolvable and closed declarations, consistent or not, lists
   * every declared uid exactly once and each after the dependencies of all its declarations,
   * or fails with the cycle error exactly when the merged edges hold a cycle.
   */
  lemma MergedSort(deps: Decl -> Result<set<ResourceUid>>, all: seq<Decl>)
    requires Resolvable(deps, all) && Closed(deps, all)
    ensures var s := Sort(MergedReady(deps, all), MergedEdges(deps, all));
      s.Ok? ==> Distinct(s.value) && forall u :: u in s.value <==> u in UidsOf(all)
    ensures var s := Sort(MergedReady(deps, all), MergedEdges(deps, all));
      s.Ok? ==> forall j, d, u | 0 <= j < |s.value| && d in all && d.uid == s.value[j] && deps(d).Ok? && u in deps(d).value ::
        u in s.value[..j]
    ensures var s := Sort(MergedReady(deps, all), MergedEdges(deps, all));
      (s.Err? <==> exists c :: Cycle(MergedEdges(deps, all), c)) && (s.Err? ==> s.error == CycleError)
  {
    var ready, edges := MergedReady(deps, all), MergedEdges(deps, all);
    MergedWf(deps, all);
    SortPerm(ready, edges);
    SortTopo(ready, edges);
    SortCycleIff(ready, edges);
    var s := Sort(ready, edges);
    if s.Ok? {
      MergedOrdered(deps, all, s.value);
    }
  }

  /** Ordered against the merged edges, every uid comes after the dependencies of each of its declarations. */
  lemma MergedOrdered(deps: Decl -> Result<set<ResourceUid>>, all: seq<Decl>, s: seq<ResourceUid>)
    requires Ordered(s, MergedEdges(deps, all))
    ensures forall j, d, u | 0 <= j < |s| && d in all && d.uid == s[j] && deps(d).Ok? && u in deps(d).value ::
      u in s[..j]
  {
    forall j, d, u | 0 <= j < |s| && d in all && d.uid == s[j] && deps(d).Ok? && u in deps(d).value
      ensures u in s[..j]
    {
      assert d.uid in WaitingOf(deps, all);
      assert u in MergedDeps(deps, all, d.uid);
    }
  }

  /** When the declarations of each uid agree, the merged graph is the gathered one. */
  lemma MergedConsistent(deps: Decl -> Result<set<ResourceUid>>, all: seq<Decl>)
    requires Consistent(deps, all)
    ensures MergedReady(deps, all) == ReadyOf(deps, all)
    ensures MergedEdges(deps, all) == EdgesOf(deps, all)
  {
    forall u | u in ReadyOf(deps, all) ensures u !in WaitingOf(deps, all) {
      var d :| d in all && deps(d) == Ok({}) && d.uid == u;
    }
    forall u | u in WaitingOf(deps, all) ensures MergedDeps(deps, all, u) == DepsFor(deps, all, u) {
      var e :| e in all && deps(e).Ok? && deps(e).value != {} && e.uid == u && deps(e).value == DepsFor(deps, all, u);
      forall x | x in MergedDeps(deps, all, u) ensures x in deps(e).value {
        var d :| d in all && d.uid == u && deps(d).Ok? && x in deps(d).value;
        assert deps(d) == deps(e);
      }
    }
  }

  /** Every dependency of a declared resource is a declared uid. */
  lemma DepsClosed<WX>(ws: map<string, WorkloadState<WX>>)
    ensures Closed(DepsOf(ws), Decls(ws))
  {
    forall d, u | d in Decls(ws) && DepsOf(ws)(d).Ok? && u in DepsOf(ws)(d).value ensures u in UidsOf(Decls(ws)) {
      DeclsComplete(ws, d);
      DependenciesDeclared(ws, d.workload, d.name, u);
      var rs := ws[d.workload].spec.resources;
      var x :| x in rs && Declared(ws, DeclOf(d.workload, x, rs[x])) && u == DeclOf(d.workload, x, rs[x]).uid;
      DeclsComplete(ws, DeclOf(d.workload, x, rs[x]));
    }
  }

  /**
   * The gathering loops of GetSortedResourceUids: every declaration, workloads and then their
   * resources in an unspecified order, goes to the frontier when deps gives it no dependencies
   * and to the edges otherwise; the first dependency error ends the gathering.
   */
  method GatherGraph<WX>(ws: map<string, WorkloadState<WX>>, deps: Decl -> Result<set<ResourceUid>>, ghost all: seq<Decl>)
    returns (r: Result<Graph>)
    requires forall d :: d in all <==> Declared(ws, d)
    ensures r.Ok? <==> Resolvable(deps, all)
    ensures r.Err? ==> exists d | d in all :: deps(d) == Err(r.error)
    ensures r.Ok? ==> exists seen: seq<Decl> :: (forall d :: d in seen <==> d in all) && r.value == Gather(deps, seen)
    ensures r.Ok? && Consistent(deps, all) ==> r.value == Graph(ReadyOf(deps, all), EdgesOf(deps, all))
  {
    var g := Graph({}, map[]);
    ghost var seen: seq<Decl> := [];
    var wtodo := ws.Keys;
    while wtodo != {}
      invariant wtodo <= ws.Keys
      invariant g == Gather(deps, seen)
      invariant forall d | d in seen :: Declared(ws, d) && deps(d).Ok? && d.workload !in wtodo
      invariant forall d | Declared(ws, d) && d.workload !in wtodo :: d in seen
      decreases |wtodo|
    {
      var w :| w in wtodo;
      var rs := ws[w].spec.resources;
      var rtodo := rs.Keys;
      while rtodo != {}
        invariant rtodo <= rs.Keys
        invariant g == Gather(deps, seen)
        invariant forall d | d in seen :: Declared(ws, d) && deps(d).Ok? && (d.workload !in wtodo || (d.workload == w && d.name !in rtodo))
        invariant forall d | Declared(ws, d) && (d.workload !in wtodo || (d.workload == w && d.name !in rtodo)) :: d in seen
        decreases |rtodo|
      {
        var n :| n in rtodo;
        var d := DeclOf(w, n, rs[n]);
        var ds := deps(d);
        if ds.Err? {
          return Err(ds.error);
        }
        assert (seen + [d])[..|seen|] == seen;
        if ds.value == {} {
          g := g.(ready := g.ready + {d.uid});
        } else {
          g := g.(incoming := g.incoming[d.uid := ds.value]);
        }
        seen := seen + [d];
        rtodo := rtodo - {n};
      }
      wtodo := wtodo - {w};
    }
    if Consistent(deps, all) {
      GatherSpec(deps, all, seen);
    }
    return Ok(g);
  }

  // ---------------------------------------------------------------------------------
  // The State container
  // ---------------------------------------------------------------------------------

  /**
   * State: the workloads by name, the resource states by uid, the shared state and the
   * implementation's extras. Its operations never write to the receiver: they return a new
   * State that shares what they do not change.
   */
  class State<SX, WX, RX> {
    var workloads: map<string, WorkloadState<WX>>
    var resources: map<ResourceUid, ResourceState<RX>>
    var sharedState: map<string, Value>
    var extras: SX

    constructor (workloads: map<string, WorkloadState<WX>>, resources: map<ResourceUid, ResourceState<RX>>,
                 sharedState: map<string, Value>, extras: SX)
      ensures this.workloads == workloads && this.resources == resources
      ensures this.sharedState == sharedState && this.extras == extras
    {
      this.workloads := workloads;
      this.resources := resources;
      this.sharedState := sharedState;
      this.extras := extras;
    }

    /**
     * WithWorkload: a copy with spec filed under its metadata name, replacing a workload of the
     * same name; a missing or non-string name is an error.
     */
    method WithWorkload(spec: Workload, file: Option<string>, workloadExtras: WX) returns (r: Result<State<SX, WX, RX>>)
      ensures WorkloadName(spec).None? ==> r == Err("metadata: name: is missing or is not a string")
      ensures WorkloadName(spec).Some? ==> var name := WorkloadName(spec).value;
        && r.Ok? && fresh(r.value)
        && r.value.workloads == workloads[name := WorkloadState(spec, file, workloadExtras)]
        && r.value.resources == resources && r.value.sharedState == sharedState && r.value.extras == extras
        && |r.value.workloads| == |workloads| + (if name in workloads then 0 else 1)
    {
      var name := WorkloadName(spec);
      if name.None? {
        return Err("metadata: name: is missing or is not a string");
      }
      var out := new State(workloads[name.value := WorkloadState(spec, file, workloadExtras)], resources, sharedState, extras);
      return Ok(out);
    }

    /**
     * WithPrimedResources: a copy whose resources are what priming every declaration, in
     * sorted workload and resource name order, makes of the current ones; the i-th new entry
     * takes guids(i) as its guid.
     */
    method WithPrimedResources(guids: nat -> string, zero: RX) returns (r: Result<State<SX, WX, RX>>)
      requires Primeable(workloads, resources.Keys)
      ensures var spec := PrimeAll(Priming(resources, {}, 0), Decls(workloads), guids, zero);
        && (r.Err? <==> spec.Err?)
        && (r.Err? ==> r.error == spec.error)
        && (r.Ok? ==>
              fresh(r.value) && r.value.resources == spec.value.resources
              && r.value.workloads == workloads && r.value.sharedState == sharedState && r.value.extras == extras)
    {
      DeclsPrimeable(workloads, resources.Keys);
      var names := SortedStringMapKeys(workloads);
      var q := PrimeWorkloads(Priming(resources, {}, 0), workloads, names, guids, zero);
      if q.Err? {
        return Err(q.error);
      }
      var p := q.value;
      var out := new State(workloads, p.resources, sharedState, extras);
      return Ok(out);
    }

    /**
     * GetSortedResourceUids: Kahn's algorithm over the declared resources. A dependency error
     * of some declaration is reported as is (Dependencies names the least failing params key,
     * where Go names whichever its map iteration reaches first); otherwise the result is sorting the gathered
     * graph, which for declarations agreeing on each uid's dependencies is the graph of
     * ReadyOf and EdgesOf (GraphSort says what that sorting promises).
     */
    method GetSortedResourceUids() returns (r: Result<seq<ResourceUid>>)
      ensures !Resolvable(DepsOf(workloads), Decls(workloads)) ==>
        r.Err? && exists d | d in Decls(workloads) :: DepsOf(workloads)(d) == Err(r.error)
      ensures Resolvable(DepsOf(workloads), Decls(workloads)) ==>
        exists seen: seq<Decl> :: (forall d :: d in seen <==> d in Decls(workloads))
          && r == Sort(Gather(DepsOf(workloads), seen).ready, Gather(DepsOf(workloads), seen).incoming)
      ensures Resolvable(DepsOf(workloads), Decls(workloads)) && Consistent(DepsOf(workloads), Decls(workloads)) ==>
        r == Sort(ReadyOf(DepsOf(workloads), Decls(workloads)), EdgesOf(DepsOf(workloads), Decls(workloads)))
    {
      DeclsMembers(workloads);
      var g := GatherGraph(workloads, DepsOf(workloads), Decls(workloads));
      if g.Err? {
        return Err(g.error);
      }
      r := Kahn(g.value.ready, g.value.incoming);
    }

    /**
     * GetResourceOutputForWorkload: for each resource of workload w, the output lookup of its
     * primed state; an unknown workload or an unprimed resource is an error.
     */
    method GetResourceOutputForWorkload(w: string) returns (r: Result<map<string, Lookup>>)
      ensures w !in workloads ==> r == Err("workload '" + w + "': does not exist")
      ensures w in workloads ==> var rs := workloads[w].spec.resources;
        (r.Ok? <==> forall n | n in rs :: DeclOf(w, n, rs[n]).uid in resources)
      ensures w in workloads && r.Err? ==> var rs := workloads[w].spec.resources;
        exists n | n in rs && DeclOf(w, n, rs[n]).uid !in resources ::
          r.error == "workload '" + w + "': resource '" + n + "' (" + DeclOf(w, n, rs[n]).uid + ") is not primed"
      ensures r.Ok? ==> var rs := workloads[w].spec.resources;
        r.value.Keys == rs.Keys
        && forall n, keys | n in rs :: r.value[n](keys) == resources[DeclOf(w, n, rs[n]).uid].LookupOutput(keys)
    {
      if w !in workloads {
        return Err("workload '" + w + "': does not exist");
      }
      var rs := workloads[w].spec.resources;
      var out: map<string, Lookup> := map[];
      var todo := rs.Keys;
      while todo != {}
        invariant todo <= rs.Keys
        invariant forall n | n in rs && n !in todo :: DeclOf(w, n, rs[n]).uid in resources
        invariant out.Keys == rs.Keys - todo
        invariant forall n, keys | n in out :: out[n](keys) == resources[DeclOf(w, n, rs[n]).uid].LookupOutput(keys)
        decreases |todo|
      {
        var n :| n in todo;
        var uid := DeclOf(w, n, rs[n]).uid;
        if uid !in resources {
          return Err("workload '" + w + "': resource '" + n + "' (" + uid + ") is not primed");
        }
        var st := resources[uid];
        out := out[n := (keys: seq<string>) => st.LookupOutput(keys)];
        todo := todo - {n};
      }
      return Ok(out);
    }
  }
}

/**
 * The per-workload and per-resource records of the framework's State, the output lookup of a
 * resource, and the resource declarations of a set of workloads in the order they are visited.
 */
module ResourceStates {
  import opened Wrappers
  import opened Sorting
  import opened Types
  import opened ResourceUids
  import opened Substitution

  /** ScoreWorkloadState: the recorded spec, the file it came from and the implementation's extras. */
  datatype WorkloadState<WX> = WorkloadState(spec: Workload, file: Option<string>, extras: WX)

  /**
   * ScoreResourceState. A nil Metadata or Params map is None; a nil OutputLookupFunc is None.
   * State and Outputs read the same nil or empty, so each is a plain map.
   */
  datatype ResourceState<RX> = ResourceState(
    guid: string,
    resType: string,
    resClass: string,
    id: string,
    metadata: Option<map<string, Value>>,
    params: Option<map<string, Value>>,
    sourceWorkload: string,
    provisionerUri: string,
    state: map<string, Value>,
    outputs: map<string, Value>,
    outputLookupFunc: Option<Lookup>,
    extras: RX)
  {
    /**
     * What OutputLookup(keys) returns: the embedded lookup function when there is one, an
     * error for no keys, and otherwise one map step into the outputs per key.
     */
    function LookupOutput(keys: seq<string>): Result<Value>
    {
      if outputLookupFunc.Some? then outputLookupFunc.value(keys)
      else if |keys| == 0 then Err("at least one lookup key is required")
      else Walk(Obj(outputs), keys, true)
    }

    /** ScoreResourceState.OutputLookup: the loop that walks resolvedValue through the outputs. */
    method OutputLookup(keys: seq<string>) returns (r: Result<Value>)
      ensures r == LookupOutput(keys)
    {
      if outputLookupFunc.Some? {
        return outputLookupFunc.value(keys);
      } else if |keys| == 0 {
        return Err("at least one lookup key is required");
      }
      var resolved := Obj(outputs);
      for i := 0 to |keys|
        invariant Walk(Obj(outputs), keys, true) == Walk(resolved, keys[i..], true)
      {
        assert keys[i..][0] == keys[i] && keys[i..][1..] == keys[i + 1..];
        var k := keys[i];
        if resolved.Null? {
          return Err("key '" + k + "' not found");
        }
        if !resolved.Obj? {
          return Err("cannot lookup key '" + k + "', context is not a map");
        }
        if k !in resolved.fields {
          return Err("key '" + k + "' not found");
        }
        resolved := resolved.fields[k];
      }
      assert keys[|keys|..] == [];
      r := Ok(resolved);
    }
  }

  /** Without a lookup function, looking up a + b is looking up a and then walking b from there. */
  lemma LookupOutputNested<RX>(st: ResourceState<RX>, a: seq<string>, b: seq<string>)
    requires st.outputLookupFunc.None? && |a| > 0
    ensures var ra := st.LookupOutput(a);
      st.LookupOutput(a + b) == if ra.Err? then ra else Walk(ra.value, b, true)
  {
    WalkConcat(Obj(st.outputs), a, b, true);
  }

  // ---------------------------------------------------------------------------------
  // Declarations
  // ---------------------------------------------------------------------------------

  /**
   * One resource declaration: the declaring workload, the resource's name there, the
   * declaration and the uid NewResourceUid gives it.
   */
  datatype Decl = Decl(workload: string, name: string, res: Resource, uid: ResourceUid)

  /** The declaration of resource n of workload w. */
  function DeclOf(w: string, n: string, r: Resource): (d: Decl)
  {
    Decl(w, n, r, NewResourceUid(w, n, r.resType, r.resClass, r.resId))
  }

  /** d is resource d.name of workload d.workload in ws. */
  predicate Declared<WX>(ws: map<string, WorkloadState<WX>>, d: Decl)
  {
    d.workload in ws && d.name in ws[d.workload].spec.resources
    && d == DeclOf(d.workload, d.name, ws[d.workload].spec.resources[d.name])
  }

  /**
   * Every declared uid that has no entry among keys yet has the shape its accessors need
   * (Go panics otherwise; a uid that already has an entry is never taken apart).
   */
  predicate Primeable<WX>(ws: map<string, WorkloadState<WX>>, keys: set<ResourceUid>)
  {
    forall w, n | w in ws && n in ws[w].spec.resources ::
      DeclOf(w, n, ws[w].spec.resources[n]).uid in keys || WellFormed(DeclOf(w, n, ws[w].spec.resources[n]).uid)
  }

  /** The declarations of resources names of workload w, in that order. */
  function DeclsOf(w: string, rs: map<string, Resource>, names: seq<string>): (ds: seq<Decl>)
    requires forall n | n in names :: n in rs
    ensures |ds| == |names|
    ensures forall k | 0 <= k < |ds| :: ds[k] == DeclOf(w, names[k], rs[names[k]])
  {
    if |names| == 0 then []
    else
      var rest := DeclsOf(w, rs, names[1..]);
      var ds := [DeclOf(w, names[0], rs[names[0]])] + rest;
      assert forall k | 1 <= k < |ds| :: ds[k] == rest[k - 1] && names[k] == names[1..][k - 1];
      ds
  }

  /** The declarations of workloads names in that order, each workload's resources by sorted name. */
  function DeclsFrom<WX>(ws: map<string, WorkloadState<WX>>, names: seq<string>): (ds: seq<Decl>)
    requires forall n | n in names :: n in ws
    ensures forall d | d in ds :: Declared(ws, d) && d.workload in names
  {
    if |names| == 0 then []
    else
      var rs := ws[names[0]].spec.resources;
      var here := DeclsOf(names[0], rs, SortedSeq(rs.Keys));
      DeclsOfDeclared(ws, names[0], SortedSeq(rs.Keys));
      here + DeclsFrom(ws, names[1..])
  }

  lemma DeclsOfDeclared<WX>(ws: map<string, WorkloadState<WX>>, w: string, names: seq<string>)
    requires w in ws && forall n | n in names :: n in ws[w].spec.resources
    ensures forall d | d in DeclsOf(w, ws[w].spec.resources, names) :: Declared(ws, d) && d.workload == w
  {
    var rs := ws[w].spec.resources;
    var ds := DeclsOf(w, rs, names);
    forall d | d in ds ensures Declared(ws, d) && d.workload == w {
      var k :| 0 <= k < |ds| && ds[k] == d;
      assert d == DeclOf(w, names[k], rs[names[k]]);
    }
  }

  /** The order WithPrimedResources visits declarations in: workloads, then resources, by sorted name. */
  function Decls<WX>(ws: map<string, WorkloadState<WX>>): seq<Decl>
  {
    DeclsFrom(ws, SortedSeq(ws.Keys))
  }

  /** A declared resource of a listed workload is among the declarations of the listing. */
  lemma {:induction false} DeclsFromHas<WX>(ws: map<string, WorkloadState<WX>>, names: seq<string>, d: Decl)
    requires forall n | n in names :: n in ws
    requires Declared(ws, d) && d.workload in names
    ensures d in DeclsFrom(ws, names)
  {
    var rs := ws[names[0]].spec.resources;
    var sorted := SortedSeq(rs.Keys);
    if names[0] == d.workload {
      var k :| 0 <= k < |sorted| && sorted[k] == d.name;
      assert DeclsOf(names[0], rs, sorted)[k] == d;
    } else {
      assert forall n | n in names[1..] :: n in names;
      DeclsFromHas(ws, names[1..], d);
    }
  }

  /** The visiting order holds every declared resource and nothing else. */
  lemma DeclsComplete<WX>(ws: map<string, WorkloadState<WX>>, d: Decl)
    ensures d in Decls(ws) <==> Declared(ws, d)
  {
    if Declared(ws, d) {
      DeclsFromHas(ws, SortedSeq(ws.Keys), d);
    }
  }

  /** The declarations are exactly the declared resources. */
  lemma DeclsMembers<WX>(ws: map<string, WorkloadState<WX>>)
    ensures forall d :: d in Decls(ws) <==> Declared(ws, d)
  {
    forall d ensures d in Decls(ws) <==> Declared(ws, d) {
      DeclsComplete(ws, d);
    }
  }

  /** A Primeable workload map gives the same guarantee for every uid in the visiting order. */
  lemma DeclsPrimeable<WX>(ws: map<string, WorkloadState<WX>>, keys: set<ResourceUid>)
    requires Primeable(ws, keys)
    ensures forall d | d in Decls(ws) :: d.uid in keys || WellFormed(d.uid)
  {
    forall d | d in Decls(ws) ensures d.uid in keys || WellFormed(d.uid) {
      assert Declared(ws, d);
    }
  }

  /** Earlier declarations of ds are of workloads Below those of later ones. */
  predicate WorkloadOrdered(ds: seq<Decl>)
  {
    forall i, j | 0 <= i < j < |ds| :: Below(ds[i].workload, ds[j].workload)
  }

  /** A block of one workload w followed by ordered declarations of workloads w is Below. */
  lemma BlockOrdered(here: seq<Decl>, w: string, rest: seq<Decl>)
    requires forall d | d in here :: d.workload == w
    requires forall d | d in rest :: Below(w, d.workload)
    requires WorkloadOrdered(rest)
    ensures WorkloadOrdered(here + rest)
  {
    var ds := here + rest;
    BelowRefl(w);
    forall i, j | 0 <= i < j < |ds| ensures Below(ds[i].workload, ds[j].workload) {
      if j < |here| {
        assert ds[i] == here[i] && ds[j] == here[j];
        assert here[i] in here && here[j] in here;
      } else if i < |here| {
        assert ds[i] == here[i] && here[i] in here;
        assert ds[j] == rest[j - |here|] && ds[j] in rest;
      } else {
        assert ds[i] == rest[i - |here|] && ds[j] == rest[j - |here|];
      }
    }
  }

  /** Declarations come in workload-name order. */
  lemma {:induction false} DeclsFromOrdered<WX>(ws: map<string, WorkloadState<WX>>, names: seq<string>)
    requires forall n | n in names :: n in ws
    requires StrictlySorted(names)
    ensures WorkloadOrdered(DeclsFrom(ws, names))
    decreases |names|
  {
    if |names| > 0 {
      var rs := ws[names[0]].spec.resources;
      var here := DeclsOf(names[0], rs, SortedSeq(rs.Keys));
      var rest := DeclsFrom(ws, names[1..]);
      assert DeclsFrom(ws, names) == here + rest;
      assert forall n | n in names[1..] :: n in names;
      assert StrictlySorted(names[1..]) by {
        forall i, j | 0 <= i < j < |names[1..]| ensures Less(names[1..][i], names[1..][j]) {
          assert names[1..][i] == names[i + 1] && names[1..][j] == names[j + 1];
        }
      }
      DeclsFromOrdered(ws, names[1..]);
      forall d | d in here ensures d.workload == names[0] {
        var k :| 0 <= k < |here| && here[k] == d;
      }
      forall d | d in rest ensures Below(names[0], d.workload) {
        var k :| 0 <= k < |names[1..]| && names[1..][k] == d.workload;
        assert Less(names[0], names[k + 1]);
      }
      BlockOrdered(here, names[0], rest);
    }
  }

  /** In the visiting order, an earlier declaration's workload is Below a later one's. */
  lemma DeclsOrdered<WX>(ws: map<string, WorkloadState<WX>>)
    ensures WorkloadOrdered(Decls(ws))
  {
    var names := SortedSeq(ws.Keys);
    assert forall n | n in names :: n in ws;
    DeclsFromOrdered(ws, names);
  }

  /** Every declaration of ds is declared in ws. */
  predicate AllDeclared<WX>(ws: map<string, WorkloadState<WX>>, ds: seq<Decl>)
  {
    forall d | d in ds :: Declared(ws, d)
  }

  /** The declarations still to visit, from workload i of names and resource j of rnames on. */
  lemma DeclsSuffix<WX>(ws: map<string, WorkloadState<WX>>, names: seq<string>, i: nat)
    requires forall n | n in names :: n in ws
    requires i < |names|
    ensures DeclsFrom(ws, names[i..]) ==
      DeclsOf(names[i], ws[names[i]].spec.resources, SortedSeq(ws[names[i]].spec.resources.Keys)) + DeclsFrom(ws, names[i + 1..])
  {
    assert names[i..][0] == names[i] && names[i..][1..] == names[i + 1..];
  }

  /** The same split, carrying well-formedness of the uids over to both parts. */
  lemma DeclsSplit<WX>(ws: map<string, WorkloadState<WX>>, names: seq<string>, i: nat, keys: set<ResourceUid>)
    requires forall n | n in names :: n in ws
    requires i < |names|
    requires forall d | d in DeclsFrom(ws, names[i..]) :: d.uid in keys || WellFormed(d.uid)
    ensures var rs := ws[names[i]].spec.resources;
      forall d | d in DeclsOf(names[i], rs, SortedSeq(rs.Keys)) + DeclsFrom(ws, names[i + 1..]) :: d.uid in keys || WellFormed(d.uid)
    ensures forall d | d in DeclsFrom(ws, names[i + 1..]) :: d.uid in keys || WellFormed(d.uid)
  {
    DeclsSuffix(ws, names, i);
  }

  lemma DeclsOfSuffix(w: string, rs: map<string, Resource>, rnames: seq<string>, j: nat)
    requires forall n | n in rnames :: n in rs
    requires j < |rnames|
    ensures DeclsOf(w, rs, rnames[j..]) == [DeclOf(w, rnames[j], rs[rnames[j]])] + DeclsOf(w, rs, rnames[j + 1..])
  {
    assert rnames[j..][0] == rnames[j] && rnames[j..][1..] == rnames[j + 1..];
  }
}

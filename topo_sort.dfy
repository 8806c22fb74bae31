/**
 * The ordering half of GetSortedResourceUids: Kahn's algorithm over resource uids, taking the
 * whole ready frontier as one sorted batch per round and failing when edges are left over.
 */
module TopoSort {
  import opened Wrappers
  import opened Sorting

  /** incomingEdges: each waiting node and the dependencies it still waits for. */
  type Edges = map<string, set<string>>

  const CycleError := "a cycle exists involving resource param placeholders"

  /** The waiting nodes whose last dependencies are among done: they join the next frontier. */
  function Released(done: set<string>, incoming: Edges): (r: set<string>)
    ensures r <= incoming.Keys
  {
    set t | t in incoming && incoming[t] != {} && incoming[t] <= done
  }

  /** The waiting nodes that stay waiting once done is emitted, without the edges from done. */
  function Remaining(done: set<string>, incoming: Edges): (rest: Edges)
    ensures rest.Keys == incoming.Keys - Released(done, incoming)
  {
    map t | t in incoming && t !in Released(done, incoming) :: incoming[t] - done
  }

  lemma RoundSize(done: set<string>, incoming: Edges)
    ensures |Released(done, incoming)| + |Remaining(done, incoming)| == |incoming|
  {
    var r := Released(done, incoming);
    var k := Remaining(done, incoming).Keys;
    assert incoming.Keys == r + k && r * k == {};
  }

  /**
   * The output of the Kahn loop from frontier ready and waiting nodes incoming: the sorted
   * frontier, then the output of the next round; edges left when the frontier is empty are a cycle.
   */
  function Sort(ready: set<string>, incoming: Edges): Result<seq<string>>
    decreases |incoming| + |ready|
  {
    if ready == {} then (if |incoming| == 0 then Ok([]) else Err(CycleError))
    else
      RoundSize(ready, incoming);
      var rest := Sort(Released(ready, incoming), Remaining(ready, incoming));
      if rest.Err? then rest else Ok(SortedSeq(ready) + rest.value)
  }

  /**
   * A well-formed graph: no node is both ready and waiting, every waiting node waits for
   * something, and only for nodes of the graph.
   */
  predicate Wf(ready: set<string>, incoming: Edges)
  {
    (forall t {:trigger incoming[t]} | t in incoming :: t !in ready && incoming[t] != {})
    && (forall t, x | t in incoming && x in incoming[t] :: x in ready || x in incoming)
  }

  /** A round keeps the graph well formed and splits the waiting nodes into frontier and rest. */
  lemma RoundWf(ready: set<string>, incoming: Edges)
    requires Wf(ready, incoming)
    ensures Wf(Released(ready, incoming), Remaining(ready, incoming))
    ensures Released(ready, incoming) + Remaining(ready, incoming).Keys == incoming.Keys
  {
    var r := Released(ready, incoming);
    var rest := Remaining(ready, incoming);
    forall t | t in rest ensures rest[t] != {} && rest[t] <= r + rest.Keys {
      StillWaiting(ready, incoming, t);
    }
  }

  /** A node that stays waiting still waits for something, and only for waiting nodes. */
  lemma StillWaiting(ready: set<string>, incoming: Edges, t: string)
    requires Wf(ready, incoming) && t in Remaining(ready, incoming)
    ensures Remaining(ready, incoming)[t] != {}
    ensures Remaining(ready, incoming)[t] <= incoming.Keys
  {
    var deps := incoming[t];
    assert Remaining(ready, incoming)[t] == deps - ready;
    var y :| y in deps && y !in ready;
    assert y in deps - ready;
  }

  lemma DistinctConcat(a: seq<string>, b: seq<string>)
    requires Distinct(a) && Distinct(b) && forall x | x in a :: x !in b
    ensures Distinct(a + b)
  {
    forall i, j | 0 <= i < j < |a + b| ensures (a + b)[i] != (a + b)[j] {
      if j >= |a| && i < |a| {
        assert (a + b)[i] in a && (a + b)[j] == b[j - |a|];
      }
    }
  }

  lemma StrictlySortedDistinct(s: seq<string>)
    requires StrictlySorted(s)
    ensures Distinct(s)
  {
  }

  /** A successful sort lists every node of a well-formed graph exactly once. */
  lemma {:induction false} SortPerm(ready: set<string>, incoming: Edges)
    requires Wf(ready, incoming)
    ensures Sort(ready, incoming).Ok? ==> var s := Sort(ready, incoming).value;
      Distinct(s) && forall x :: x in s <==> x in ready || x in incoming
    decreases |incoming| + |ready|
  {
    if ready != {} {
      RoundSize(ready, incoming);
      RoundWf(ready, incoming);
      var r, rest := Released(ready, incoming), Remaining(ready, incoming);
      SortPerm(r, rest);
      var tail := Sort(r, rest);
      if tail.Ok? {
        var b := SortedSeq(ready);
        StrictlySortedDistinct(b);
        DistinctConcat(b, tail.value);
        assert Sort(ready, incoming).value == b + tail.value;
      }
    }
  }

  /** A successful sort lists every frontier and every waiting node, well-formed graph or not. */
  lemma {:induction false} SortLists(ready: set<string>, incoming: Edges, t: string)
    requires Sort(ready, incoming).Ok? && (t in ready || t in incoming)
    ensures t in Sort(ready, incoming).value
    decreases |incoming| + |ready|
  {
    if ready != {} {
      RoundSize(ready, incoming);
      var r, rest := Released(ready, incoming), Remaining(ready, incoming);
      assert Sort(ready, incoming).value == SortedSeq(ready) + Sort(r, rest).value;
      if t !in ready {
        SortLists(r, rest, t);
      }
    }
  }

  /**
   * A node that is both on the frontier and waiting is listed twice by a successful sort:
   * once in the first round and once when its dependencies are done.
   */
  lemma SortRepeats(ready: set<string>, incoming: Edges, t: string)
    requires Sort(ready, incoming).Ok? && t in ready && t in incoming
    ensures !Distinct(Sort(ready, incoming).value)
  {
    SortRound(ready, incoming);
    var r, rest := Released(ready, incoming), Remaining(ready, incoming);
    var b, tail := SortedSeq(ready), Sort(r, rest);
    assert tail.Ok?;
    assert Sort(ready, incoming).value == b + tail.value;
    assert t in r || t in rest;
    SortLists(r, rest, t);
    TwiceNotDistinct(b, tail.value, t);
  }

  lemma TwiceNotDistinct(a: seq<string>, b: seq<string>, t: string)
    requires t in a && t in b
    ensures !Distinct(a + b)
  {
    var i :| 0 <= i < |a| && a[i] == t;
    var j :| 0 <= j < |b| && b[j] == t;
    assert (a + b)[i] == t && (a + b)[|a| + j] == t;
  }

  /** The smallest such graph: "a" ready and also waiting for "b" is listed as a, b, a. */
  lemma RepeatExample()
    ensures Sort({"a", "b"}, map["a" := {"b"}]) == Ok(["a", "b", "a"])
  {
    var incoming: Edges := map["a" := {"b"}];
    assert Less("a", "b");
    SortedUnique(["a", "b"], {"a", "b"});
    SortedUnique(["a"], {"a"});
    assert Released({"a", "b"}, incoming) == {"a"};
    assert Remaining({"a", "b"}, incoming).Keys == {};
    assert Remaining({"a", "b"}, incoming) == map[];
    assert Released({"a"}, map[]) == {};
    assert Remaining({"a"}, map[]) == map[];
    SortRound({"a"}, map[]);
    SortRound({"a", "b"}, incoming);
    assert Sort({"a"}, map[]) == Ok(["a"]);
    assert Sort({"a", "b"}, incoming) == Then(["a", "b"], Sort({"a"}, map[]));
    assert ["a", "b"] + ["a"] == ["a", "b", "a"];
  }

  /** Every dependency of a waiting node is listed before it. */
  predicate Ordered(s: seq<string>, incoming: Edges)
  {
    forall j, u | 0 <= j < |s| && s[j] in incoming && u in incoming[s[j]] :: u in s[..j]
  }

  /** A successful sort of a well-formed graph lists every node after all of its dependencies. */
  lemma {:induction false} SortTopo(ready: set<string>, incoming: Edges)
    requires Wf(ready, incoming)
    ensures Sort(ready, incoming).Ok? ==> Ordered(Sort(ready, incoming).value, incoming)
    decreases |incoming| + |ready|
  {
    if ready != {} {
      RoundSize(ready, incoming);
      RoundWf(ready, incoming);
      var r, rest := Released(ready, incoming), Remaining(ready, incoming);
      SortTopo(r, rest);
      SortPerm(r, rest);
      var tail := Sort(r, rest);
      if tail.Ok? {
        var b := SortedSeq(ready);
        var s := b + tail.value;
        assert Sort(ready, incoming).value == s;
        forall j, u | 0 <= j < |s| && s[j] in incoming && u in incoming[s[j]] ensures u in s[..j] {
          TopoStep(ready, incoming, b, tail.value, j, u);
        }
      }
    }
  }

  lemma TopoStep(ready: set<string>, incoming: Edges, b: seq<string>, t: seq<string>, j: int, u: string)
    requires Wf(ready, incoming)
    requires forall x :: x in b <==> x in ready
    requires Ordered(t, Remaining(ready, incoming))
    requires 0 <= j < |b + t| && (b + t)[j] in incoming && u in incoming[(b + t)[j]]
    ensures u in (b + t)[..j]
  {
    var s := b + t;
    assert s[j] !in ready;
    assert forall i | 0 <= i < |b| :: s[i] in ready;
    assert j >= |b|;
    var k := j - |b|;
    assert s[j] == t[k];
    assert s[..j] == b + t[..k];
    if u !in ready {
      var rest := Remaining(ready, incoming);
      assert t[k] in rest;
      assert u in rest[t[k]];
    }
  }

  /** The dependencies t waits for; none when t is not waiting. */
  function WaitsFor(incoming: Edges, t: string): set<string>
  {
    if t in incoming then incoming[t] else {}
  }

  /** A nonempty set of waiting nodes each of which waits for a node of the set. */
  predicate Cycle(incoming: Edges, c: set<string>)
  {
    c != {} && forall t {:trigger WaitsFor(incoming, t)} | t in c ::
      t in incoming && exists x :: x in WaitsFor(incoming, t) && x in c
  }

  /** With an empty frontier, all waiting nodes of a well-formed graph form a cycle. */
  lemma StuckCycle(ready: set<string>, incoming: Edges)
    requires Wf(ready, incoming) && ready == {} && |incoming| != 0
    ensures Cycle(incoming, incoming.Keys)
  {
    forall t | t in incoming.Keys ensures exists x :: x in WaitsFor(incoming, t) && x in incoming.Keys {
      var x :| x in incoming[t];
      assert x in WaitsFor(incoming, t);
    }
  }

  /** A cycle among the nodes left waiting after a round is a cycle of the graph. */
  lemma CycleLift(ready: set<string>, incoming: Edges, c: set<string>)
    requires Cycle(Remaining(ready, incoming), c)
    ensures Cycle(incoming, c)
  {
    var rest := Remaining(ready, incoming);
    forall t | t in c ensures t in incoming && exists x :: x in WaitsFor(incoming, t) && x in c {
      var x :| x in WaitsFor(rest, t) && x in c;
      assert rest[t] == incoming[t] - ready;
      assert x in WaitsFor(incoming, t);
    }
  }

  /** A failed sort of a well-formed graph has found a cycle, and says so. */
  lemma {:induction false} SortErrCycle(ready: set<string>, incoming: Edges)
    requires Wf(ready, incoming)
    ensures Sort(ready, incoming).Err? ==> Sort(ready, incoming).error == CycleError && exists c :: Cycle(incoming, c)
    decreases |incoming| + |ready|
  {
    if ready == {} {
      if |incoming| != 0 {
        StuckCycle(ready, incoming);
      }
    } else {
      RoundSize(ready, incoming);
      RoundWf(ready, incoming);
      var r, rest := Released(ready, incoming), Remaining(ready, incoming);
      SortErrCycle(r, rest);
      if Sort(r, rest).Err? {
        var c :| Cycle(rest, c);
        CycleLift(ready, incoming, c);
      }
    }
  }

  /** The first node of c in an ordered listing waits for no node of c. */
  lemma OrderedFirst(s: seq<string>, incoming: Edges, c: set<string>, j: nat)
    requires Ordered(s, incoming) && j < |s| && s[j] in incoming
    requires forall i | 0 <= i < j :: s[i] !in c
    ensures forall u | u in incoming[s[j]] :: u !in c
  {
    forall u | u in incoming[s[j]] ensures u !in c {
      assert u in s[..j];
      var i :| 0 <= i < j && s[i] == u;
    }
  }

  /** A listing that holds every waiting node after its dependencies leaves no room for a cycle. */
  lemma NoCycle(s: seq<string>, incoming: Edges, c: set<string>)
    requires Ordered(s, incoming) && forall x | x in incoming :: x in s
    ensures !Cycle(incoming, c)
  {
    if c != {} && exists t | t in c :: t !in incoming {
      var t :| t in c && t !in incoming;
      assert WaitsFor(incoming, t) == {};
    } else if c != {} {
      var x :| x in c;
      assert x in s;
      var k :| 0 <= k < |s| && s[k] == x;
      var j := 0;
      while s[j] !in c
        invariant 0 <= j <= k
        invariant forall i | 0 <= i < j :: s[i] !in c
        decreases k - j
      {
        j := j + 1;
      }
      OrderedFirst(s, incoming, c, j);
      assert WaitsFor(incoming, s[j]) == incoming[s[j]];
    }
  }

  /**
   * Kahn's algorithm on a well-formed graph fails exactly when the waiting nodes contain a
   * cycle, and the failure is the cycle error.
   */
  lemma SortCycleIff(ready: set<string>, incoming: Edges)
    requires Wf(ready, incoming)
    ensures Sort(ready, incoming).Err? <==> exists c :: Cycle(incoming, c)
    ensures Sort(ready, incoming).Err? ==> Sort(ready, incoming).error == CycleError
  {
    SortErrCycle(ready, incoming);
    SortPerm(ready, incoming);
    SortTopo(ready, incoming);
    forall c ensures Sort(ready, incoming).Ok? ==> !Cycle(incoming, c) {
      if Sort(ready, incoming).Ok? {
        NoCycle(Sort(ready, incoming).value, incoming, c);
      }
    }
  }

  /** A node waiting for itself makes the sort fail. */
  lemma SelfReference(ready: set<string>, incoming: Edges, t: string)
    requires Wf(ready, incoming) && t in incoming && t in incoming[t]
    ensures Sort(ready, incoming) == Err(CycleError)
  {
    assert t in WaitsFor(incoming, t);
    assert Cycle(incoming, {t});
    SortCycleIff(ready, incoming);
  }

  /** Nothing emitted yet: nothing released and every edge kept. */
  lemma RoundEmpty(incoming: Edges)
    ensures Released({}, incoming) == {} && Remaining({}, incoming) == incoming
  {
    forall t | t in incoming ensures t !in Released({}, incoming) {
      if incoming[t] != {} {
        var x :| x in incoming[t];
      }
    }
    assert Remaining({}, incoming).Keys == incoming.Keys;
    forall t | t in incoming ensures Remaining({}, incoming)[t] == incoming[t] {
    }
  }

  /** Emitting f after done releases what done released plus what f releases of the rest. */
  lemma ReleasedFold(done: set<string>, f: string, incoming: Edges)
    ensures Released(done + {f}, incoming) == Released(done, incoming) + Released({f}, Remaining(done, incoming))
  {
    var rest := Remaining(done, incoming);
    forall t | t in Released(done + {f}, incoming) && t !in Released(done, incoming)
      ensures t in Released({f}, rest)
    {
      var deps := incoming[t];
      assert rest[t] == deps - done;
      var y :| y in deps && y !in done;
      assert y == f && f in rest[t];
    }
    forall t | t in Released({f}, rest) ensures t in Released(done + {f}, incoming) {
      assert rest[t] == incoming[t] - done;
    }
  }

  /** Emitting f after done leaves the edges of the rest without f. */
  lemma RemainingFold(done: set<string>, f: string, incoming: Edges)
    ensures Remaining(done + {f}, incoming) == Remaining({f}, Remaining(done, incoming))
  {
    ReleasedFold(done, f, incoming);
    var a, b := Remaining(done + {f}, incoming), Remaining({f}, Remaining(done, incoming));
    assert a.Keys == b.Keys;
    forall t | t in a ensures a[t] == b[t] {
      assert Remaining(done, incoming)[t] == incoming[t] - done;
    }
  }

  /** The state of the inner loop once the keys outside todo are handled. */
  predicate Dropping(f: string, incoming: Edges, todo: set<string>, rest: Edges, released: set<string>)
  {
    && (forall t | t in released :: t in incoming && t !in todo && incoming[t] == {f} && t !in rest)
    && (forall t | t in rest :: t in incoming && rest[t] == if t in todo then incoming[t] else incoming[t] - {f})
    && (forall t | t in incoming :: t in rest || t in released)
    && (forall t | t in todo :: t in incoming && t in rest)
    && (forall t | t in incoming && t !in todo && incoming[t] == {f} :: t in released)
  }

  /** Handling one waiting node keeps the inner loop's state. */
  lemma DropStep(f: string, incoming: Edges, todo: set<string>, rest: Edges, released: set<string>, t: string)
    requires Dropping(f, incoming, todo, rest, released) && t in todo
    ensures var m := incoming[t]; var todo' := todo - {t};
      && (f !in m ==> Dropping(f, incoming, todo', rest, released))
      && (f in m && m - {f} == {} ==> Dropping(f, incoming, todo', rest - {t}, released + {t}))
      && (f in m && m - {f} != {} ==> Dropping(f, incoming, todo', rest[t := m - {f}], released))
  {
  }
  /** Once every waiting node is handled, the state is one round for f. */
  lemma DroppedAll(f: string, incoming: Edges, rest: Edges, released: set<string>)
    requires Dropping(f, incoming, {}, rest, released)
    ensures rest == Remaining({f}, incoming) && released == Released({f}, incoming)
  {
    var want, free := Remaining({f}, incoming), Released({f}, incoming);
    forall t | t in incoming ensures t in free <==> incoming[t] == {f} {
      if incoming[t] != {} && incoming[t] <= {f} {
        var x :| x in incoming[t];
        assert incoming[t] == {f};
      }
    }
    assert released == free;
    assert rest.Keys == want.Keys;
    forall t | t in rest ensures rest[t] == want[t] {
    }
  }

  /**
   * The inner loop for one emitted node f: every waiting node loses its edge from f, and those
   * left with no edge move to the frontier.
   */
  method DropEdges(f: string, incoming: Edges) returns (rest: Edges, released: set<string>)
    ensures rest == Remaining({f}, incoming) && released == Released({f}, incoming)
  {
    rest, released := incoming, {};
    var todo := incoming.Keys;
    while todo != {}
      invariant Dropping(f, incoming, todo, rest, released)
      decreases |todo|
    {
      var t :| t in todo;
      DropStep(f, incoming, todo, rest, released, t);
      var m := incoming[t];
      if f in m {
        m := m - {f};
        if m == {} {
          rest := rest - {t};
          released := released + {t};
        } else {
          rest := rest[t := m];
        }
      }
      todo := todo - {t};
    }
    DroppedAll(f, incoming, rest, released);
  }

  /** Chaining the sorted output so far with the outcome of the rest of the loop. */
  function Then(output: seq<string>, r: Result<seq<string>>): Result<seq<string>>
  {
    if r.Err? then r else Ok(output + r.value)
  }

  /** A round of the loop: the sorted frontier, then the rounds after it. */
  lemma SortRound(ready: set<string>, incoming: Edges)
    requires ready != {}
    ensures Sort(ready, incoming) == Then(SortedSeq(ready), Sort(Released(ready, incoming), Remaining(ready, incoming)))
  {
  }

  /** Nothing emitted before the loop. */
  lemma ThenNil(r: Result<seq<string>>)
    ensures Then([], r) == r
  {
    if r.Ok? {
      assert [] + r.value == r.value;
    }
  }

  /** Emitting a then b is emitting a + b. */
  lemma ThenThen(a: seq<string>, b: seq<string>, r: Result<seq<string>>)
    ensures Then(a, Then(b, r)) == Then(a + b, r)
  {
    if r.Ok? {
      assert a + (b + r.value) == a + b + r.value;
    }
  }

  /** The nodes listed in s. */
  function Elems(s: seq<string>): (r: set<string>)
    ensures forall x :: x in r <==> x in s
  {
    set x | x in s
  }

  /** The inner loop of a round: drops the edges of each emitted node of subset in turn. */
  method DropRound(subset: seq<string>, incoming: Edges) returns (released: set<string>, rest: Edges)
    ensures released == Released(Elems(subset), incoming) && rest == Remaining(Elems(subset), incoming)
  {
    released, rest := {}, incoming;
    RoundEmpty(incoming);
    ghost var done: set<string> := {};
    for i := 0 to |subset|
      invariant done == Elems(subset[..i])
      invariant released == Released(done, incoming) && rest == Remaining(done, incoming)
    {
      ReleasedFold(done, subset[i], incoming);
      RemainingFold(done, subset[i], incoming);
      var left, freed := DropEdges(subset[i], rest);
      rest, released := left, released + freed;
      done := done + {subset[i]};
      assert subset[..i + 1] == subset[..i] + [subset[i]];
    }
    assert subset[..|subset|] == subset;
  }

  /** One round of the loop, stated in the terms the loop computes. */
  lemma KahnStep(output: seq<string>, ready: set<string>, incoming: Edges, subset: seq<string>)
    requires ready != {} && subset == SortedSeq(ready)
    ensures var next, rest := Released(Elems(subset), incoming), Remaining(Elems(subset), incoming);
      Then(output, Sort(ready, incoming)) == Then(output + subset, Sort(next, rest))
      && |next| + |rest| < |incoming| + |ready|
  {
    assert Elems(subset) == ready;
    SortRound(ready, incoming);
    ThenThen(output, subset, Sort(Released(ready, incoming), Remaining(ready, incoming)));
    RoundSize(ready, incoming);
  }

  /**
   * Kahn's loop: each round emits the sorted frontier, drops its edges one emitted node at a
   * time and collects the released nodes as the next frontier; leftover edges are a cycle.
   */
  method Kahn(nodesWithNoIncomingEdges: set<string>, incomingEdges: Edges) returns (r: Result<seq<string>>)
    ensures r == Sort(nodesWithNoIncomingEdges, incomingEdges)
  {
    var ready, incoming := nodesWithNoIncomingEdges, incomingEdges;
    var output: seq<string> := [];
    ThenNil(Sort(ready, incoming));
    while |ready| > 0
      invariant Sort(nodesWithNoIncomingEdges, incomingEdges) == Then(output, Sort(ready, incoming))
      decreases |incoming| + |ready|
    {
      var subset := SortedElements(ready);
      KahnStep(output, ready, incoming, subset);
      output := output + subset;
      ready, incoming := DropRound(subset, incoming);
    }
    assert output + [] == output;
    if |incoming| > 0 {
      return Err(CycleError);
    }
    return Ok(output);
  }
}

/**
 * Priming, the inner loop of WithPrimedResources: every declaration adds or updates the state
 * of its uid, first touch in a pass adopts the declaration, later ones must agree with it.
 */
module Primings {
  import opened Wrappers
  import opened Types
  import opened ResourceUids
  import opened ResourceStates
  import opened Sorting
  import opened Substitution

  /** What priming has built so far: the resources, the uids primed in this pass, the guids used. */
  datatype Priming<RX> = Priming(resources: map<ResourceUid, ResourceState<RX>>, primed: set<ResourceUid>, created: nat)

  /** One iteration of the inner loop of WithPrimedResources: priming one declaration. */
  function Prime<RX>(p: Priming<RX>, d: Decl, guids: nat -> string, zero: RX): (r: Result<Priming<RX>>)
    requires d.uid in p.resources || WellFormed(d.uid)
    ensures r.Ok? ==> r.value.resources.Keys == p.resources.Keys + {d.uid}
  {
    var uid := d.uid;
    if uid !in p.resources then
      var entry := ResourceState(guids(p.created), Type(uid), Class(uid), Id(uid), d.res.metadata,
                                 d.res.params, d.workload, "", map[], map[], None, zero);
      Ok(Priming(p.resources[uid := entry], p.primed + {uid}, p.created + 1))
    else if uid !in p.primed then
      var e := p.resources[uid];
      var e' := e.(metadata := d.res.metadata, params := d.res.params, sourceWorkload := d.workload);
      Ok(p.(resources := p.resources[uid := e'], primed := p.primed + {uid}))
    else
      var m := Merge(p.resources[uid], d);
      if m.Err? then Err(m.error) else Ok(p.(resources := p.resources[uid := m.value]))
  }

  /**
   * A repeated declaration d of the uid of e: non-nil params that differ from e's non-nil
   * params are an error, and so is differing metadata; otherwise d's non-nil parts replace e's.
   */
  function Merge<RX>(e: ResourceState<RX>, d: Decl): Result<ResourceState<RX>>
  {
    if d.res.params.Some? && e.params.Some? && e.params != d.res.params then
      Err("resource '" + d.uid + "': multiple definitions with different params")
    else
      var e1 := if d.res.params.Some? then e.(params := d.res.params, sourceWorkload := d.workload) else e;
      if d.res.metadata.Some? && e1.metadata.Some? && e1.metadata != d.res.metadata then
        Err("resource '" + d.uid + "': multiple definitions with different metadata")
      else
        Ok(if d.res.metadata.Some? then e1.(metadata := d.res.metadata) else e1)
  }

  /** Merge fails exactly on differing non-nil params or metadata; a success keeps the rest of e. */
  lemma MergeSpec<RX>(e: ResourceState<RX>, d: Decl)
    ensures Merge(e, d).Err? <==>
      (d.res.params.Some? && e.params.Some? && e.params != d.res.params)
      || (d.res.metadata.Some? && e.metadata.Some? && e.metadata != d.res.metadata)
    ensures Merge(e, d).Ok? ==> var m := Merge(e, d).value;
      SameBut(m, e)
      && m.params == (if d.res.params.Some? then d.res.params else e.params)
      && m.metadata == (if d.res.metadata.Some? then d.res.metadata else e.metadata)
      && m.sourceWorkload == (if d.res.params.Some? then d.workload else e.sourceWorkload)
  {
  }

  /** Priming every declaration of ds in order; the first conflict stops the pass. */
  function PrimeAll<RX>(p: Priming<RX>, ds: seq<Decl>, guids: nat -> string, zero: RX): Result<Priming<RX>>
    requires Shaped(p.resources.Keys, ds)
    decreases |ds|
  {
    if |ds| == 0 then Ok(p)
    else
      var q := Prime(p, ds[0], guids, zero);
      assert forall d | d in ds[1..] :: d in ds;
      if q.Err? then q else PrimeAll(q.value, ds[1..], guids, zero)
  }

  /**
   * Every declaration of ds whose uid is not among keys has a well-formed uid: the uid
   * accessors run only when priming creates an entry.
   */
  predicate Shaped(keys: set<ResourceUid>, ds: seq<Decl>)
  {
    forall d | d in ds :: d.uid in keys || WellFormed(d.uid)
  }

  /** The uids of the declarations ds. */
  function Uids(ds: seq<Decl>): set<ResourceUid>
  {
    set d | d in ds :: d.uid
  }

  lemma UidsSnoc(ds: seq<Decl>, d: Decl)
    ensures Uids(ds + [d]) == Uids(ds) + {d.uid}
  {
    assert forall x :: x in ds + [d] <==> x in ds || x == d;
  }

  /** Two declarations of one uid that disagree on non-nil params or on non-nil metadata. */
  predicate Clash(a: Decl, b: Decl)
  {
    a.uid == b.uid
    && ((a.res.params.Some? && b.res.params.Some? && a.res.params != b.res.params)
        || (a.res.metadata.Some? && b.res.metadata.Some? && a.res.metadata != b.res.metadata))
  }

  /** Some two declarations of ds clash. */
  predicate Conflicting(ds: seq<Decl>)
  {
    exists a, b | a in ds && b in ds :: Clash(a, b)
  }

  lemma ConflictingSnoc(ds: seq<Decl>, d: Decl)
    ensures Conflicting(ds + [d]) <==> Conflicting(ds) || exists a | a in ds :: Clash(a, d)
  {
    assert forall x :: x in ds + [d] <==> x in ds || x == d;
    if Conflicting(ds + [d]) && !Conflicting(ds) {
      var a, b :| a in ds + [d] && b in ds + [d] && Clash(a, b);
      if b == d {
        assert a in ds;
      } else {
        assert b in ds && a == d && Clash(b, d);
      }
    }
  }

  /** a is b with at most its metadata, params and source workload changed. */
  ghost predicate SameBut<RX>(a: ResourceState<RX>, b: ResourceState<RX>)
  {
    a == b.(metadata := a.metadata, params := a.params, sourceWorkload := a.sourceWorkload)
  }

  /** r is a state priming made for uid: the uid's accessors, no provisioner, empty state and outputs. */
  ghost predicate NewEntry<RX>(r: ResourceState<RX>, uid: ResourceUid, zero: RX)
    requires WellFormed(uid)
  {
    r.resType == Type(uid) && r.resClass == Class(uid) && r.id == Id(uid) && r.provisionerUri == ""
    && r.state == map[] && r.outputs == map[] && r.outputLookupFunc.None? && r.extras == zero
  }

  /** The declared uids are added to the resources and are the ones primed. */
  ghost predicate PrimedKeys<RX>(p0: Priming<RX>, done: seq<Decl>, p: Priming<RX>)
  {
    p.resources.Keys == p0.resources.Keys + Uids(done) && p.primed == Uids(done)
  }

  /** Undeclared entries are untouched; declared existing ones keep all but metadata, params and source. */
  ghost predicate PrimedKept<RX>(p0: Priming<RX>, done: seq<Decl>, p: Priming<RX>)
    requires PrimedKeys(p0, done, p)
  {
    (forall u | u in p0.resources && u !in Uids(done) :: p.resources[u] == p0.resources[u])
    && (forall u | u in p0.resources :: SameBut(p.resources[u], p0.resources[u]))
  }

  /** Entries created by priming start from the uid's accessors and are otherwise empty. */
  ghost predicate PrimedNew<RX>(p0: Priming<RX>, done: seq<Decl>, p: Priming<RX>, zero: RX)
    requires PrimedKeys(p0, done, p)
  {
    forall u | u in Uids(done) && u !in p0.resources :: WellFormed(u) && NewEntry(p.resources[u], u, zero)
  }

  /** Every non-nil params of a declaration is the one its uid ends up with. */
  ghost predicate ParamsAdopted<RX>(done: seq<Decl>, p: Priming<RX>)
    requires Uids(done) <= p.resources.Keys
  {
    forall d | d in done && d.res.params.Some? :: p.resources[d.uid].params == d.res.params
  }

  /** Every non-nil metadata of a declaration is the one its uid ends up with. */
  ghost predicate MetadataAdopted<RX>(done: seq<Decl>, p: Priming<RX>)
    requires Uids(done) <= p.resources.Keys
  {
    forall d | d in done && d.res.metadata.Some? :: p.resources[d.uid].metadata == d.res.metadata
  }

  /** A declared uid's non-nil params come from one of its declarations. */
  ghost predicate ParamsSourced<RX>(done: seq<Decl>, p: Priming<RX>)
    requires Uids(done) <= p.resources.Keys
  {
    forall u | u in Uids(done) && p.resources[u].params.Some? ::
      exists d | d in done && d.uid == u :: d.res.params == p.resources[u].params
  }

  /** A declared uid's non-nil metadata comes from one of its declarations. */
  ghost predicate MetadataSourced<RX>(done: seq<Decl>, p: Priming<RX>)
    requires Uids(done) <= p.resources.Keys
  {
    forall u | u in Uids(done) && p.resources[u].metadata.Some? ::
      exists d | d in done && d.uid == u :: d.res.metadata == p.resources[u].metadata
  }

  /**
   * The workload a uid is sourced from after the declarations done: that of the last
   * declaration of u that is either u's first declaration or carries params (None when done
   * does not declare u).
   */
  function Owner(done: seq<Decl>, u: ResourceUid): Option<string>
    decreases |done|
  {
    if |done| == 0 then None
    else
      var d := done[|done| - 1];
      var init := done[..|done| - 1];
      if d.uid == u && (d.res.params.Some? || u !in Uids(init)) then Some(d.workload)
      else Owner(init, u)
  }

  lemma OwnerSnoc(done: seq<Decl>, d: Decl, u: ResourceUid)
    ensures Owner(done + [d], u) ==
      if d.uid == u && (d.res.params.Some? || u !in Uids(done)) then Some(d.workload) else Owner(done, u)
  {
    assert (done + [d])[..|done|] == done;
  }

  /** A declared uid's source workload is its Owner. */
  ghost predicate WorkloadOwned<RX>(done: seq<Decl>, p: Priming<RX>)
    requires Uids(done) <= p.resources.Keys
  {
    forall u | u in Uids(done) :: Owner(done, u) == Some(p.resources[u].sourceWorkload)
  }

  /** What priming done does to the entries: keys, untouched entries and new entries. */
  ghost predicate PrimedBase<RX>(p0: Priming<RX>, done: seq<Decl>, p: Priming<RX>, zero: RX)
  {
    PrimedKeys(p0, done, p) && PrimedKept(p0, done, p) && PrimedNew(p0, done, p, zero)
  }

  /** What the declarations done make of their uids' params, metadata and source workload. */
  ghost predicate PrimedDecls<RX>(done: seq<Decl>, p: Priming<RX>)
  {
    Uids(done) <= p.resources.Keys
    && ParamsAdopted(done, p) && MetadataAdopted(done, p)
    && ParamsSourced(done, p) && MetadataSourced(done, p) && WorkloadOwned(done, p)
  }

  /**
   * p is what priming the declarations done makes of p0: the declared uids are added and
   * primed, the other entries are untouched, existing entries keep everything but metadata,
   * params and source workload, new entries start empty, every non-nil params (metadata) of a
   * declaration is the one its uid ends up with, a non-nil one comes from some declaration,
   * and the source workload is the uid's Owner.
   */
  ghost predicate PrimedFrom<RX>(p0: Priming<RX>, done: seq<Decl>, p: Priming<RX>, zero: RX)
  {
    PrimedBase(p0, done, p, zero) && PrimedDecls(done, p)
  }

  lemma KeysUpdate<RX>(p0: Priming<RX>, done: seq<Decl>, p: Priming<RX>, d: Decl, q: Priming<RX>)
    requires PrimedKeys(p0, done, p)
    requires q.resources.Keys == p.resources.Keys + {d.uid} && q.primed == p.primed + {d.uid}
    ensures PrimedKeys(p0, done + [d], q)
  {
    UidsSnoc(done, d);
  }

  lemma KeptUpdate<RX>(p0: Priming<RX>, done: seq<Decl>, p: Priming<RX>, d: Decl, e: ResourceState<RX>, q: Priming<RX>)
    requires PrimedKeys(p0, done, p) && PrimedKept(p0, done, p) && PrimedKeys(p0, done + [d], q)
    requires q.resources == p.resources[d.uid := e]
    requires d.uid in p0.resources ==> SameBut(e, p0.resources[d.uid])
    ensures PrimedKept(p0, done + [d], q)
  {
    UidsSnoc(done, d);
  }

  lemma NewUpdate<RX>(p0: Priming<RX>, done: seq<Decl>, p: Priming<RX>, d: Decl, e: ResourceState<RX>,
                      q: Priming<RX>, zero: RX)
    requires PrimedKeys(p0, done, p) && PrimedNew(p0, done, p, zero) && PrimedKeys(p0, done + [d], q)
    requires q.resources == p.resources[d.uid := e]
    requires d.uid !in p0.resources ==> WellFormed(d.uid) && NewEntry(e, d.uid, zero)
    ensures PrimedNew(p0, done + [d], q, zero)
  {
    UidsSnoc(done, d);
  }

  /** Replacing the entry of d's uid by e keeps PrimedBase when e keeps what the old entry must keep. */
  lemma BaseUpdate<RX>(p0: Priming<RX>, done: seq<Decl>, p: Priming<RX>, d: Decl, e: ResourceState<RX>,
                       q: Priming<RX>, zero: RX)
    requires PrimedBase(p0, done, p, zero)
    requires q.resources == p.resources[d.uid := e] && q.primed == p.primed + {d.uid}
    requires d.uid in p0.resources ==> SameBut(e, p0.resources[d.uid])
    requires d.uid !in p0.resources ==> WellFormed(d.uid) && NewEntry(e, d.uid, zero)
    ensures PrimedBase(p0, done + [d], q, zero)
  {
    KeysUpdate(p0, done, p, d, q);
    KeptUpdate(p0, done, p, d, e, q);
    NewUpdate(p0, done, p, d, e, q, zero);
  }

  lemma ParamsAdoptedUpdate<RX>(done: seq<Decl>, p: Priming<RX>, d: Decl, e: ResourceState<RX>, q: Priming<RX>)
    requires Uids(done) <= p.resources.Keys && ParamsAdopted(done, p)
    requires q.resources == p.resources[d.uid := e]
    requires forall a | a in done + [d] && a.uid == d.uid && a.res.params.Some? :: e.params == a.res.params
    ensures Uids(done + [d]) <= q.resources.Keys && ParamsAdopted(done + [d], q)
  {
    UidsSnoc(done, d);
    assert forall x :: x in done + [d] <==> x in done || x == d;
  }

  lemma MetadataAdoptedUpdate<RX>(done: seq<Decl>, p: Priming<RX>, d: Decl, e: ResourceState<RX>, q: Priming<RX>)
    requires Uids(done) <= p.resources.Keys && MetadataAdopted(done, p)
    requires q.resources == p.resources[d.uid := e]
    requires forall a | a in done + [d] && a.uid == d.uid && a.res.metadata.Some? :: e.metadata == a.res.metadata
    ensures Uids(done + [d]) <= q.resources.Keys && MetadataAdopted(done + [d], q)
  {
    UidsSnoc(done, d);
    assert forall x :: x in done + [d] <==> x in done || x == d;
  }

  lemma ParamsSourcedUpdate<RX>(done: seq<Decl>, p: Priming<RX>, d: Decl, e: ResourceState<RX>, q: Priming<RX>)
    requires Uids(done) <= p.resources.Keys && ParamsSourced(done, p)
    requires q.resources == p.resources[d.uid := e]
    requires e.params.Some? ==> exists a | a in done + [d] && a.uid == d.uid :: a.res.params == e.params
    ensures Uids(done + [d]) <= q.resources.Keys && ParamsSourced(done + [d], q)
  {
    UidsSnoc(done, d);
    forall v | v in Uids(done + [d]) && q.resources[v].params.Some?
      ensures exists a | a in done + [d] && a.uid == v :: a.res.params == q.resources[v].params
    {
      if v != d.uid {
        var a :| a in done && a.uid == v && a.res.params == p.resources[v].params;
        assert a in done + [d];
      }
    }
  }

  lemma MetadataSourcedUpdate<RX>(done: seq<Decl>, p: Priming<RX>, d: Decl, e: ResourceState<RX>, q: Priming<RX>)
    requires Uids(done) <= p.resources.Keys && MetadataSourced(done, p)
    requires q.resources == p.resources[d.uid := e]
    requires e.metadata.Some? ==> exists a | a in done + [d] && a.uid == d.uid :: a.res.metadata == e.metadata
    ensures Uids(done + [d]) <= q.resources.Keys && MetadataSourced(done + [d], q)
  {
    UidsSnoc(done, d);
    forall v | v in Uids(done + [d]) && q.resources[v].metadata.Some?
      ensures exists a | a in done + [d] && a.uid == v :: a.res.metadata == q.resources[v].metadata
    {
      if v != d.uid {
        var a :| a in done && a.uid == v && a.res.metadata == p.resources[v].metadata;
        assert a in done + [d];
      }
    }
  }

  lemma WorkloadOwnedUpdate<RX>(done: seq<Decl>, p: Priming<RX>, d: Decl, e: ResourceState<RX>, q: Priming<RX>)
    requires Uids(done) <= p.resources.Keys && WorkloadOwned(done, p)
    requires q.resources == p.resources[d.uid := e]
    requires Owner(done + [d], d.uid) == Some(e.sourceWorkload)
    ensures Uids(done + [d]) <= q.resources.Keys && WorkloadOwned(done + [d], q)
  {
    UidsSnoc(done, d);
    forall v | v in Uids(done + [d]) ensures Owner(done + [d], v) == Some(q.resources[v].sourceWorkload) {
      OwnerSnoc(done, d, v);
    }
  }

  /**
   * e is what the declarations done + [d] of d's uid demand of its entry: it holds every
   * non-nil params and metadata among them, its non-nil ones come from one of them, and its
   * source workload is the uid's Owner.
   */
  ghost predicate EntryFits<RX>(done: seq<Decl>, d: Decl, e: ResourceState<RX>)
  {
    (forall a | a in done + [d] && a.uid == d.uid && a.res.params.Some? :: e.params == a.res.params)
    && (forall a | a in done + [d] && a.uid == d.uid && a.res.metadata.Some? :: e.metadata == a.res.metadata)
    && (e.params.Some? ==> exists a | a in done + [d] && a.uid == d.uid :: a.res.params == e.params)
    && (e.metadata.Some? ==> exists a | a in done + [d] && a.uid == d.uid :: a.res.metadata == e.metadata)
    && Owner(done + [d], d.uid) == Some(e.sourceWorkload)
  }

  /** Replacing the entry of d's uid by one that fits its declarations keeps PrimedDecls. */
  lemma DeclsUpdate<RX>(done: seq<Decl>, p: Priming<RX>, d: Decl, e: ResourceState<RX>, q: Priming<RX>)
    requires PrimedDecls(done, p) && q.resources == p.resources[d.uid := e] && EntryFits(done, d, e)
    ensures PrimedDecls(done + [d], q)
  {
    ParamsAdoptedUpdate(done, p, d, e, q);
    MetadataAdoptedUpdate(done, p, d, e, q);
    ParamsSourcedUpdate(done, p, d, e, q);
    MetadataSourcedUpdate(done, p, d, e, q);
    WorkloadOwnedUpdate(done, p, d, e, q);
  }

  /** An entry taking all of d's parts fits when no earlier declaration has d's uid. */
  lemma FitsFirst<RX>(done: seq<Decl>, d: Decl, e: ResourceState<RX>)
    requires forall a | a in done :: a.uid != d.uid
    requires e.params == d.res.params && e.metadata == d.res.metadata && e.sourceWorkload == d.workload
    ensures EntryFits(done, d, e)
  {
    assert d in done + [d];
    assert forall a | a in done + [d] && a.uid == d.uid :: a == d;
    OwnerSnoc(done, d, d.uid);
  }

  lemma SameButTrans<RX>(a: ResourceState<RX>, b: ResourceState<RX>, c: ResourceState<RX>)
    requires SameBut(a, b) && SameBut(b, c)
    ensures SameBut(a, c)
  {
  }

  lemma UidsMember(ds: seq<Decl>, a: Decl)
    requires a in ds
    ensures a.uid in Uids(ds)
  {
  }

  /** No earlier declaration has a uid outside Uids(done). */
  lemma NotDeclared(done: seq<Decl>, d: Decl)
    requires d.uid !in Uids(done)
    ensures forall a | a in done :: a.uid != d.uid && !Clash(a, d)
  {
    forall a | a in done ensures a.uid != d.uid {
      UidsMember(done, a);
    }
  }

  /** What Prime makes of a declaration whose uid has no entry yet. */
  lemma CreatesValue<RX>(p: Priming<RX>, d: Decl, guids: nat -> string, zero: RX)
    requires WellFormed(d.uid) && d.uid !in p.resources
    ensures Prime(p, d, guids, zero).Ok?
    ensures var q := Prime(p, d, guids, zero).value; var e := q.resources[d.uid];
      q.resources == p.resources[d.uid := e] && q.primed == p.primed + {d.uid} && q.created == p.created + 1
      && NewEntry(e, d.uid, zero) && e.guid == guids(p.created)
      && e.params == d.res.params && e.metadata == d.res.metadata && e.sourceWorkload == d.workload
  {
  }

  /** What Prime makes of the first declaration of an existing uid in this pass. */
  lemma AdoptsValue<RX>(p: Priming<RX>, d: Decl, guids: nat -> string, zero: RX)
    requires d.uid in p.resources && d.uid !in p.primed
    ensures Prime(p, d, guids, zero).Ok?
    ensures var q := Prime(p, d, guids, zero).value; var e := q.resources[d.uid];
      q.resources == p.resources[d.uid := e] && q.primed == p.primed + {d.uid} && q.created == p.created
      && SameBut(e, p.resources[d.uid])
      && e.params == d.res.params && e.metadata == d.res.metadata && e.sourceWorkload == d.workload
  {
  }

  /** What Prime makes of a repeated declaration in this pass. */
  lemma MergesValue<RX>(p: Priming<RX>, d: Decl, guids: nat -> string, zero: RX)
    requires d.uid in p.resources && d.uid in p.primed
    ensures var m := Merge(p.resources[d.uid], d);
      Prime(p, d, guids, zero).Err? <==> m.Err?
    ensures var m := Merge(p.resources[d.uid], d);
      m.Ok? ==> Prime(p, d, guids, zero).value == p.(resources := p.resources[d.uid := m.value])
  {
  }

  /** Priming a declaration whose uid has no entry yet creates a new entry. */
  lemma PrimeCreates<RX>(p0: Priming<RX>, done: seq<Decl>, p: Priming<RX>, d: Decl, guids: nat -> string, zero: RX)
    requires PrimedFrom(p0, done, p, zero) && WellFormed(d.uid) && d.uid !in p.resources
    ensures Prime(p, d, guids, zero).Ok?
    ensures !exists a | a in done :: Clash(a, d)
    ensures PrimedFrom(p0, done + [d], Prime(p, d, guids, zero).value, zero)
  {
    CreatesValue(p, d, guids, zero);
    var q := Prime(p, d, guids, zero).value;
    var e := q.resources[d.uid];
    NotDeclared(done, d);
    FitsFirst(done, d, e);
    BaseUpdate(p0, done, p, d, e, q, zero);
    DeclsUpdate(done, p, d, e, q);
  }

  /** Priming the first declaration of an existing uid in this pass overwrites its declared parts. */
  lemma PrimeAdopts<RX>(p0: Priming<RX>, done: seq<Decl>, p: Priming<RX>, d: Decl, guids: nat -> string, zero: RX)
    requires PrimedFrom(p0, done, p, zero) && d.uid in p.resources && d.uid !in p.primed
    ensures Prime(p, d, guids, zero).Ok?
    ensures !exists a | a in done :: Clash(a, d)
    ensures PrimedFrom(p0, done + [d], Prime(p, d, guids, zero).value, zero)
  {
    AdoptsValue(p, d, guids, zero);
    var q := Prime(p, d, guids, zero).value;
    var e := q.resources[d.uid];
    NotDeclared(done, d);
    FitsFirst(done, d, e);
    SameButTrans(e, p.resources[d.uid], p0.resources[d.uid]);
    BaseUpdate(p0, done, p, d, e, q, zero);
    DeclsUpdate(done, p, d, e, q);
  }

  /** Merging d into its uid's entry fails exactly when d clashes with an earlier declaration. */
  lemma MergeClash<RX>(done: seq<Decl>, p: Priming<RX>, d: Decl)
    requires PrimedDecls(done, p) && d.uid in Uids(done)
    ensures Merge(p.resources[d.uid], d).Err? <==> exists a | a in done :: Clash(a, d)
  {
    var e := p.resources[d.uid];
    MergeSpec(e, d);
    if d.res.params.Some? && e.params.Some? && e.params != d.res.params {
      var a :| a in done && a.uid == d.uid && a.res.params == e.params;
      assert Clash(a, d);
    } else if d.res.metadata.Some? && e.metadata.Some? && e.metadata != d.res.metadata {
      var a :| a in done && a.uid == d.uid && a.res.metadata == e.metadata;
      assert Clash(a, d);
    } else {
      forall a | a in done ensures !Clash(a, d) {
      }
    }
  }

  /** A successful merge fits the declarations. */
  lemma MergeFits<RX>(done: seq<Decl>, p: Priming<RX>, d: Decl, m: ResourceState<RX>)
    requires PrimedDecls(done, p) && d.uid in Uids(done) && Merge(p.resources[d.uid], d) == Ok(m)
    ensures EntryFits(done, d, m)
  {
    var e := p.resources[d.uid];
    MergeSpec(e, d);
    assert d in done + [d];
    assert forall a | a in done + [d] :: a in done || a == d;
    if m.params.Some? && d.res.params.None? {
      var a :| a in done && a.uid == d.uid && a.res.params == e.params;
      assert a in done + [d];
    }
    if m.metadata.Some? && d.res.metadata.None? {
      var a :| a in done && a.uid == d.uid && a.res.metadata == e.metadata;
      assert a in done + [d];
    }
    OwnerSnoc(done, d, d.uid);
  }

  /** A successful merge changes only metadata, params and source workload. */
  lemma MergeSameBut<RX>(e: ResourceState<RX>, d: Decl)
    requires Merge(e, d).Ok?
    ensures SameBut(Merge(e, d).value, e)
  {
  }

  /** Replacing the entry of a uid primed in this pass by one that fits keeps PrimedFrom. */
  lemma RepeatKeeps<RX>(p0: Priming<RX>, done: seq<Decl>, p: Priming<RX>, d: Decl, m: ResourceState<RX>,
                        q: Priming<RX>, zero: RX)
    requires PrimedFrom(p0, done, p, zero) && d.uid in p.primed
    requires SameBut(m, p.resources[d.uid]) && EntryFits(done, d, m)
    requires q == p.(resources := p.resources[d.uid := m])
    ensures PrimedFrom(p0, done + [d], q, zero)
  {
    assert q.primed == p.primed + {d.uid};
    if d.uid in p0.resources {
      SameButTrans(m, p.resources[d.uid], p0.resources[d.uid]);
    }
    BaseUpdate(p0, done, p, d, m, q, zero);
    DeclsUpdate(done, p, d, m, q);
  }

  /** A repeated declaration in this pass is an error exactly when it clashes with an earlier one. */
  lemma PrimeMerges<RX>(p0: Priming<RX>, done: seq<Decl>, p: Priming<RX>, d: Decl, guids: nat -> string, zero: RX)
    requires PrimedFrom(p0, done, p, zero) && d.uid in p.primed
    ensures Prime(p, d, guids, zero).Err? <==> exists a | a in done :: Clash(a, d)
    ensures Prime(p, d, guids, zero).Ok? ==> PrimedFrom(p0, done + [d], Prime(p, d, guids, zero).value, zero)
  {
    MergesValue(p, d, guids, zero);
    MergeClash(done, p, d);
    var m := Merge(p.resources[d.uid], d);
    if m.Ok? {
      MergeSameBut(p.resources[d.uid], d);
      MergeFits(done, p, d, m.value);
      RepeatKeeps(p0, done, p, d, m.value, p.(resources := p.resources[d.uid := m.value]), zero);
    }
  }

  /** One step of priming keeps PrimedFrom, and fails exactly on a clash with an earlier declaration. */
  lemma PrimeStep<RX>(p0: Priming<RX>, done: seq<Decl>, p: Priming<RX>, d: Decl, guids: nat -> string, zero: RX)
    requires PrimedFrom(p0, done, p, zero) && (d.uid in p.resources || WellFormed(d.uid))
    ensures Prime(p, d, guids, zero).Err? <==> exists a | a in done :: Clash(a, d)
    ensures Prime(p, d, guids, zero).Ok? ==> PrimedFrom(p0, done + [d], Prime(p, d, guids, zero).value, zero)
  {
    if d.uid !in p.resources {
      PrimeCreates(p0, done, p, d, guids, zero);
    } else if d.uid !in p.primed {
      PrimeAdopts(p0, done, p, d, guids, zero);
    } else {
      PrimeMerges(p0, done, p, d, guids, zero);
    }
  }

  /** Priming the rest of the declarations after done fails exactly when done + rest has a clash. */
  lemma {:induction false} PrimeRest<RX>(p0: Priming<RX>, done: seq<Decl>, p: Priming<RX>, rest: seq<Decl>,
                                         guids: nat -> string, zero: RX)
    requires PrimedFrom(p0, done, p, zero) && !Conflicting(done)
    requires Shaped(p.resources.Keys, rest)
    ensures PrimeAll(p, rest, guids, zero).Err? <==> Conflicting(done + rest)
    ensures PrimeAll(p, rest, guids, zero).Ok? ==> PrimedFrom(p0, done + rest, PrimeAll(p, rest, guids, zero).value, zero)
    decreases |rest|
  {
    if |rest| == 0 {
      assert done + rest == done;
    } else {
      var d := rest[0];
      assert done + rest == (done + [d]) + rest[1..];
      assert forall x | x in rest[1..] :: x in rest;
      PrimeStep(p0, done, p, d, guids, zero);
      ConflictingSnoc(done, d);
      var q := Prime(p, d, guids, zero);
      if q.Err? {
        var a :| a in done && Clash(a, d);
        assert a in done + rest && d in done + rest;
      } else {
        PrimeRest(p0, done + [d], q.value, rest[1..], guids, zero);
      }
    }
  }

  /**
   * Priming ds from p0 with an empty primed set fails exactly when two declarations of one
   * uid disagree on non-nil params or metadata; a success is PrimedFrom(p0, ds, ...).
   */
  lemma PrimeAllSpec<RX>(p0: Priming<RX>, ds: seq<Decl>, guids: nat -> string, zero: RX)
    requires p0.primed == {} && Shaped(p0.resources.Keys, ds)
    ensures PrimeAll(p0, ds, guids, zero).Err? <==> Conflicting(ds)
    ensures PrimeAll(p0, ds, guids, zero).Ok? ==> PrimedFrom(p0, ds, PrimeAll(p0, ds, guids, zero).value, zero)
  {
    assert Uids([]) == {};
    assert [] + ds == ds;
    PrimeRest(p0, [], p0, ds, guids, zero);
  }

  /** The owner of a declared uid is one of its declaring workloads. */
  lemma {:induction false} OwnerDeclares(done: seq<Decl>, u: ResourceUid)
    requires u in Uids(done)
    ensures Owner(done, u).Some?
    ensures exists d | d in done && d.uid == u :: d.workload == Owner(done, u).value
    decreases |done|
  {
    var k := |done| - 1;
    var init := done[..k];
    assert done == init + [done[k]];
    UidsSnoc(init, done[k]);
    if !(done[k].uid == u && (done[k].res.params.Some? || u !in Uids(init))) {
      OwnerDeclares(init, u);
      var a :| a in init && a.uid == u && a.workload == Owner(init, u).value;
      assert a in done;
    }
  }

  /** The first declaration of a declared uid. */
  lemma {:induction false} FirstDecl(ds: seq<Decl>, u: ResourceUid) returns (i: nat)
    requires u in Uids(ds)
    ensures i < |ds| && ds[i].uid == u && forall j | 0 <= j < i :: ds[j].uid != u
    decreases |ds|
  {
    if ds[0].uid == u {
      i := 0;
    } else {
      var a :| a in ds && a.uid == u;
      assert a in ds[1..] by {
        var k :| 0 <= k < |ds| && ds[k] == a;
        assert ds[1..][k - 1] == a;
      }
      var k := FirstDecl(ds[1..], u);
      i := k + 1;
      assert forall j | 1 <= j < i :: ds[j] == ds[1..][j - 1];
    }
  }

  /** When no declaration of a uid carries params, its owner is its first declaration. */
  lemma {:induction false} OwnerFirst(done: seq<Decl>, i: nat)
    requires i < |done| && forall j | 0 <= j < i :: done[j].uid != done[i].uid
    requires forall a | a in done && a.uid == done[i].uid :: a.res.params.None?
    ensures Owner(done, done[i].uid) == Some(done[i].workload)
    decreases |done|
  {
    var u := done[i].uid;
    var k := |done| - 1;
    var init := done[..k];
    if k == i {
      forall a | a in init ensures a.uid != u {
        var j :| 0 <= j < k && init[j] == a;
      }
    } else {
      assert init[i] == done[i] && init[i] in init;
      assert done[k] in done;
      assert forall j | 0 <= j < i :: init[j] == done[j];
      assert forall a | a in init :: a in done;
      OwnerFirst(init, i);
    }
  }

  /** After a successful pass over ds, every declared uid is sourced from its Owner. */
  lemma PrimedSource<RX>(p0: Priming<RX>, ds: seq<Decl>, guids: nat -> string, zero: RX, d: Decl)
    requires p0.primed == {} && Shaped(p0.resources.Keys, ds)
    requires PrimeAll(p0, ds, guids, zero).Ok? && d in ds
    ensures d.uid in PrimeAll(p0, ds, guids, zero).value.resources
    ensures Owner(ds, d.uid) == Some(PrimeAll(p0, ds, guids, zero).value.resources[d.uid].sourceWorkload)
  {
    PrimeAllSpec(p0, ds, guids, zero);
    UidsMember(ds, d);
  }

  /**
   * After priming the declarations of ws in visiting order, a uid none of whose declarations
   * carries params is sourced from the least of its declaring workloads.
   */
  lemma SourceLeast<WX, RX>(ws: map<string, WorkloadState<WX>>, p0: Priming<RX>, guids: nat -> string,
                            zero: RX, d: Decl)
    requires p0.primed == {} && Shaped(p0.resources.Keys, Decls(ws))
    requires PrimeAll(p0, Decls(ws), guids, zero).Ok? && d in Decls(ws)
    requires forall a | a in Decls(ws) && a.uid == d.uid :: a.res.params.None?
    ensures d.uid in PrimeAll(p0, Decls(ws), guids, zero).value.resources
    ensures var src := PrimeAll(p0, Decls(ws), guids, zero).value.resources[d.uid].sourceWorkload;
      (exists a | a in Decls(ws) && a.uid == d.uid :: a.workload == src)
      && forall a | a in Decls(ws) && a.uid == d.uid :: Below(src, a.workload)
  {
    var ds := Decls(ws);
    PrimedSource(p0, ds, guids, zero, d);
    UidsMember(ds, d);
    var i := FirstDecl(ds, d.uid);
    OwnerFirst(ds, i);
    DeclsOrdered(ws);
    BelowRefl(ds[i].workload);
    assert ds[i] in ds;
    forall a | a in ds && a.uid == d.uid ensures Below(ds[i].workload, a.workload) {
      var j :| 0 <= j < |ds| && ds[j] == a;
      if j != i {
        assert i < j;
        assert Below(ds[i].workload, ds[j].workload);
      }
    }
  }

  /** Priming d and then rest. */
  lemma PrimeAllCons<RX>(p: Priming<RX>, d: Decl, rest: seq<Decl>, guids: nat -> string, zero: RX)
    requires Shaped(p.resources.Keys, [d] + rest)
    ensures d.uid in p.resources || WellFormed(d.uid)
    ensures Prime(p, d, guids, zero).Ok? ==> Shaped(Prime(p, d, guids, zero).value.resources.Keys, rest)
    ensures PrimeAll(p, [d] + rest, guids, zero) ==
      var q := Prime(p, d, guids, zero); if q.Err? then q else PrimeAll(q.value, rest, guids, zero)
  {
    assert ([d] + rest)[0] == d && ([d] + rest)[1..] == rest;
  }

  /**
   * The outer loop of WithPrimedResources: priming the declarations of workloads names in
   * turn, stopping at the first error.
   */
  method PrimeWorkloads<WX, RX>(p: Priming<RX>, ws: map<string, WorkloadState<WX>>, names: seq<string>,
                                guids: nat -> string, zero: RX)
    returns (q: Result<Priming<RX>>)
    requires forall n | n in names :: n in ws
    requires Shaped(p.resources.Keys, DeclsFrom(ws, names))
    ensures q == PrimeAll(p, DeclsFrom(ws, names), guids, zero)
  {
    ghost var spec := PrimeAll(p, DeclsFrom(ws, names), guids, zero);
    var cur := p;
    assert names[0..] == names;
    for i := 0 to |names|
      invariant Shaped(cur.resources.Keys, DeclsFrom(ws, names[i..]))
      invariant spec == PrimeAll(cur, DeclsFrom(ws, names[i..]), guids, zero)
    {
      var w := names[i];
      var rs := ws[w].spec.resources;
      var rnames := SortedStringMapKeys(rs);
      ghost var after := DeclsFrom(ws, names[i + 1..]);
      DeclsSuffix(ws, names, i);
      DeclsSplit(ws, names, i, cur.resources.Keys);
      var step := PrimeDecls(cur, w, rs, rnames, after, guids, zero);
      if step.Err? {
        return step;
      }
      cur := step.value;
    }
    assert names[|names|..] == [];
    return Ok(cur);
  }

  /** The declarations from resource j of rnames on, followed by after, as a head and a tail. */
  lemma DeclsAfter(w: string, rs: map<string, Resource>, rnames: seq<string>, j: nat, after: seq<Decl>)
    requires forall n | n in rnames :: n in rs
    requires j < |rnames|
    ensures DeclsOf(w, rs, rnames[j..]) + after == [DeclOf(w, rnames[j], rs[rnames[j]])] + (DeclsOf(w, rs, rnames[j + 1..]) + after)
  {
    DeclsOfSuffix(w, rs, rnames, j);
    var d, rest := DeclOf(w, rnames[j], rs[rnames[j]]), DeclsOf(w, rs, rnames[j + 1..]);
    AppendAssoc([d], rest, after);
  }

  /**
   * The inner loop of WithPrimedResources: priming the resources rnames of workload w in
   * turn, stopping at the first error; after stands for the declarations still to come.
   */
  method PrimeDecls<RX>(p: Priming<RX>, w: string, rs: map<string, Resource>, rnames: seq<string>,
                        ghost after: seq<Decl>, guids: nat -> string, zero: RX)
    returns (q: Result<Priming<RX>>)
    requires forall n | n in rnames :: n in rs
    requires Shaped(p.resources.Keys, DeclsOf(w, rs, rnames) + after)
    ensures q.Ok? ==> p.resources.Keys <= q.value.resources.Keys && Shaped(q.value.resources.Keys, after)
    ensures var all := PrimeAll(p, DeclsOf(w, rs, rnames) + after, guids, zero);
      if q.Err? then all == q else all == PrimeAll(q.value, after, guids, zero)
  {
    ghost var spec := PrimeAll(p, DeclsOf(w, rs, rnames) + after, guids, zero);
    var cur := p;
    for j := 0 to |rnames|
      invariant p.resources.Keys <= cur.resources.Keys
      invariant Shaped(cur.resources.Keys, DeclsOf(w, rs, rnames[j..]) + after)
      invariant spec == PrimeAll(cur, DeclsOf(w, rs, rnames[j..]) + after, guids, zero)
    {
      var d := DeclOf(w, rnames[j], rs[rnames[j]]);
      ghost var rest := DeclsOf(w, rs, rnames[j + 1..]) + after;
      DeclsAfter(w, rs, rnames, j, after);
      PrimeAllCons(cur, d, rest, guids, zero);
      var step := PrimeResource(cur, d, guids, zero);
      if step.Err? {
        return Err(step.error);
      }
      cur := step.value;
    }
    assert rnames[|rnames|..] == [];
    assert DeclsOf(w, rs, []) + after == after;
    return Ok(cur);
  }

  /**
   * One iteration of the inner loop of WithPrimedResources on declaration d: a new
   * uid gets a fresh entry, the first touch in the pass adopts the declaration, a later touch
   * checks params and then metadata against the adopted ones.
   */
  method PrimeResource<RX>(p: Priming<RX>, d: Decl, guids: nat -> string, zero: RX)
    returns (q: Result<Priming<RX>>)
    requires d.uid in p.resources || WellFormed(d.uid)
    ensures q == Prime(p, d, guids, zero)
  {
    var uid := d.uid;
    var res := p.resources;
    if uid !in res {
      res := res[uid := ResourceState(guids(p.created), Type(uid), Class(uid), Id(uid), d.res.metadata,
                                      d.res.params, d.workload, "", map[], map[], None, zero)];
      return Ok(Priming(res, p.primed + {uid}, p.created + 1));
    } else if uid !in p.primed {
      var existing := res[uid];
      res := res[uid := existing.(metadata := d.res.metadata, params := d.res.params, sourceWorkload := d.workload)];
      return Ok(p.(resources := res, primed := p.primed + {uid}));
    }
    MergesValue(p, d, guids, zero);
    var merged := MergeResource(res[uid], d);
    if merged.Err? {
      return Err(merged.error);
    }
    return Ok(p.(resources := res[uid := merged.value]));
  }

  /** The repeated-declaration branch: params are checked and merged first, then metadata. */
  method MergeResource<RX>(existing: ResourceState<RX>, d: Decl) returns (r: Result<ResourceState<RX>>)
    ensures r == Merge(existing, d)
  {
    var e := existing;
    if d.res.params.Some? {
      if e.params.Some? && e.params != d.res.params {
        return Err("resource '" + d.uid + "': multiple definitions with different params");
      }
      e := e.(params := d.res.params, sourceWorkload := d.workload);
    }
    if d.res.metadata.Some? {
      if e.metadata.Some? && e.metadata != d.res.metadata {
        return Err("resource '" + d.uid + "': multiple definitions with different metadata");
      }
      e := e.(metadata := d.res.metadata);
    }
    return Ok(e);
  }
}

/** The four entry points of the routes manager. `create` runs a reconcile
    pass against no remote routes; `update` and `cleanup` list the remote
    routes first and reconcile them against the desired routes or against
    none; `remove` lists them and deletes only those that would outlive
    the router's listeners. */
module Manager {
  import opened Wrappers
  import opened Types
  import opened Order
  import opened Index
  import opened Matcher
  import opened Taint
  import Remote
  import opened Reconciler

  /** A listing that succeeds names exactly the remote routes. */
  lemma ListedNames(env: Env, st: Plane)
    requires Remote.List(env, st).result.Success?
    ensures RefNames(Remote.List(env, st).result.value) == st.records.Keys
  {
    KeySetFromProject(Remote.List(env, st).result.value, RefName, st.records.Keys);
  }

  /** With nothing listed, every desired route is desired-only. */
  lemma NothingListed(routes: seq<Route>)
    ensures MatchRoutes(routes, []).matched == [] && MatchRoutes(routes, []).observedOnly == []
  {
    var m := MatchRoutes(routes, []);
    assert RefNames([]) == {};
    MatchedNameSet(routes, []);
    ObservedOnlyNameSet(routes, []);
    EmptyKeySet(m.matched, PairName);
    EmptyKeySet(m.observedOnly, RefName);
  }

  /** With nothing desired, every listed reference is observed-only. */
  lemma NothingDesired(refs: seq<RouteRef>)
    ensures MatchRoutes([], refs).matched == [] && MatchRoutes([], refs).desiredOnly == []
  {
    var m := MatchRoutes([], refs);
    assert RouteNames([]) == {};
    MatchedNameSet([], refs);
    DesiredOnlyNameSet([], refs);
    EmptyKeySet(m.matched, PairName);
    EmptyKeySet(m.desiredOnly, RouteName);
  }

  // ---------------------------------------------------------------------
  // create

  /** `create`: a reconcile pass with no listed routes. It succeeds only if
      none of the desired names was remote; then the remote names grow by
      exactly the desired ones, and the result has exactly those names. */
  function Create(env: Env, build: Builder, table: BackendTable, st: Plane, routes: seq<Route>)
    : (s: Step<map<string, RouteRecord>>)
    requires st.Valid()
    ensures s.plane.Valid()
    ensures s.result.Success? ==>
      && RouteNames(routes) !! st.records.Keys
      && s.plane.records.Keys == st.records.Keys + RouteNames(routes)
      && s.result.value.Keys == RouteNames(routes)
  {
    var s := Reconcile(env, build, table, st, routes, []);
    if s.result.Success? then
      CreateNames(env, build, table, st, routes);
      s
    else s
  }

  lemma CreateNames(env: Env, build: Builder, table: BackendTable, st: Plane, routes: seq<Route>)
    requires st.Valid()
    requires Reconcile(env, build, table, st, routes, []).result.Success?
    ensures var s := Reconcile(env, build, table, st, routes, []);
      && RouteNames(routes) !! st.records.Keys
      && s.plane.records.Keys == st.records.Keys + RouteNames(routes)
      && s.result.value.Keys == RouteNames(routes)
  {
    var s := Reconcile(env, build, table, st, routes, []);
    var rn, fn := RouteNames(routes), RefNames([]);
    assert fn == {};
    assert && (rn - fn) !! st.records.Keys
           && s.plane.records.Keys == (st.records.Keys - fn) + rn
           && s.result.value.Keys == rn by {
      ReconcileNames(env, build, table, st, routes, []);
    }
    DropNone(st.records.Keys, fn, rn);
  }

  /** Whatever its outcome, `create` only appends creates to the log. */
  lemma CreateOnlyCreates(env: Env, build: Builder, table: BackendTable, st: Plane, routes: seq<Route>)
    requires st.Valid()
    ensures var s := Create(env, build, table, st, routes);
      && st.log <= s.plane.log
      && forall c | c in s.plane.log[|st.log|..] :: c.CreateRoute?
  {
    var m := MatchRoutes(routes, []);
    NothingListed(routes);
    var c := CreateAll(env, build, table, st, m.desiredOnly, map[]);
    assert Create(env, build, table, st, routes).plane == c.plane;
    assert forall x | x in c.plane.log[|st.log|..] :: InPhase(x, Creating);
  }

  /** A `create` that succeeds leaves every desired name remote at version 1
      with the spec built from the last route of that name, returns that
      record, and leaves every route that was already remote as it was. */
  lemma CreateConverges(env: Env, build: Builder, table: BackendTable, st: Plane, routes: seq<Route>, n: string)
    requires st.Valid()
    requires Create(env, build, table, st, routes).result.Success?
    requires n in RouteNames(routes) || n in st.records
    ensures n in RouteNames(routes) ==>
      && build(LastRoute(routes, n), table).Success?
      && var s := Create(env, build, table, st, routes);
      && n in s.plane.records && n in s.result.value
      && s.plane.records[n] == RouteRecord(n, build(LastRoute(routes, n), table).value, 1)
      && s.result.value[n] == s.plane.records[n]
    ensures n in st.records ==>
      var s := Create(env, build, table, st, routes);
      n in s.plane.records && s.plane.records[n] == st.records[n]
  {
    assert RefNames([]) == {};
    if n in RouteNames(routes) {
      ReconcileConverges(env, build, table, st, routes, [], n);
    } else {
      ReconcileUntouched(env, build, table, st, routes, [], n);
    }
  }

  // ---------------------------------------------------------------------
  // update

  /** `update`: list the remote routes, then reconcile them against the
      desired routes. When it succeeds the remote names are exactly the
      desired names, and so are the result's. */
  function Update(env: Env, build: Builder, table: BackendTable, st: Plane, routes: seq<Route>)
    : (s: Step<map<string, RouteRecord>>)
    requires st.Valid()
    ensures s.plane.Valid()
    ensures s.result.Success? ==>
      && s.plane.records.Keys == RouteNames(routes)
      && s.result.value.Keys == RouteNames(routes)
  {
    var l := Remote.List(env, st);
    if l.result.Failure? then Step(Failure(l.result.error), l.plane)
    else
      var s := Reconcile(env, build, table, l.plane, routes, l.result.value);
      if s.result.Success? then
        UpdateNames(env, build, table, st, routes);
        s
      else s
  }

  lemma UpdateNames(env: Env, build: Builder, table: BackendTable, st: Plane, routes: seq<Route>)
    requires st.Valid()
    requires Remote.List(env, st).result.Success?
    requires var l := Remote.List(env, st);
      Reconcile(env, build, table, l.plane, routes, l.result.value).result.Success?
    ensures var l := Remote.List(env, st);
      var s := Reconcile(env, build, table, l.plane, routes, l.result.value);
      && s.plane.records.Keys == RouteNames(routes)
      && s.result.value.Keys == RouteNames(routes)
  {
    var l := Remote.List(env, st);
    var s := Reconcile(env, build, table, l.plane, routes, l.result.value);
    var rn, fn := RouteNames(routes), RefNames(l.result.value);
    assert fn == l.plane.records.Keys by {
      ListedNames(env, st);
    }
    assert s.plane.records.Keys == (l.plane.records.Keys - fn) + rn && s.result.value.Keys == rn by {
      ReconcileNames(env, build, table, l.plane, routes, l.result.value);
    }
    DropAll(l.plane.records.Keys, fn, rn);
  }

  /** Whatever its outcome, `update` lists first and then issues every
      create before any update and every update before any delete. */
  lemma UpdateOrdered(env: Env, build: Builder, table: BackendTable, st: Plane, routes: seq<Route>)
    requires st.Valid()
    ensures var s := Update(env, build, table, st, routes);
      && st.log + [Call.ListRoutes] <= s.plane.log
      && MutationsOrdered(s.plane.log[|st.log| + 1..])
  {
    var l := Remote.List(env, st);
    if l.result.Success? {
      ReconcileOrdered(env, build, table, l.plane, routes, l.result.value);
    }
  }

  /** An `update` that succeeds converges: every desired name is remote
      with a spec equal to the one built from its last route, the result
      returns that record, and a name that was not remote before is at
      version 1 with exactly the built spec. */
  lemma UpdateConverges(env: Env, build: Builder, table: BackendTable, st: Plane, routes: seq<Route>, n: string)
    requires st.Valid()
    requires Update(env, build, table, st, routes).result.Success?
    requires n in RouteNames(routes)
    ensures build(LastRoute(routes, n), table).Success?
    ensures var s := Update(env, build, table, st, routes);
      && n in s.plane.records && n in s.result.value
      && SpecEquiv(build(LastRoute(routes, n), table).value, s.plane.records[n].spec)
      && s.result.value[n] == s.plane.records[n]
      && (n !in st.records ==>
            s.plane.records[n] == RouteRecord(n, build(LastRoute(routes, n), table).value, 1))
  {
    var l := Remote.List(env, st);
    ListedNames(env, st);
    ReconcileConverges(env, build, table, l.plane, routes, l.result.value, n);
  }

  /** The remote records already hold, for each pair, a spec equal to the
      one built from the pair's route. */
  predicate InSync(build: Builder, table: BackendTable, records: map<string, RouteRecord>, ps: seq<Pair>) {
    forall p | p in ps ::
      && p.ref.name in records
      && build(p.route, table).Success?
      && SpecEquiv(build(p.route, table).value, records[p.ref.name].spec)
  }

  /** With no call failing, a pair already in sync is described and left
      alone: no update is issued and its remote record is returned. */
  lemma SyncMatchedQuiet(env: Env, build: Builder, table: BackendTable, st: Plane, p: Pair)
    requires st.Valid() && NoFaults(env)
    requires InSync(build, table, st.records, [p])
    ensures SyncMatched(env, build, table, st, p)
      == Step(Success(st.records[p.ref.name]), Plane(st.records, st.log + [Call.DescribeRoute(p.ref.name)]))
  {
    assert p in [p];
    assert env.fault(Call.DescribeRoute(p.ref.name)).None?;
  }

  /** With no call failing, a sync batch over pairs already in sync
      succeeds, changes no record and issues only describes. */
  lemma {:induction false} UpdateAllQuiet(env: Env, build: Builder, table: BackendTable, st: Plane,
                                           ps: seq<Pair>, acc: map<string, RouteRecord>)
    requires st.Valid() && NoFaults(env)
    requires InSync(build, table, st.records, ps)
    ensures var u := UpdateAll(env, build, table, st, ps, acc);
      && u.result.Success?
      && u.plane.records == st.records
      && forall c | c in u.plane.log[|st.log|..] :: c.DescribeRoute?
    decreases |ps|
  {
    if ps != [] {
      var p := ps[0];
      assert InSync(build, table, st.records, [p]);
      SyncMatchedQuiet(env, build, table, st, p);
      var u0 := SyncMatched(env, build, table, st, p);
      var acc' := acc[p.route.name := u0.result.value];
      assert InSync(build, table, u0.plane.records, ps[1..]) by {
        assert forall q | q in ps[1..] :: q in ps;
      }
      UpdateAllQuiet(env, build, table, u0.plane, ps[1..], acc');
      var t := UpdateAll(env, build, table, u0.plane, ps[1..], acc');
      assert UpdateAll(env, build, table, st, ps, acc) == t;
      PrefixSplit(st.log, u0.plane.log, t.plane.log);
    }
  }

  /** The route a matched pair carries is the last desired route of its
      name. */
  lemma MatchedIsLast(routes: seq<Route>, refs: seq<RouteRef>, p: Pair)
    requires p in MatchRoutes(routes, refs).matched
    ensures p.route.name in RouteNames(routes) && p.ref.name == p.route.name
    ensures p.route == LastRoute(routes, p.route.name)
  {
  }

  /** Every desired name is remote with a spec equal to the one built
      from the last route of that name. */
  predicate Converged(build: Builder, table: BackendTable, records: map<string, RouteRecord>, routes: seq<Route>) {
    forall n | n in RouteNames(routes) ::
      && n in records
      && build(LastRoute(routes, n), table).Success?
      && SpecEquiv(build(LastRoute(routes, n), table).value, records[n].spec)
  }

  /** With no call failing, batches with nothing to create or delete and
      every pair in sync succeed without a mutation and change no
      record. */
  lemma BatchesQuiet(env: Env, build: Builder, table: BackendTable, st: Plane, m: Matching)
    requires st.Valid() && NoFaults(env)
    requires m.desiredOnly == [] && m.observedOnly == []
    requires InSync(build, table, st.records, m.matched)
    ensures var s := RunBatches(env, build, table, st, m);
      && s.result.Success?
      && s.plane.records == st.records
      && st.log <= s.plane.log
      && forall c | c in s.plane.log[|st.log|..] :: !c.IsMutation()
  {
    UpdateAllQuiet(env, build, table, st, m.matched, map[]);
    var u := UpdateAll(env, build, table, st, m.matched, map[]);
    assert RunBatches(env, build, table, st, m) == Step(Success(u.result.value), u.plane);
  }

  /** With no call failing, a reconcile pass whose listing names exactly
      the desired names, each remote with a spec equal to the one built
      from its last route, succeeds without a single mutation and changes
      no record. */
  lemma ReconcileQuiet(env: Env, build: Builder, table: BackendTable, st: Plane,
                       routes: seq<Route>, refs: seq<RouteRef>)
    requires st.Valid() && NoFaults(env)
    requires RefNames(refs) == RouteNames(routes)
    requires Converged(build, table, st.records, routes)
    ensures var s := Reconcile(env, build, table, st, routes, refs);
      && s.result.Success?
      && s.plane.records == st.records
      && st.log <= s.plane.log
      && forall c | c in s.plane.log[|st.log|..] :: !c.IsMutation()
  {
    var m := MatchRoutes(routes, refs);
    SameNamesAllMatched(routes, refs);
    assert InSync(build, table, st.records, m.matched) by {
      forall p | p in m.matched
        ensures p.ref.name in st.records && build(p.route, table).Success?
        ensures SpecEquiv(build(p.route, table).value, st.records[p.ref.name].spec)
      {
        MatchedIsLast(routes, refs, p);
      }
    }
    BatchesQuiet(env, build, table, st, m);
  }

  /** After an `update` that succeeds, the result is the remote route map
      itself. */
  lemma UpdateReturnsRemote(env: Env, build: Builder, table: BackendTable, st: Plane, routes: seq<Route>)
    requires st.Valid()
    requires Update(env, build, table, st, routes).result.Success?
    ensures var s := Update(env, build, table, st, routes);
      s.result.value == s.plane.records
  {
    var s := Update(env, build, table, st, routes);
    var result, records := s.result.value, s.plane.records;
    forall n | n in result
      ensures n in records && result[n] == records[n]
    {
      UpdateConverges(env, build, table, st, routes, n);
    }
    MapsAgree(result, records);
  }

  /** After an `update` that succeeds, every desired name is remote with a
      spec equal to the one built from its last route. */
  lemma UpdateInSync(env: Env, build: Builder, table: BackendTable, st: Plane, routes: seq<Route>)
    requires st.Valid()
    requires Update(env, build, table, st, routes).result.Success?
    ensures Converged(build, table, Update(env, build, table, st, routes).plane.records, routes)
  {
    forall n | n in RouteNames(routes)
      ensures var s := Update(env, build, table, st, routes);
        && n in s.plane.records
        && build(LastRoute(routes, n), table).Success?
        && SpecEquiv(build(LastRoute(routes, n), table).value, s.plane.records[n].spec)
    {
      UpdateConverges(env, build, table, st, routes, n);
    }
  }

  /** With no call failing, an `update` of a router whose remote routes
      are exactly the desired names, each with a spec equal to the one
      built from its last route, issues no mutation, changes no record and
      returns the remote routes. */
  lemma UpdateQuiet(env: Env, build: Builder, table: BackendTable, st: Plane, routes: seq<Route>)
    requires st.Valid() && NoFaults(env)
    requires st.records.Keys == RouteNames(routes)
    requires Converged(build, table, st.records, routes)
    ensures var s := Update(env, build, table, st, routes);
      && s.result.Success?
      && s.result.value == st.records
      && s.plane.records == st.records
      && st.log + [Call.ListRoutes] <= s.plane.log
      && forall c | c in s.plane.log[|st.log|..] :: !c.IsMutation()
  {
    UpdateUnfold(env, build, table, st, routes);
    ListedQuiet(env, build, table, st, routes);
    UpdateReturnsRemote(env, build, table, st, routes);
  }

  /** The reconcile pass inside `update` of a converged router, in terms of
      its listing. */
  lemma ListedQuiet(env: Env, build: Builder, table: BackendTable, st: Plane, routes: seq<Route>)
    requires st.Valid() && NoFaults(env)
    requires st.records.Keys == RouteNames(routes)
    requires Converged(build, table, st.records, routes)
    ensures Remote.List(env, st).result.Success?
    ensures var l := Remote.List(env, st);
      var s := Reconcile(env, build, table, l.plane, routes, l.result.value);
      && s.result.Success?
      && s.plane.records == st.records
      && st.log + [Call.ListRoutes] <= s.plane.log
      && forall c | c in s.plane.log[|st.log|..] :: !c.IsMutation()
  {
    var l := Remote.List(env, st);
    assert l.result.Success? && RefNames(l.result.value) == RouteNames(routes) by {
      assert env.fault(Call.ListRoutes).None?;
      ListedNames(env, st);
    }
    var s := Reconcile(env, build, table, l.plane, routes, l.result.value);
    ReconcileQuiet(env, build, table, l.plane, routes, l.result.value);
    ListThenQuiet(st.log, l.plane.log, s.plane.log);
  }

  /** A log that lists and then issues no mutation issues no mutation
      after the listing either. */
  lemma ListThenQuiet(a: seq<Call>, b: seq<Call>, c: seq<Call>)
    requires b == a + [Call.ListRoutes] && b <= c
    requires forall x | x in c[|b|..] :: !x.IsMutation()
    ensures a + [Call.ListRoutes] <= c
    ensures forall x | x in c[|a|..] :: !x.IsMutation()
  {
    PrefixSplit(a, b, c);
    assert b[|a|..] == [Call.ListRoutes];
  }

  /** An `update` whose listing succeeds is the reconcile pass against
      that listing. */
  lemma UpdateUnfold(env: Env, build: Builder, table: BackendTable, st: Plane, routes: seq<Route>)
    requires st.Valid()
    requires Remote.List(env, st).result.Success?
    ensures var l := Remote.List(env, st);
      Update(env, build, table, st, routes) == Reconcile(env, build, table, l.plane, routes, l.result.value)
  {
  }

  /** `update` is idempotent: with no call failing, an `update` right
      after a successful one issues no mutation, changes no record and
      returns the same routes. */
  lemma UpdateIdempotent(env: Env, build: Builder, table: BackendTable, st: Plane, routes: seq<Route>)
    requires st.Valid() && NoFaults(env)
    requires Update(env, build, table, st, routes).result.Success?
    ensures var s1 := Update(env, build, table, st, routes);
      var s2 := Update(env, build, table, s1.plane, routes);
      && s2.result.Success?
      && s2.result.value == s1.result.value
      && s2.plane.records == s1.plane.records
      && s1.plane.log + [Call.ListRoutes] <= s2.plane.log
      && forall c | c in s2.plane.log[|s1.plane.log|..] :: !c.IsMutation()
  {
    var s1 := Update(env, build, table, st, routes);
    UpdateInSync(env, build, table, st, routes);
    UpdateReturnsRemote(env, build, table, st, routes);
    UpdateQuiet(env, build, table, s1.plane, routes);
  }

  // ---------------------------------------------------------------------
  // cleanup

  /** The builder `cleanup` hands to its reconcile pass. A pass without
      desired routes builds no spec, so it is never applied. */
  function Unbuildable(route: Route, table: BackendTable): Res<RouteSpec> {
    Failure(ConversionError("no spec is built during cleanup"))
  }

  /** `cleanup`: list the remote routes, then reconcile them against no
      desired routes, so every listed route is deleted. When it succeeds
      the router has no routes left. */
  function Cleanup(env: Env, st: Plane): (s: Step<()>)
    requires st.Valid()
    ensures s.plane.Valid()
    ensures s.result.Success? ==> s.plane.records == map[]
  {
    var l := Remote.List(env, st);
    if l.result.Failure? then Step(Failure(l.result.error), l.plane)
    else
      var r := Reconcile(env, Unbuildable, map[], l.plane, [], l.result.value);
      if r.result.Failure? then Step(Failure(r.result.error), r.plane)
      else
        CleanupEmpties(env, st);
        Step(Success(()), r.plane)
  }

  lemma CleanupEmpties(env: Env, st: Plane)
    requires st.Valid()
    requires Remote.List(env, st).result.Success?
    requires var l := Remote.List(env, st);
      Reconcile(env, Unbuildable, map[], l.plane, [], l.result.value).result.Success?
    ensures var l := Remote.List(env, st);
      Reconcile(env, Unbuildable, map[], l.plane, [], l.result.value).plane.records == map[]
  {
    var l := Remote.List(env, st);
    var r := Reconcile(env, Unbuildable, map[], l.plane, [], l.result.value);
    var rn, fn := RouteNames([]), RefNames(l.result.value);
    assert rn == {};
    assert fn == l.plane.records.Keys by {
      ListedNames(env, st);
    }
    assert r.plane.records.Keys == (l.plane.records.Keys - fn) + rn by {
      ReconcileNames(env, Unbuildable, map[], l.plane, [], l.result.value);
    }
    DropAll(l.plane.records.Keys, fn, rn);
    NoKeys(r.plane.records);
  }

  /** Batches with nothing to create or sync are the delete batch alone. */
  lemma BatchesDeleteOnly(env: Env, build: Builder, table: BackendTable, st: Plane, m: Matching)
    requires st.Valid()
    requires m.desiredOnly == [] && m.matched == []
    ensures var s := RunBatches(env, build, table, st, m);
      var d := DeleteAll(env, st, m.observedOnly);
      && s.plane == d.plane
      && (s.result.Success? <==> d.result.Success?)
      && (d.result.Failure? ==> s.result.error == d.result.error)
  {
  }

  /** A `cleanup` whose listing succeeds ends as its reconcile pass does. */
  lemma CleanupUnfold(env: Env, st: Plane)
    requires st.Valid()
    requires Remote.List(env, st).result.Success?
    ensures var l := Remote.List(env, st);
      var r := Reconcile(env, Unbuildable, map[], l.plane, [], l.result.value);
      var s := Cleanup(env, st);
      && s.plane == r.plane
      && (s.result.Success? <==> r.result.Success?)
      && (r.result.Failure? ==> s.result.error == r.result.error)
  {
  }

  /** Whatever its outcome, `cleanup` lists first and then only describes
      and deletes. */
  lemma CleanupOnlyDeletes(env: Env, st: Plane)
    requires st.Valid()
    ensures var s := Cleanup(env, st);
      && st.log + [Call.ListRoutes] <= s.plane.log
      && forall c | c in s.plane.log[|st.log| + 1..] :: c.DescribeRoute? || c.DeleteRoute?
  {
    var l := Remote.List(env, st);
    if l.result.Success? {
      var r := Reconcile(env, Unbuildable, map[], l.plane, [], l.result.value);
      CleanupUnfold(env, st);
      assert l.plane.log <= r.plane.log && forall c | c in r.plane.log[|l.plane.log|..] :: c.DescribeRoute? || c.DeleteRoute? by {
        PassDeletesOnly(l.plane, env, l.result.value);
      }
      assert |l.plane.log| == |st.log| + 1;
    }
  }

  /** A reconcile pass against no desired routes only describes and
      deletes. */
  lemma PassDeletesOnly(st: Plane, env: Env, refs: seq<RouteRef>)
    requires st.Valid()
    ensures var r := Reconcile(env, Unbuildable, map[], st, [], refs);
      && st.log <= r.plane.log
      && forall c | c in r.plane.log[|st.log|..] :: c.DescribeRoute? || c.DeleteRoute?
  {
    var m := MatchRoutes([], refs);
    NothingDesired(refs);
    BatchesDeleteOnly(env, Unbuildable, map[], st, m);
    var d := DeleteAll(env, st, m.observedOnly);
    assert Reconcile(env, Unbuildable, map[], st, [], refs).plane == d.plane;
    forall c | c in d.plane.log[|st.log|..]
      ensures c.DescribeRoute? || c.DeleteRoute?
    {
      assert InPhase(c, Deleting);
    }
  }

  /** No two references carry the same name. */
  predicate DistinctNames(refs: seq<RouteRef>) {
    forall i, j | 0 <= i < j < |refs| :: refs[i].name != refs[j].name
  }

  /** With no call failing, a delete batch over distinct names that are
      all remote succeeds. */
  lemma {:induction false} DeleteAllSucceeds(env: Env, st: Plane, refs: seq<RouteRef>)
    requires st.Valid() && NoFaults(env)
    requires DistinctNames(refs)
    requires forall r | r in refs :: r.name in st.records
    ensures DeleteAll(env, st, refs).result.Success?
    decreases |refs|
  {
    if refs != [] {
      var d := RemoveObserved(env, st, refs[0]);
      assert env.fault(Call.DescribeRoute(refs[0].name)).None?;
      assert env.fault(Call.DeleteRoute(refs[0].name)).None?;
      assert refs[0] in refs;
      RemoveObservedSucceeds(env, st, refs[0]);
      forall r | r in refs[1..]
        ensures r.name in d.plane.records
      {
        var j :| 0 <= j < |refs[1..]| && refs[1..][j] == r;
        assert refs[j + 1] == r;
      }
      DeleteAllSucceeds(env, d.plane, refs[1..]);
    }
  }

  /** The faults of a route `n` deleted by someone else between the listing
      and its describe: that describe reports NotFound, and no other call
      fails. */
  ghost predicate VanishesBeforeDescribe(env: Env, n: string) {
    forall c :: env.fault(c) == if c == Call.DescribeRoute(n) then Some(NotFoundException) else None
  }

  /** A delete batch over distinct names that are all remote, one of which
      vanishes before its describe, ends with "route not found" for it. */
  lemma {:induction false} DeleteAllMeetsVanished(env: Env, st: Plane, refs: seq<RouteRef>, n: string)
    requires st.Valid() && VanishesBeforeDescribe(env, n)
    requires DistinctNames(refs)
    requires forall r | r in refs :: r.name in st.records
    requires n in KeySet(refs, RefName)
    ensures DeleteAll(env, st, refs).result == Failure(RouteNotFound(n))
    decreases |refs|
  {
    assert env.fault(Call.DescribeRoute(refs[0].name)) ==
      if refs[0].name == n then Some(NotFoundException) else None;
    if refs[0].name == n {
      RemoveObservedMissing(env, st, refs[0]);
    } else {
      var d := RemoveObserved(env, st, refs[0]);
      assert env.fault(Call.DeleteRoute(refs[0].name)).None?;
      assert refs[0] in refs;
      RemoveObservedSucceeds(env, st, refs[0]);
      forall r | r in refs[1..]
        ensures r.name in d.plane.records
      {
        var j :| 0 <= j < |refs[1..]| && refs[1..][j] == r;
        assert refs[j + 1] == r;
      }
      KeySetCons(refs, RefName);
      DeleteAllMeetsVanished(env, d.plane, refs[1..], n);
    }
  }

  /** The observed-only references of a listing against no desired routes
      are the listed names, each once. */
  lemma ObservedOnlyOfListing(env: Env, st: Plane)
    requires Remote.List(env, st).result.Success?
    ensures var m := MatchRoutes([], Remote.List(env, st).result.value);
      && DistinctNames(m.observedOnly)
      && KeySet(m.observedOnly, RefName) == st.records.Keys
      && forall r | r in m.observedOnly :: r.name in st.records
  {
    var refs := Remote.List(env, st).result.value;
    var m := MatchRoutes([], refs);
    var fn, rn := RefNames(refs), RouteNames([]);
    assert fn == st.records.Keys by {
      ListedNames(env, st);
    }
    assert KeySet(m.observedOnly, RefName) == fn - rn by {
      ObservedOnlyNameSet([], refs);
    }
    assert rn == {};
    MinusNothing(fn, rn);
    assert DistinctNames(m.observedOnly) by {
      forall i, j | 0 <= i < j < |m.observedOnly|
        ensures m.observedOnly[i].name != m.observedOnly[j].name
      {
        AscendingDistinct(m.ObservedOnlyNames(), i, j);
      }
    }
    InKeySet(m.observedOnly, RefName);
  }

  /** With no call failing, `cleanup` succeeds. */
  lemma CleanupSucceeds(env: Env, st: Plane)
    requires st.Valid() && NoFaults(env)
    ensures Cleanup(env, st).result.Success?
  {
    var l := Remote.List(env, st);
    assert env.fault(Call.ListRoutes).None?;
    var m := MatchRoutes([], l.result.value);
    NothingDesired(l.result.value);
    ObservedOnlyOfListing(env, st);
    DeleteAllSucceeds(env, l.plane, m.observedOnly);
    BatchesDeleteOnly(env, Unbuildable, map[], l.plane, m);
    CleanupUnfold(env, st);
  }

  /** A listed route that someone else deletes before `cleanup` describes
      it makes `cleanup` fail with "route not found": only `remove`
      treats a vanished route as deleted. */
  lemma CleanupRaceFails(env: Env, st: Plane, n: string)
    requires st.Valid() && VanishesBeforeDescribe(env, n)
    requires n in st.records
    ensures Cleanup(env, st).result == Failure(RouteNotFound(n))
  {
    var l := Remote.List(env, st);
    assert env.fault(Call.ListRoutes).None?;
    var m := MatchRoutes([], l.result.value);
    NothingDesired(l.result.value);
    ObservedOnlyOfListing(env, st);
    DeleteAllMeetsVanished(env, l.plane, m.observedOnly, n);
    BatchesDeleteOnly(env, Unbuildable, map[], l.plane, m);
    CleanupUnfold(env, st);
  }

  // ---------------------------------------------------------------------
  // remove

  /** The loop of `remove`: delete each reference in turn, a route already
      gone counting as deleted; the first other error ends the loop. Only
      the referenced routes can go, and nothing but deletes is issued. */
  function DeleteByRefAll(env: Env, st: Plane, refs: seq<RouteRef>): (s: Step<()>)
    requires st.Valid()
    ensures s.plane.Valid()
    ensures Grown(st.log, s.plane.log, Removing)
    ensures s.plane.records.Keys <= st.records.Keys
    ensures s.plane.records - KeySet(refs, RefName) == st.records - KeySet(refs, RefName)
    ensures s.result.Failure? ==> s.result.error == ApiError(OtherException)
    decreases |refs|
  {
    if refs == [] then Step(Success(()), st)
    else
      var d := DeleteSDKRouteByRef(env, st, refs[0]);
      if d.result.Failure? then d
      else
        var s := DeleteByRefAll(env, d.plane, refs[1..]);
        GrownTrans(st.log, d.plane.log, s.plane.log, Removing);
        KeySetCons(refs, RefName);
        MinusStep(st.records, d.plane.records, s.plane.records, refs[0].name, KeySet(refs[1..], RefName));
        s
  }

  /** The loop of `remove` fails exactly when the delete of one of its
      references fails with an error other than NotFound. */
  lemma {:induction false} DeleteByRefAllSucceeds(env: Env, st: Plane, refs: seq<RouteRef>)
    requires st.Valid()
    ensures DeleteByRefAll(env, st, refs).result.Success? <==>
      forall r | r in refs :: env.fault(Call.DeleteRoute(r.name)) != Some(OtherException)
    decreases |refs|
  {
    if refs != [] {
      var d := DeleteSDKRouteByRef(env, st, refs[0]);
      DeleteByRefAllSucceeds(env, d.plane, refs[1..]);
      assert forall r | r in refs :: r == refs[0] || r in refs[1..];
      assert refs[0] in refs;
      assert forall r | r in refs[1..] :: r in refs;
    }
  }

  /** The loop of `remove`, when it succeeds, removed exactly the
      referenced routes, whether or not they were still remote. */
  lemma {:induction false} DeleteByRefAllRecords(env: Env, st: Plane, refs: seq<RouteRef>)
    requires st.Valid()
    requires DeleteByRefAll(env, st, refs).result.Success?
    ensures DeleteByRefAll(env, st, refs).plane.records == st.records - KeySet(refs, RefName)
    decreases |refs|
  {
    if refs != [] {
      var d := DeleteSDKRouteByRef(env, st, refs[0]);
      DeleteByRefAllRecords(env, d.plane, refs[1..]);
      KeySetCons(refs, RefName);
    }
  }

  /** The calls a fully successful loop of `remove` issues: one delete per
      reference, in order. */
  function DeleteByRefCalls(refs: seq<RouteRef>): seq<Call>
    decreases |refs|
  {
    if refs == [] then [] else [Call.DeleteRoute(refs[0].name)] + DeleteByRefCalls(refs[1..])
  }

  /** The loop of `remove`, when it succeeds, issued exactly one delete per
      reference, in order. */
  lemma {:induction false} DeleteByRefAllLog(env: Env, st: Plane, refs: seq<RouteRef>)
    requires st.Valid()
    requires DeleteByRefAll(env, st, refs).result.Success?
    ensures DeleteByRefAll(env, st, refs).plane.log == st.log + DeleteByRefCalls(refs)
    decreases |refs|
  {
    if refs != [] {
      var d := DeleteSDKRouteByRef(env, st, refs[0]);
      var t := DeleteByRefAll(env, d.plane, refs[1..]);
      assert DeleteByRefAll(env, st, refs) == t;
      DeleteByRefAllLog(env, d.plane, refs[1..]);
      AppendAssoc(st.log, [Call.DeleteRoute(refs[0].name)], DeleteByRefCalls(refs[1..]));
    }
  }

  /** The loop of `remove` stops at its first delete that fails with an
      error other than NotFound: it fails with that error after the
      deletes of the references before it and the delete of `refs[i]`.
      The routes deleted before it stay deleted, and nothing is issued for
      the references after it. */
  lemma DeleteByRefAllStops(env: Env, st: Plane, refs: seq<RouteRef>, i: nat)
    requires st.Valid() && i < |refs|
    requires DeleteByRefAll(env, st, refs[..i]).result.Success?
    requires env.fault(Call.DeleteRoute(refs[i].name)) == Some(OtherException)
    ensures var p := DeleteByRefAll(env, st, refs[..i]);
      var s := DeleteByRefAll(env, st, refs);
      && s.result == Failure(ApiError(OtherException))
      && s.plane.records == p.plane.records == st.records - KeySet(refs[..i], RefName)
      && s.plane.log == st.log + DeleteByRefCalls(refs[..i]) + [Call.DeleteRoute(refs[i].name)]
  {
    DeleteByRefAllRecords(env, st, refs[..i]);
    DeleteByRefAllLog(env, st, refs[..i]);
    DeleteByRefAllStopsAt(env, st, refs, i);
  }

  /** The loop of `remove` is its prefix `refs[..i]` followed by the
      failing delete of `refs[i]`. */
  lemma {:induction false} DeleteByRefAllStopsAt(env: Env, st: Plane, refs: seq<RouteRef>, i: nat)
    requires st.Valid() && i < |refs|
    requires DeleteByRefAll(env, st, refs[..i]).result.Success?
    requires env.fault(Call.DeleteRoute(refs[i].name)) == Some(OtherException)
    ensures DeleteByRefAll(env, st, refs) == DeleteSDKRouteByRef(env, DeleteByRefAll(env, st, refs[..i]).plane, refs[i])
    decreases i
  {
    if i > 0 {
      var d := DeleteSDKRouteByRef(env, st, refs[0]);
      assert refs[..i][0] == refs[0];
      assert refs[..i][1..] == refs[1..][..i - 1];
      DeleteByRefAllStopsAt(env, d.plane, refs[1..], i - 1);
    }
  }

  /** `remove`: list the remote routes and delete those tainted by the
      listeners the router is about to lose. Whatever the outcome, no route
      is added and no untainted route changes; a failure is a control
      plane error. */
  function Remove(env: Env, st: Plane, routes: seq<Route>, listeners: seq<Listener>): (s: Step<()>)
    requires st.Valid()
    ensures s.plane.Valid()
    ensures s.plane.records.Keys <= st.records.Keys
    ensures s.result.Failure? ==> s.result.error.ApiError?
  {
    var l := Remote.List(env, st);
    if l.result.Failure? then Step(Failure(l.result.error), l.plane)
    else DeleteByRefAll(env, l.plane, TaintedRefs(routes, listeners, l.result.value))
  }

  /** A remote route is tainted when no desired route carries its name, or
      the last one that does needs a listener the router will not have. */
  predicate Tainted(routes: seq<Route>, listeners: seq<Listener>, n: string) {
    n in RouteNames(routes) ==> Conflicts(LastRoute(routes, n), ListenerTable(listeners))
  }

  /** The names `remove` deletes are the tainted remote names. */
  lemma RemovedNames(env: Env, st: Plane, routes: seq<Route>, listeners: seq<Listener>)
    requires Remote.List(env, st).result.Success?
    ensures var refs := Remote.List(env, st).result.value;
      forall n :: n in KeySet(TaintedRefs(routes, listeners, refs), RefName) <==>
        n in st.records && Tainted(routes, listeners, n)
  {
    var refs := Remote.List(env, st).result.value;
    var tainted := TaintedRefs(routes, listeners, refs);
    ListedNames(env, st);
    KeySetFromProject(tainted, RefName, TaintedNames(routes, listeners, refs));
  }

  /** A `remove` that succeeds keeps exactly the remote routes that are not
      tainted, each as it was. */
  lemma RemoveKeeps(env: Env, st: Plane, routes: seq<Route>, listeners: seq<Listener>)
    requires st.Valid()
    requires Remove(env, st, routes, listeners).result.Success?
    ensures var s := Remove(env, st, routes, listeners);
      forall n :: n in s.plane.records <==> n in st.records && !Tainted(routes, listeners, n)
    ensures var s := Remove(env, st, routes, listeners);
      forall n | n in s.plane.records :: s.plane.records[n] == st.records[n]
  {
    var l := Remote.List(env, st);
    var tainted := TaintedRefs(routes, listeners, l.result.value);
    RemovedNames(env, st, routes, listeners);
    DeleteByRefAllRecords(env, l.plane, tainted);
  }

  /** `remove` succeeds exactly when the listing succeeds and no tainted
      route's delete fails with an error other than NotFound; in
      particular a tainted route someone else deleted first does not make
      it fail. */
  lemma RemoveSucceeds(env: Env, st: Plane, routes: seq<Route>, listeners: seq<Listener>)
    requires st.Valid()
    ensures Remove(env, st, routes, listeners).result.Success? <==>
      && env.fault(Call.ListRoutes).None?
      && forall n | n in st.records && Tainted(routes, listeners, n) ::
           env.fault(Call.DeleteRoute(n)) != Some(OtherException)
  {
    var l := Remote.List(env, st);
    if l.result.Success? {
      var tainted := TaintedRefs(routes, listeners, l.result.value);
      var ns := KeySet(tainted, RefName);
      assert forall n :: n in ns <==> n in st.records && Tainted(routes, listeners, n) by {
        RemovedNames(env, st, routes, listeners);
      }
      assert Remove(env, st, routes, listeners) == DeleteByRefAll(env, l.plane, tainted);
      DeleteByRefAllSucceeds(env, l.plane, tainted);
      DeletesByName(env, tainted);
    }
  }

  /** Whether every reference's delete is free of errors other than
      NotFound depends only on the referenced names. */
  lemma DeletesByName(env: Env, refs: seq<RouteRef>)
    ensures (forall r | r in refs :: env.fault(Call.DeleteRoute(r.name)) != Some(OtherException)) <==>
      forall n | n in KeySet(refs, RefName) :: env.fault(Call.DeleteRoute(n)) != Some(OtherException)
  {
    InKeySet(refs, RefName);
    forall n | n in KeySet(refs, RefName)
      ensures exists r | r in refs :: r.name == n
    {
      var i :| 0 <= i < |refs| && refs[i].name == n;
      assert refs[i] in refs;
    }
  }

  /** Whatever its outcome, `remove` lists first and then only deletes. */
  lemma RemoveOnlyDeletes(env: Env, st: Plane, routes: seq<Route>, listeners: seq<Listener>)
    requires st.Valid()
    ensures var s := Remove(env, st, routes, listeners);
      && st.log + [Call.ListRoutes] <= s.plane.log
      && forall c | c in s.plane.log[|st.log| + 1..] :: c.DeleteRoute?
  {
    var l := Remote.List(env, st);
    if l.result.Success? {
      var d := DeleteByRefAll(env, l.plane, TaintedRefs(routes, listeners, l.result.value));
      forall c | c in d.plane.log[|l.plane.log|..]
        ensures c.DeleteRoute?
      {
        assert InPhase(c, Removing);
      }
    }
  }
}

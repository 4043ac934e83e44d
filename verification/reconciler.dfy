/** `defaultRoutesManager`: drives a virtual router's remote routes toward
    its desired routes. `create`, `update` and `cleanup` run one reconcile
    pass (create the desired-only routes, then describe and update the
    matched ones, then describe and delete the observed-only ones, stopping
    at the first error); `remove` deletes only the tainted routes. */
module Reconciler {
  import opened Wrappers
  import opened Types
  import opened Order
  import opened Index
  import opened Matcher
  import opened Remote

  /** `findSDKRoute`: a describe whose error is NotFound yields no record
      instead of an error. */
  function FindSDKRoute(env: Env, st: Plane, ref: RouteRef): (s: Step<Option<RouteRecord>>)
    ensures s.plane.log == st.log + [Call.DescribeRoute(ref.name)]
    ensures s.result.Success? && s.result.value.Some? <==>
      env.fault(Call.DescribeRoute(ref.name)).None? && ref.name in st.records
    ensures s.result.Success? && s.result.value.Some? ==>
      s.result.value.value == st.records[ref.name] && s.plane.records == st.records
    ensures s.result.Success? && s.result.value.None? <==>
      || env.fault(Call.DescribeRoute(ref.name)) == Some(NotFoundException)
      || (env.fault(Call.DescribeRoute(ref.name)).None? && ref.name !in st.records)
    ensures s.result.Failure? ==> s.result.error == ApiError(OtherException) && s.plane.records == st.records
    ensures st.Valid() ==> s.plane.Valid()
  {
    var d := Remote.Describe(env, st, ref.name);
    if d.result.Failure? then
      if d.result.error == ApiError(NotFoundException) then Step(Success(None), d.plane)
      else Step(Failure(d.result.error), d.plane)
    else Step(Success(Some(d.result.value)), d.plane)
  }

  /** `createSDKRoute`: build the spec, then create the route. A build
      error issues no call. */
  function CreateSDKRoute(env: Env, build: Builder, table: BackendTable, st: Plane, route: Route): (s: Step<RouteRecord>)
    ensures build(route, table).Failure? ==> s == Step(Failure(build(route, table).error), st)
    ensures build(route, table).Success? ==>
      s.plane.log == st.log + [Call.CreateRoute(route.name, build(route, table).value)]
    ensures s.result.Success? ==>
      && route.name !in st.records
      && s.result.value == RouteRecord(route.name, build(route, table).value, 1)
      && s.plane.records == st.records[route.name := s.result.value]
    ensures s.result.Failure? ==> s.plane.records == st.records
    ensures st.Valid() ==> s.plane.Valid()
  {
    var spec := build(route, table);
    if spec.Failure? then Step(Failure(spec.error), st)
    else Remote.Create(env, st, route.name, spec.value)
  }

  /** `updateSDKRoute`: when the desired spec equals the remote one (nil
      and empty slices alike) nothing is called and the remote record is
      returned as is; otherwise the route is updated to the desired spec. */
  function UpdateSDKRoute(env: Env, build: Builder, table: BackendTable, st: Plane, rec: RouteRecord, route: Route): (s: Step<RouteRecord>)
    ensures build(route, table).Failure? ==> s == Step(Failure(build(route, table).error), st)
    ensures build(route, table).Success? && SpecEquiv(build(route, table).value, rec.spec) ==>
      s == Step(Success(rec), st)
    ensures build(route, table).Success? && !SpecEquiv(build(route, table).value, rec.spec) ==>
      s.plane.log == st.log + [Call.UpdateRoute(rec.name, build(route, table).value)]
    ensures s.result.Success? ==> SpecEquiv(build(route, table).value, s.result.value.spec)
    ensures s.result.Success? && s.result.value != rec ==>
      && rec.name in st.records
      && s.result.value == RouteRecord(rec.name, build(route, table).value, st.records[rec.name].version + 1)
      && s.plane.records == st.records[rec.name := s.result.value]
    ensures s.result.Success? && s.result.value == rec ==> s.plane.records == st.records
    ensures s.result.Failure? ==> s.plane.records == st.records || s.plane.records == st.records - {rec.name}
    ensures st.Valid() ==> s.plane.Valid()
  {
    var desired := build(route, table);
    if desired.Failure? then Step(Failure(desired.error), st)
    else if SpecEquiv(desired.value, rec.spec) then Step(Success(rec), st)
    else Remote.Update(env, st, rec.name, desired.value)
  }

  /** `deleteSDKRoute`: every error, NotFound included, is returned. */
  function DeleteSDKRoute(env: Env, st: Plane, rec: RouteRecord): (s: Step<()>)
    ensures s.plane.log == st.log + [Call.DeleteRoute(rec.name)]
    ensures s.result.Success? <==> env.fault(Call.DeleteRoute(rec.name)).None? && rec.name in st.records
    ensures s.result.Success? ==> s.plane.records == st.records - {rec.name}
    ensures s.result.Failure? ==> s.result.error.ApiError?
    ensures st.Valid() ==> s.plane.Valid()
  {
    Remote.Delete(env, st, rec.name)
  }

  /** `deleteSDKRouteByRef`: a NotFound error counts as success, since the
      route is gone either way; any other error is returned. */
  function DeleteSDKRouteByRef(env: Env, st: Plane, ref: RouteRef): (s: Step<()>)
    ensures s.plane.log == st.log + [Call.DeleteRoute(ref.name)]
    ensures s.result.Failure? <==> env.fault(Call.DeleteRoute(ref.name)) == Some(OtherException)
    ensures s.result.Failure? ==> s.result.error == ApiError(OtherException) && s.plane.records == st.records
    ensures s.result.Success? ==> s.plane.records == st.records - {ref.name}
    ensures st.Valid() ==> s.plane.Valid()
  {
    var d := Remote.Delete(env, st, ref.name);
    if d.result.Failure? && d.result.error == ApiError(NotFoundException) then Step(Success(()), d.plane)
    else d
  }

  /** Of two deletes of a route that is already gone, only the one on the
      `remove` path succeeds. */
  lemma DeleteOfMissingRoute(env: Env, st: Plane, ref: RouteRef, rec: RouteRecord)
    requires ref.name !in st.records && rec.name == ref.name
    requires env.fault(Call.DeleteRoute(ref.name)).None?
    ensures DeleteSDKRouteByRef(env, st, ref).result.Success?
    ensures DeleteSDKRoute(env, st, rec).result == Failure(ApiError(NotFoundException))
  {
  }

  // ---------------------------------------------------------------------
  // The three batches of a reconcile pass

  /** The calls a fully successful create batch issues: one create per
      route, in order. */
  function CreateCalls(build: Builder, table: BackendTable, rs: seq<Route>): seq<Call>
    requires forall r | r in rs :: build(r, table).Success?
    decreases |rs|
  {
    if rs == [] then []
    else [Call.CreateRoute(rs[0].name, build(rs[0], table).value)] + CreateCalls(build, table, rs[1..])
  }

  /** The calls a successful sync of one matched route issues against the
      remote record `rec`: a describe, then an update only when the specs
      differ. */
  function SyncCalls(build: Builder, table: BackendTable, p: Pair, rec: RouteRecord): seq<Call>
    requires build(p.route, table).Success?
  {
    [Call.DescribeRoute(p.ref.name)]
    + (if SpecEquiv(build(p.route, table).value, rec.spec) then []
       else [Call.UpdateRoute(p.ref.name, build(p.route, table).value)])
  }

  /** The calls a fully successful update batch issues against `records`. */
  function UpdateCalls(build: Builder, table: BackendTable, ps: seq<Pair>, records: map<string, RouteRecord>): seq<Call>
    requires forall p | p in ps :: build(p.route, table).Success? && p.ref.name in records
    decreases |ps|
  {
    if ps == [] then []
    else SyncCalls(build, table, ps[0], records[ps[0].ref.name]) + UpdateCalls(build, table, ps[1..], records)
  }

  /** The calls a fully successful delete batch issues: a describe and a
      delete per reference, in order. */
  function DeleteCalls(refs: seq<RouteRef>): seq<Call>
    decreases |refs|
  {
    if refs == [] then []
    else [Call.DescribeRoute(refs[0].name), Call.DeleteRoute(refs[0].name)] + DeleteCalls(refs[1..])
  }

  /** The batches of a reconcile pass, in the order they run
      (`Creating`, `Syncing`, `Deleting`), and `Removing`, the delete loop
      of `remove`, which only `Manager.DeleteByRefAll` uses. */
  datatype Phase = Creating | Syncing | Deleting | Removing

  /** Whether batch `ph` may issue call `c`. */
  predicate InPhase(c: Call, ph: Phase) {
    match ph
    case Creating => c.CreateRoute?
    case Syncing => c.DescribeRoute? || c.UpdateRoute?
    case Deleting => c.DescribeRoute? || c.DeleteRoute?
    case Removing => c.DeleteRoute?
  }

  /** Every call of `calls` belongs to batch `ph`. */
  predicate AllInPhase(calls: seq<Call>, ph: Phase) {
    forall c | c in calls :: InPhase(c, ph)
  }

  /** The log `after` extends `before` with calls of batch `ph` only. */
  predicate Grown(before: seq<Call>, after: seq<Call>, ph: Phase) {
    |before| <= |after| && after[..|before|] == before && AllInPhase(after[|before|..], ph)
  }

  lemma GrownTrans(a: seq<Call>, b: seq<Call>, c: seq<Call>, ph: Phase)
    requires Grown(a, b, ph) && Grown(b, c, ph)
    ensures Grown(a, c, ph)
  {
    assert c[|a|..] == b[|a|..] + c[|b|..];
  }

  /** The first loop of `reconcile`: create each route in turn, recording
      the created record under its name in `acc`; the first error ends the
      batch. Records that existed before are never touched. */
  function CreateAll(env: Env, build: Builder, table: BackendTable, st: Plane, rs: seq<Route>,
                     acc: map<string, RouteRecord>): (s: Step<map<string, RouteRecord>>)
    requires st.Valid()
    ensures s.plane.Valid()
    ensures Grown(st.log, s.plane.log, Creating)
    ensures forall n | n in st.records :: n in s.plane.records && s.plane.records[n] == st.records[n]
    decreases |rs|
  {
    if rs == [] then Step(Success(acc), st)
    else
      var c := CreateSDKRoute(env, build, table, st, rs[0]);
      if c.result.Failure? then Step(Failure(c.result.error), c.plane)
      else
        var s := CreateAll(env, build, table, c.plane, rs[1..], acc[rs[0].name := c.result.value]);
        GrownTrans(st.log, c.plane.log, s.plane.log, Creating);
        s
  }

  /** A create batch that succeeds built every route and issued exactly one
      create per route, in order. */
  lemma {:induction false} CreateAllLog(env: Env, build: Builder, table: BackendTable, st: Plane,
                                         rs: seq<Route>, acc: map<string, RouteRecord>)
    requires st.Valid()
    requires CreateAll(env, build, table, st, rs, acc).result.Success?
    ensures forall r | r in rs :: build(r, table).Success?
    ensures CreateAll(env, build, table, st, rs, acc).plane.log == st.log + CreateCalls(build, table, rs)
    decreases |rs|
  {
    if rs != [] {
      var c := CreateSDKRoute(env, build, table, st, rs[0]);
      CreateAllLog(env, build, table, c.plane, rs[1..], acc[rs[0].name := c.result.value]);
      assert forall r | r in rs :: r == rs[0] || r in rs[1..];
    }
  }

  /** A create batch that succeeds created only names that did not exist
      before, and after it exactly the old names and the new ones exist. */
  lemma {:induction false} CreateAllKeys(env: Env, build: Builder, table: BackendTable, st: Plane,
                                          rs: seq<Route>, acc: map<string, RouteRecord>)
    requires st.Valid()
    requires CreateAll(env, build, table, st, rs, acc).result.Success?
    ensures KeySet(rs, RouteName) !! st.records.Keys
    ensures CreateAll(env, build, table, st, rs, acc).plane.records.Keys == st.records.Keys + KeySet(rs, RouteName)
    decreases |rs|
  {
    if rs != [] {
      var c := CreateSDKRoute(env, build, table, st, rs[0]);
      CreateAllKeys(env, build, table, c.plane, rs[1..], acc[rs[0].name := c.result.value]);
      KeySetCons(rs, RouteName);
    }
  }

  /** The map a successful create batch returns extends `acc` with the
      created record of every route name. */
  lemma {:induction false} CreateAllResult(env: Env, build: Builder, table: BackendTable, st: Plane,
                                            rs: seq<Route>, acc: map<string, RouteRecord>)
    requires st.Valid()
    requires CreateAll(env, build, table, st, rs, acc).result.Success?
    ensures var s := CreateAll(env, build, table, st, rs, acc);
      && s.result.value.Keys == acc.Keys + KeySet(rs, RouteName)
      && (forall n | n in KeySet(rs, RouteName) :: n in s.plane.records && s.result.value[n] == s.plane.records[n])
      && (forall n | n in acc && n !in KeySet(rs, RouteName) :: s.result.value[n] == acc[n])
    decreases |rs|
  {
    if rs != [] {
      var c := CreateSDKRoute(env, build, table, st, rs[0]);
      CreateAllResult(env, build, table, c.plane, rs[1..], acc[rs[0].name := c.result.value]);
      KeySetCons(rs, RouteName);
    }
  }

  /** Every route of a successful create batch is remote under its name at
      version 1 with the spec built from it: a name repeated in the batch
      would have hit the conflict of its second create. */
  lemma {:induction false} CreateAllSpecs(env: Env, build: Builder, table: BackendTable, st: Plane,
                                           rs: seq<Route>, acc: map<string, RouteRecord>)
    requires st.Valid()
    requires CreateAll(env, build, table, st, rs, acc).result.Success?
    ensures forall r | r in rs :: build(r, table).Success?
    ensures forall i | 0 <= i < |rs| ::
      var s := CreateAll(env, build, table, st, rs, acc);
      rs[i].name in s.plane.records
      && s.plane.records[rs[i].name] == RouteRecord(rs[i].name, build(rs[i], table).value, 1)
    decreases |rs|
  {
    if rs != [] {
      var c := CreateSDKRoute(env, build, table, st, rs[0]);
      CreateAllSpecs(env, build, table, c.plane, rs[1..], acc[rs[0].name := c.result.value]);
      assert forall r | r in rs :: r == rs[0] || r in rs[1..];
    }
  }

  /** The create batch stops at its first failing route: when the routes
      before `rs[i]` were all created and `rs[i]` fails, the batch fails
      with that route's error, after exactly the creates of the routes
      before it and the create of `rs[i]` when its spec built. The routes
      created before it stay (there is no rollback), and nothing is issued
      for the routes after it. */
  lemma CreateAllStops(env: Env, build: Builder, table: BackendTable, st: Plane,
                                           rs: seq<Route>, acc: map<string, RouteRecord>, i: nat)
    requires st.Valid() && i < |rs|
    requires CreateAll(env, build, table, st, rs[..i], acc).result.Success?
    requires CreateSDKRoute(env, build, table, CreateAll(env, build, table, st, rs[..i], acc).plane, rs[i]).result.Failure?
    ensures forall r | r in rs[..i] :: build(r, table).Success?
    ensures var p := CreateAll(env, build, table, st, rs[..i], acc);
      var e := CreateSDKRoute(env, build, table, p.plane, rs[i]);
      var s := CreateAll(env, build, table, st, rs, acc);
      && s == Step(Failure(e.result.error), e.plane)
      && s.plane.records == p.plane.records
      && s.plane.log == st.log + CreateCalls(build, table, rs[..i])
           + (if build(rs[i], table).Success? then [Call.CreateRoute(rs[i].name, build(rs[i], table).value)] else [])
  {
    CreateAllLog(env, build, table, st, rs[..i], acc);
    CreateAllStopsAt(env, build, table, st, rs, acc, i);
  }

  /** The create batch is its prefix `rs[..i]` followed by the failing
      create of `rs[i]`. */
  lemma {:induction false} CreateAllStopsAt(env: Env, build: Builder, table: BackendTable, st: Plane,
                                             rs: seq<Route>, acc: map<string, RouteRecord>, i: nat)
    requires st.Valid() && i < |rs|
    requires CreateAll(env, build, table, st, rs[..i], acc).result.Success?
    requires CreateSDKRoute(env, build, table, CreateAll(env, build, table, st, rs[..i], acc).plane, rs[i]).result.Failure?
    ensures var e := CreateSDKRoute(env, build, table, CreateAll(env, build, table, st, rs[..i], acc).plane, rs[i]);
      CreateAll(env, build, table, st, rs, acc) == Step(Failure(e.result.error), e.plane)
    decreases i
  {
    if i > 0 {
      var c := CreateSDKRoute(env, build, table, st, rs[0]);
      assert rs[..i][0] == rs[0];
      assert rs[..i][1..] == rs[1..][..i - 1];
      CreateAllStopsAt(env, build, table, c.plane, rs[1..], acc[rs[0].name := c.result.value], i - 1);
    }
  }

  /** The body of the second loop of `reconcile` for one matched pair:
      describe the route, turn a missing route into a "route not found"
      error, else bring it to the desired spec. Only the pair's own record
      can change. */
  function SyncMatched(env: Env, build: Builder, table: BackendTable, st: Plane, p: Pair): (s: Step<RouteRecord>)
    requires st.Valid()
    ensures s.plane.Valid()
    ensures Grown(st.log, s.plane.log, Syncing)
    ensures s.plane.records.Keys <= st.records.Keys
    ensures s.plane.records - {p.ref.name} == st.records - {p.ref.name}
  {
    var f := FindSDKRoute(env, st, p.ref);
    if f.result.Failure? then Step(Failure(f.result.error), f.plane)
    else if f.result.value.None? then Step(Failure(RouteNotFound(p.ref.name)), f.plane)
    else UpdateSDKRoute(env, build, table, f.plane, f.result.value.value, p.route)
  }

  /** A matched route syncs only if it is still remote and its spec
      builds; afterwards its remote spec equals the desired one, and an
      update was issued exactly when the specs differed. */
  lemma SyncMatchedSucceeds(env: Env, build: Builder, table: BackendTable, st: Plane, p: Pair)
    requires st.Valid()
    requires SyncMatched(env, build, table, st, p).result.Success?
    ensures var s := SyncMatched(env, build, table, st, p);
      && p.ref.name in st.records
      && build(p.route, table).Success?
      && s.plane.log == st.log + SyncCalls(build, table, p, st.records[p.ref.name])
      && s.plane.records == st.records[p.ref.name := s.result.value]
      && SpecEquiv(build(p.route, table).value, s.result.value.spec)
  {
  }

  /** A matched route that a describe reports missing ends the pass with
      "route not found". */
  lemma SyncMatchedMissing(env: Env, build: Builder, table: BackendTable, st: Plane, p: Pair)
    requires st.Valid()
    requires || env.fault(Call.DescribeRoute(p.ref.name)) == Some(NotFoundException)
             || (env.fault(Call.DescribeRoute(p.ref.name)).None? && p.ref.name !in st.records)
    ensures SyncMatched(env, build, table, st, p).result == Failure(RouteNotFound(p.ref.name))
  {
  }

  function PairRefName(p: Pair): string { p.ref.name }

  /** No two pairs of `ps` share a name, and each pairs a route with the
      remote route of the same name. */
  predicate WellPaired(ps: seq<Pair>) {
    && (forall p | p in ps :: p.route.name == p.ref.name)
    && (forall i, j | 0 <= i < j < |ps| :: ps[i].route.name != ps[j].route.name)
  }

  /** The second loop of `reconcile`: sync each matched pair in turn,
      recording the resulting record under the route's name in `acc`; the
      first error ends the batch. Records of other names are never
      touched and no record is added. */
  function UpdateAll(env: Env, build: Builder, table: BackendTable, st: Plane, ps: seq<Pair>,
                     acc: map<string, RouteRecord>): (s: Step<map<string, RouteRecord>>)
    requires st.Valid()
    ensures s.plane.Valid()
    ensures Grown(st.log, s.plane.log, Syncing)
    ensures s.plane.records.Keys <= st.records.Keys
    ensures s.plane.records - KeySet(ps, PairRefName) == st.records - KeySet(ps, PairRefName)
    decreases |ps|
  {
    if ps == [] then Step(Success(acc), st)
    else
      var u := SyncMatched(env, build, table, st, ps[0]);
      if u.result.Failure? then Step(Failure(u.result.error), u.plane)
      else
        var s := UpdateAll(env, build, table, u.plane, ps[1..], acc[ps[0].route.name := u.result.value]);
        GrownTrans(st.log, u.plane.log, s.plane.log, Syncing);
        KeySetCons(ps, PairRefName);
        MinusStep(st.records, u.plane.records, s.plane.records, ps[0].ref.name, KeySet(ps[1..], PairRefName));
        s
  }

  /** The update calls depend only on the records of the pairs' names. */
  lemma {:induction false} UpdateCallsAgree(build: Builder, table: BackendTable, ps: seq<Pair>,
                                             r1: map<string, RouteRecord>, r2: map<string, RouteRecord>)
    requires forall p | p in ps :: build(p.route, table).Success? && p.ref.name in r1 && p.ref.name in r2
    requires forall p | p in ps :: r1[p.ref.name] == r2[p.ref.name]
    ensures UpdateCalls(build, table, ps, r1) == UpdateCalls(build, table, ps, r2)
    decreases |ps|
  {
    if ps != [] {
      assert forall p | p in ps[1..] :: p in ps;
      UpdateCallsAgree(build, table, ps[1..], r1, r2);
    }
  }

  /** The tail of a well-paired list is well paired and never repeats
      the head's name. */
  lemma WellPairedTail(ps: seq<Pair>)
    requires WellPaired(ps) && ps != []
    ensures WellPaired(ps[1..])
    ensures forall p | p in ps[1..] :: p.ref.name != ps[0].ref.name
    ensures ps[0].ref.name !in KeySet(ps[1..], PairRefName)
    ensures ps[0].route.name !in KeySet(ps[1..], PairName)
  {
    assert forall i | 0 <= i < |ps[1..]| :: ps[1..][i] == ps[i + 1];
    forall p | p in ps[1..] ensures p.ref.name != ps[0].ref.name {
      var k :| 0 <= k < |ps[1..]| && ps[1..][k] == p;
      assert ps[k + 1] == p;
    }
  }

  /** An update batch that succeeds found every route remote and built
      every spec. */
  lemma {:induction false} UpdateAllFound(env: Env, build: Builder, table: BackendTable, st: Plane,
                                           ps: seq<Pair>, acc: map<string, RouteRecord>)
    requires st.Valid()
    requires UpdateAll(env, build, table, st, ps, acc).result.Success?
    ensures forall p | p in ps :: build(p.route, table).Success? && p.ref.name in st.records
    decreases |ps|
  {
    if ps != [] {
      var u := SyncMatched(env, build, table, st, ps[0]);
      SyncMatchedSucceeds(env, build, table, st, ps[0]);
      UpdateAllFound(env, build, table, u.plane, ps[1..], acc[ps[0].route.name := u.result.value]);
      assert forall p | p in ps :: p == ps[0] || p in ps[1..];
    }
  }

  /** The calls a successful update batch is expected to issue split
      into the head's and those of the tail against the records the head
      leaves, whatever record the head leaves for its own name. */
  lemma UpdateCallsStep(build: Builder, table: BackendTable, ps: seq<Pair>,
                        records: map<string, RouteRecord>, rec: RouteRecord, before: seq<Call>, mid: seq<Call>)
    requires WellPaired(ps) && ps != []
    requires forall p | p in ps :: build(p.route, table).Success? && p.ref.name in records
    requires mid == before + SyncCalls(build, table, ps[0], records[ps[0].ref.name])
    ensures forall p | p in ps[1..] :: build(p.route, table).Success? && p.ref.name in records[ps[0].ref.name := rec]
    ensures mid + UpdateCalls(build, table, ps[1..], records[ps[0].ref.name := rec])
      == before + UpdateCalls(build, table, ps, records)
  {
    var tail, moved := ps[1..], records[ps[0].ref.name := rec];
    assert forall p | p in tail ::
      build(p.route, table).Success? && p.ref.name in moved && moved[p.ref.name] == records[p.ref.name] by {
      WellPairedTail(ps);
      assert forall p | p in tail :: p in ps;
    }
    var sync := SyncCalls(build, table, ps[0], records[ps[0].ref.name]);
    assert UpdateCalls(build, table, tail, moved) == UpdateCalls(build, table, tail, records) by {
      UpdateCallsAgree(build, table, tail, moved, records);
    }
    assert UpdateCalls(build, table, ps, records) == sync + UpdateCalls(build, table, tail, records);
    AppendAssoc(before, sync, UpdateCalls(build, table, tail, records));
  }

  /** An update batch that succeeds issued exactly a describe per pair plus
      an update for each route whose remote spec differed. */
  lemma {:induction false} UpdateAllLog(env: Env, build: Builder, table: BackendTable, st: Plane,
                                         ps: seq<Pair>, acc: map<string, RouteRecord>)
    requires st.Valid() && WellPaired(ps)
    requires UpdateAll(env, build, table, st, ps, acc).result.Success?
    ensures forall p | p in ps :: build(p.route, table).Success? && p.ref.name in st.records
    ensures UpdateAll(env, build, table, st, ps, acc).plane.log == st.log + UpdateCalls(build, table, ps, st.records)
    decreases |ps|
  {
    UpdateAllFound(env, build, table, st, ps, acc);
    if ps != [] {
      var u := SyncMatched(env, build, table, st, ps[0]);
      SyncMatchedSucceeds(env, build, table, st, ps[0]);
      WellPairedTail(ps);
      UpdateAllLog(env, build, table, u.plane, ps[1..], acc[ps[0].route.name := u.result.value]);
      UpdateCallsStep(build, table, ps, st.records, u.result.value, st.log, u.plane.log);
    }
  }

  /** An update batch that succeeds neither adds nor removes a route. */
  lemma {:induction false} UpdateAllKeys(env: Env, build: Builder, table: BackendTable, st: Plane,
                                          ps: seq<Pair>, acc: map<string, RouteRecord>)
    requires st.Valid()
    requires UpdateAll(env, build, table, st, ps, acc).result.Success?
    ensures UpdateAll(env, build, table, st, ps, acc).plane.records.Keys == st.records.Keys
    decreases |ps|
  {
    if ps != [] {
      var u := SyncMatched(env, build, table, st, ps[0]);
      SyncMatchedSucceeds(env, build, table, st, ps[0]);
      UpdateAllKeys(env, build, table, u.plane, ps[1..], acc[ps[0].route.name := u.result.value]);
    }
  }

  /** After an update batch that succeeds, every matched route's remote
      spec equals the spec built from it. */
  lemma {:induction false} UpdateAllSpecs(env: Env, build: Builder, table: BackendTable, st: Plane,
                                           ps: seq<Pair>, acc: map<string, RouteRecord>)
    requires st.Valid() && WellPaired(ps)
    requires UpdateAll(env, build, table, st, ps, acc).result.Success?
    ensures forall p | p in ps :: build(p.route, table).Success?
    ensures forall p | p in ps ::
      var s := UpdateAll(env, build, table, st, ps, acc);
      p.ref.name in s.plane.records && SpecEquiv(build(p.route, table).value, s.plane.records[p.ref.name].spec)
    decreases |ps|
  {
    UpdateAllFound(env, build, table, st, ps, acc);
    if ps != [] {
      var u := SyncMatched(env, build, table, st, ps[0]);
      SyncMatchedSucceeds(env, build, table, st, ps[0]);
      WellPairedTail(ps);
      var t := UpdateAll(env, build, table, u.plane, ps[1..], acc[ps[0].route.name := u.result.value]);
      assert UpdateAll(env, build, table, st, ps, acc) == t;
      UpdateAllSpecs(env, build, table, u.plane, ps[1..], acc[ps[0].route.name := u.result.value]);
      MinusKeeps(t.plane.records, u.plane.records, KeySet(ps[1..], PairRefName), ps[0].ref.name);
      assert forall p | p in ps :: p == ps[0] || p in ps[1..];
    }
  }

  /** The map a successful update batch returns has the names of `acc`
      and of the batch, and keeps `acc`'s entries outside the batch. */
  lemma {:induction false} UpdateAllResultKeys(env: Env, build: Builder, table: BackendTable, st: Plane,
                                                ps: seq<Pair>, acc: map<string, RouteRecord>)
    requires st.Valid()
    requires UpdateAll(env, build, table, st, ps, acc).result.Success?
    ensures var s := UpdateAll(env, build, table, st, ps, acc);
      && s.result.value.Keys == acc.Keys + KeySet(ps, PairName)
      && (forall n | n in acc && n !in KeySet(ps, PairName) :: s.result.value[n] == acc[n])
    decreases |ps|
  {
    if ps != [] {
      var u := SyncMatched(env, build, table, st, ps[0]);
      SyncMatchedSucceeds(env, build, table, st, ps[0]);
      UpdateAllResultKeys(env, build, table, u.plane, ps[1..], acc[ps[0].route.name := u.result.value]);
      KeySetCons(ps, PairName);
    }
  }

  /** The map a successful update batch returns holds, under each matched
      route's name, the remote record the batch left for it. */
  lemma {:induction false} UpdateAllResult(env: Env, build: Builder, table: BackendTable, st: Plane,
                                            ps: seq<Pair>, acc: map<string, RouteRecord>)
    requires st.Valid() && WellPaired(ps)
    requires UpdateAll(env, build, table, st, ps, acc).result.Success?
    ensures var s := UpdateAll(env, build, table, st, ps, acc);
      forall p | p in ps ::
        && p.ref.name in s.plane.records
        && p.route.name in s.result.value
        && s.result.value[p.route.name] == s.plane.records[p.ref.name]
    decreases |ps|
  {
    UpdateAllResultKeys(env, build, table, st, ps, acc);
    if ps != [] {
      var u := SyncMatched(env, build, table, st, ps[0]);
      SyncMatchedSucceeds(env, build, table, st, ps[0]);
      var acc' := acc[ps[0].route.name := u.result.value];
      var t := UpdateAll(env, build, table, u.plane, ps[1..], acc');
      assert UpdateAll(env, build, table, st, ps, acc) == t;
      WellPairedTail(ps);
      UpdateAllResult(env, build, table, u.plane, ps[1..], acc');
      UpdateAllResultKeys(env, build, table, u.plane, ps[1..], acc');
      MinusKeeps(t.plane.records, u.plane.records, KeySet(ps[1..], PairRefName), ps[0].ref.name);
      assert t.result.value[ps[0].route.name] == u.result.value;
      assert forall p | p in ps :: p == ps[0] || p in ps[1..];
    }
  }

  /** Syncing one pair, whatever its outcome, issues a describe of the
      pair's name and at most one update of that name to the built spec. */
  lemma SyncMatchedCalls(env: Env, build: Builder, table: BackendTable, st: Plane, p: Pair)
    requires st.Valid()
    ensures var s := SyncMatched(env, build, table, st, p);
      || s.plane.log == st.log + [Call.DescribeRoute(p.ref.name)]
      || (&& build(p.route, table).Success?
          && s.plane.log == st.log + [Call.DescribeRoute(p.ref.name), Call.UpdateRoute(p.ref.name, build(p.route, table).value)])
  {
    var f := FindSDKRoute(env, st, p.ref);
    if f.result.Success? && f.result.value.Some? {
      assert f.result.value.value.name == p.ref.name;
    }
  }

  /** The update batch stops at its first failing pair: when the pairs
      before `ps[i]` were all synced and `ps[i]` fails, the batch fails with
      that pair's error, after the calls of the pairs before it and the
      describe (and possibly the update) of `ps[i]`. The updates made
      before it stay, only `ps[i]`'s record may change beyond them, and
      nothing is issued for the pairs after it. */
  lemma UpdateAllStops(env: Env, build: Builder, table: BackendTable, st: Plane,
                                           ps: seq<Pair>, acc: map<string, RouteRecord>, i: nat)
    requires st.Valid() && i < |ps|
    requires UpdateAll(env, build, table, st, ps[..i], acc).result.Success?
    requires SyncMatched(env, build, table, UpdateAll(env, build, table, st, ps[..i], acc).plane, ps[i]).result.Failure?
    ensures forall p | p in ps[..i] :: build(p.route, table).Success? && p.ref.name in st.records
    ensures var p := UpdateAll(env, build, table, st, ps[..i], acc);
      var e := SyncMatched(env, build, table, p.plane, ps[i]);
      var s := UpdateAll(env, build, table, st, ps, acc);
      && s == Step(Failure(e.result.error), e.plane)
      && s.plane.records - {ps[i].ref.name} == p.plane.records - {ps[i].ref.name}
      && (WellPaired(ps) ==> p.plane.log == st.log + UpdateCalls(build, table, ps[..i], st.records))
      && (|| s.plane.log == p.plane.log + [Call.DescribeRoute(ps[i].ref.name)]
          || (&& build(ps[i].route, table).Success?
              && s.plane.log == p.plane.log + [Call.DescribeRoute(ps[i].ref.name),
                                               Call.UpdateRoute(ps[i].ref.name, build(ps[i].route, table).value)]))
  {
    UpdateAllFound(env, build, table, st, ps[..i], acc);
    var p := UpdateAll(env, build, table, st, ps[..i], acc);
    SyncMatchedCalls(env, build, table, p.plane, ps[i]);
    if WellPaired(ps) {
      assert WellPaired(ps[..i]) by {
        assert forall q | q in ps[..i] :: q in ps;
      }
      UpdateAllLog(env, build, table, st, ps[..i], acc);
    }
    UpdateAllStopsAt(env, build, table, st, ps, acc, i);
  }

  /** The update batch is its prefix `ps[..i]` followed by the failing
      sync of `ps[i]`. */
  lemma {:induction false} UpdateAllStopsAt(env: Env, build: Builder, table: BackendTable, st: Plane,
                                             ps: seq<Pair>, acc: map<string, RouteRecord>, i: nat)
    requires st.Valid() && i < |ps|
    requires UpdateAll(env, build, table, st, ps[..i], acc).result.Success?
    requires SyncMatched(env, build, table, UpdateAll(env, build, table, st, ps[..i], acc).plane, ps[i]).result.Failure?
    ensures var e := SyncMatched(env, build, table, UpdateAll(env, build, table, st, ps[..i], acc).plane, ps[i]);
      UpdateAll(env, build, table, st, ps, acc) == Step(Failure(e.result.error), e.plane)
    decreases i
  {
    if i > 0 {
      var u := SyncMatched(env, build, table, st, ps[0]);
      assert ps[..i][0] == ps[0];
      assert ps[..i][1..] == ps[1..][..i - 1];
      UpdateAllStopsAt(env, build, table, u.plane, ps[1..], acc[ps[0].route.name := u.result.value], i - 1);
    }
  }

  /** The body of the third loop of `reconcile` for one observed-only
      reference: describe the route, turn a missing route into a "route
      not found" error, else delete it. Only that route can change. */
  function RemoveObserved(env: Env, st: Plane, ref: RouteRef): (s: Step<()>)
    requires st.Valid()
    ensures s.plane.Valid()
    ensures Grown(st.log, s.plane.log, Deleting)
    ensures s.plane.records.Keys <= st.records.Keys
    ensures s.plane.records - {ref.name} == st.records - {ref.name}
  {
    var f := FindSDKRoute(env, st, ref);
    if f.result.Failure? then Step(Failure(f.result.error), f.plane)
    else if f.result.value.None? then Step(Failure(RouteNotFound(ref.name)), f.plane)
    else DeleteSDKRoute(env, f.plane, f.result.value.value)
  }

  /** An observed-only route is removed exactly when neither its describe
      nor its delete fails and it is still remote; then it is gone after
      one describe and one delete. */
  lemma RemoveObservedSucceeds(env: Env, st: Plane, ref: RouteRef)
    requires st.Valid()
    ensures var s := RemoveObserved(env, st, ref);
      && (s.result.Success? <==>
            && env.fault(Call.DescribeRoute(ref.name)).None?
            && env.fault(Call.DeleteRoute(ref.name)).None?
            && ref.name in st.records)
      && (s.result.Success? ==>
            && s.plane.log == st.log + [Call.DescribeRoute(ref.name), Call.DeleteRoute(ref.name)]
            && s.plane.records == st.records - {ref.name})
  {
  }

  /** An observed-only route that a describe reports missing ends the pass
      with "route not found": the delete path of a reconcile pass does not
      treat a vanished route as deleted. */
  lemma RemoveObservedMissing(env: Env, st: Plane, ref: RouteRef)
    requires st.Valid()
    requires || env.fault(Call.DescribeRoute(ref.name)) == Some(NotFoundException)
             || (env.fault(Call.DescribeRoute(ref.name)).None? && ref.name !in st.records)
    ensures RemoveObserved(env, st, ref).result == Failure(RouteNotFound(ref.name))
  {
  }

  /** The third loop of `reconcile`: remove each observed-only reference in
      turn; the first error ends the batch. Records of other names are
      never touched and no record is added. */
  function DeleteAll(env: Env, st: Plane, refs: seq<RouteRef>): (s: Step<()>)
    requires st.Valid()
    ensures s.plane.Valid()
    ensures Grown(st.log, s.plane.log, Deleting)
    ensures s.plane.records.Keys <= st.records.Keys
    ensures s.plane.records - KeySet(refs, RefName) == st.records - KeySet(refs, RefName)
    decreases |refs|
  {
    if refs == [] then Step(Success(()), st)
    else
      var d := RemoveObserved(env, st, refs[0]);
      if d.result.Failure? then d
      else
        var s := DeleteAll(env, d.plane, refs[1..]);
        GrownTrans(st.log, d.plane.log, s.plane.log, Deleting);
        KeySetCons(refs, RefName);
        MinusStep(st.records, d.plane.records, s.plane.records, refs[0].name, KeySet(refs[1..], RefName));
        s
  }

  /** A delete batch that succeeds found and deleted every referenced
      route. */
  lemma {:induction false} DeleteAllRecords(env: Env, st: Plane, refs: seq<RouteRef>)
    requires st.Valid()
    requires DeleteAll(env, st, refs).result.Success?
    ensures KeySet(refs, RefName) <= st.records.Keys
    ensures DeleteAll(env, st, refs).plane.records == st.records - KeySet(refs, RefName)
    decreases |refs|
  {
    if refs != [] {
      var d := RemoveObserved(env, st, refs[0]);
      RemoveObservedSucceeds(env, st, refs[0]);
      DeleteAllRecords(env, d.plane, refs[1..]);
      KeySetCons(refs, RefName);
    }
  }

  /** A delete batch that succeeds issued a describe and a delete per
      reference, in order. */
  lemma {:induction false} DeleteAllLog(env: Env, st: Plane, refs: seq<RouteRef>)
    requires st.Valid()
    requires DeleteAll(env, st, refs).result.Success?
    ensures DeleteAll(env, st, refs).plane.log == st.log + DeleteCalls(refs)
    decreases |refs|
  {
    if refs != [] {
      var d := RemoveObserved(env, st, refs[0]);
      RemoveObservedSucceeds(env, st, refs[0]);
      DeleteAllLog(env, d.plane, refs[1..]);
    }
  }

  /** The delete batch stops at its first failing reference: when the
      routes before `refs[i]` were all deleted and `refs[i]` fails, the
      batch fails with that reference's error, after the describes and
      deletes of the references before it and the describe (and possibly
      the delete) of `refs[i]`. The routes deleted before it stay deleted,
      only `refs[i]`'s record may change beyond them, and nothing is issued
      for the references after it. */
  lemma DeleteAllStops(env: Env, st: Plane, refs: seq<RouteRef>, i: nat)
    requires st.Valid() && i < |refs|
    requires DeleteAll(env, st, refs[..i]).result.Success?
    requires RemoveObserved(env, DeleteAll(env, st, refs[..i]).plane, refs[i]).result.Failure?
    ensures var p := DeleteAll(env, st, refs[..i]);
      var e := RemoveObserved(env, p.plane, refs[i]);
      var s := DeleteAll(env, st, refs);
      && s == e
      && p.plane.records == st.records - KeySet(refs[..i], RefName)
      && s.plane.records - {refs[i].name} == p.plane.records - {refs[i].name}
      && p.plane.log == st.log + DeleteCalls(refs[..i])
      && (|| s.plane.log == p.plane.log + [Call.DescribeRoute(refs[i].name)]
          || s.plane.log == p.plane.log + [Call.DescribeRoute(refs[i].name), Call.DeleteRoute(refs[i].name)])
  {
    DeleteAllRecords(env, st, refs[..i]);
    DeleteAllLog(env, st, refs[..i]);
    var p := DeleteAll(env, st, refs[..i]);
    var f := FindSDKRoute(env, p.plane, refs[i]);
    if f.result.Success? && f.result.value.Some? {
      assert f.result.value.value.name == refs[i].name;
    }
    DeleteAllStopsAt(env, st, refs, i);
  }

  /** The delete batch is its prefix `refs[..i]` followed by the failing
      removal of `refs[i]`. */
  lemma {:induction false} DeleteAllStopsAt(env: Env, st: Plane, refs: seq<RouteRef>, i: nat)
    requires st.Valid() && i < |refs|
    requires DeleteAll(env, st, refs[..i]).result.Success?
    requires RemoveObserved(env, DeleteAll(env, st, refs[..i]).plane, refs[i]).result.Failure?
    ensures DeleteAll(env, st, refs) == RemoveObserved(env, DeleteAll(env, st, refs[..i]).plane, refs[i])
    decreases i
  {
    if i > 0 {
      var d := RemoveObserved(env, st, refs[0]);
      assert refs[..i][0] == refs[0];
      assert refs[..i][1..] == refs[1..][..i - 1];
      DeleteAllStopsAt(env, d.plane, refs[1..], i - 1);
    }
  }

  // ---------------------------------------------------------------------
  // A reconcile pass

  /** The matched pairs of a matching are well paired. */
  lemma MatchedWellPaired(routes: seq<Route>, refs: seq<RouteRef>)
    ensures WellPaired(MatchRoutes(routes, refs).matched)
  {
    var m := MatchRoutes(routes, refs);
    forall i, j | 0 <= i < j < |m.matched| ensures m.matched[i].route.name != m.matched[j].route.name {
      AscendingDistinct(m.MatchedNames(), i, j);
    }
  }

  /** The names of the routes to create: desired, not listed. */
  lemma DesiredOnlyNameSet(routes: seq<Route>, refs: seq<RouteRef>)
    ensures KeySet(MatchRoutes(routes, refs).desiredOnly, RouteName) == RouteNames(routes) - RefNames(refs)
  {
    var m := MatchRoutes(routes, refs);
    KeySetFromProject(m.desiredOnly, RouteName, RouteNames(routes) - RefNames(refs));
  }

  /** The names of the routes to sync: desired and listed. */
  lemma MatchedNameSet(routes: seq<Route>, refs: seq<RouteRef>)
    ensures KeySet(MatchRoutes(routes, refs).matched, PairName) == RouteNames(routes) * RefNames(refs)
    ensures KeySet(MatchRoutes(routes, refs).matched, PairRefName) == RouteNames(routes) * RefNames(refs)
  {
    var m := MatchRoutes(routes, refs);
    KeySetFromProject(m.matched, PairName, RouteNames(routes) * RefNames(refs));
    KeySetSameKey(m.matched, PairName, PairRefName);
  }

  /** The names of the routes to delete: listed, not desired. */
  lemma ObservedOnlyNameSet(routes: seq<Route>, refs: seq<RouteRef>)
    ensures KeySet(MatchRoutes(routes, refs).observedOnly, RefName) == RefNames(refs) - RouteNames(routes)
  {
    var m := MatchRoutes(routes, refs);
    KeySetFromProject(m.observedOnly, RefName, RefNames(refs) - RouteNames(routes));
  }

  /** The three batches of `reconcile` run on a matching; the first error
      ends the pass, and on success the result maps every created or
      synced name to its remote record. */
  function RunBatches(env: Env, build: Builder, table: BackendTable, st: Plane, m: Matching): (s: Step<map<string, RouteRecord>>)
    requires st.Valid()
    ensures s.plane.Valid()
  {
    var c := CreateAll(env, build, table, st, m.desiredOnly, map[]);
    if c.result.Failure? then c
    else
      var u := UpdateAll(env, build, table, c.plane, m.matched, c.result.value);
      if u.result.Failure? then u
      else
        var d := DeleteAll(env, u.plane, m.observedOnly);
        if d.result.Failure? then Step(Failure(d.result.error), d.plane)
        else Step(Success(u.result.value), d.plane)
  }

  /** `reconcile`: match the desired routes against the listed references,
      then run the three batches. */
  function Reconcile(env: Env, build: Builder, table: BackendTable, st: Plane,
                     routes: seq<Route>, refs: seq<RouteRef>): (s: Step<map<string, RouteRecord>>)
    requires st.Valid()
    ensures s.plane.Valid()
  {
    RunBatches(env, build, table, st, MatchRoutes(routes, refs))
  }

  /** The rank of a mutating call in a reconcile pass. */
  function Rank(c: Call): nat {
    match c
    case CreateRoute(_, _) => 0
    case UpdateRoute(_, _) => 1
    case DeleteRoute(_) => 2
    case _ => 0
  }

  /** No mutating call follows one of a later batch: creates come before
      updates, and updates before deletes. */
  predicate MutationsOrdered(calls: seq<Call>) {
    forall i, j | 0 <= i < j < |calls| && calls[i].IsMutation() && calls[j].IsMutation() ::
      Rank(calls[i]) <= Rank(calls[j])
  }

  /** The batch a position of a three-batch log falls in. */
  lemma PhaseAt(a: seq<Call>, b: seq<Call>, c: seq<Call>, d: seq<Call>, x: int)
    requires Grown(a, b, Creating) && Grown(b, c, Syncing) && Grown(c, d, Deleting)
    requires |a| <= x < |d|
    ensures x < |b| ==> InPhase(d[x], Creating)
    ensures |b| <= x < |c| ==> InPhase(d[x], Syncing)
    ensures |c| <= x ==> InPhase(d[x], Deleting)
  {
    if x < |b| {
      assert d[x] == c[x] == b[x] == b[|a|..][x - |a|];
    } else if x < |c| {
      assert d[x] == c[x] == c[|b|..][x - |b|];
    } else {
      assert d[x] == d[|c|..][x - |c|];
    }
  }

  /** A log grown by a create batch, then a sync batch, then a delete
      batch orders its mutations. */
  lemma PhasesOrdered(a: seq<Call>, b: seq<Call>, c: seq<Call>, d: seq<Call>)
    requires Grown(a, b, Creating) && Grown(b, c, Syncing) && Grown(c, d, Deleting)
    ensures |a| <= |d| && MutationsOrdered(d[|a|..])
  {
    var calls := d[|a|..];
    forall i, j | 0 <= i < j < |calls| && calls[i].IsMutation() && calls[j].IsMutation()
      ensures Rank(calls[i]) <= Rank(calls[j])
    {
      PhaseAt(a, b, c, d, |a| + i);
      PhaseAt(a, b, c, d, |a| + j);
    }
  }

  /** Whatever the outcome, the batches only append to the log, and they
      issue every create before any update and every update before any
      delete. */
  lemma BatchesOrdered(env: Env, build: Builder, table: BackendTable, st: Plane, m: Matching)
    requires st.Valid()
    ensures var s := RunBatches(env, build, table, st, m);
      st.log <= s.plane.log && MutationsOrdered(s.plane.log[|st.log|..])
  {
    var c := CreateAll(env, build, table, st, m.desiredOnly, map[]);
    if c.result.Failure? {
      PhasesOrdered(st.log, c.plane.log, c.plane.log, c.plane.log);
    } else {
      var u := UpdateAll(env, build, table, c.plane, m.matched, c.result.value);
      if u.result.Failure? {
        PhasesOrdered(st.log, c.plane.log, u.plane.log, u.plane.log);
      } else {
        var d := DeleteAll(env, u.plane, m.observedOnly);
        PhasesOrdered(st.log, c.plane.log, u.plane.log, d.plane.log);
      }
    }
  }

  /** The batches stop at the first error, with no rollback. A failed
      create batch is the whole pass, so it issued nothing but creates; a
      failed update batch ends the pass before any delete is issued; a
      failed delete batch ends it with that batch's error and plane. */
  lemma BatchesFailFast(env: Env, build: Builder, table: BackendTable, st: Plane, m: Matching)
    requires st.Valid()
    ensures var s := RunBatches(env, build, table, st, m);
      var c := CreateAll(env, build, table, st, m.desiredOnly, map[]);
      c.result.Failure? ==>
        && s == c
        && st.log <= s.plane.log
        && forall x | x in s.plane.log[|st.log|..] :: x.CreateRoute?
    ensures var s := RunBatches(env, build, table, st, m);
      var c := CreateAll(env, build, table, st, m.desiredOnly, map[]);
      c.result.Success? ==>
        var u := UpdateAll(env, build, table, c.plane, m.matched, c.result.value);
        u.result.Failure? ==>
          && s == u
          && st.log <= s.plane.log
          && forall x | x in s.plane.log[|st.log|..] :: !x.DeleteRoute?
    ensures var s := RunBatches(env, build, table, st, m);
      var c := CreateAll(env, build, table, st, m.desiredOnly, map[]);
      c.result.Success? ==>
        var u := UpdateAll(env, build, table, c.plane, m.matched, c.result.value);
        u.result.Success? ==>
          var d := DeleteAll(env, u.plane, m.observedOnly);
          d.result.Failure? ==> s == Step(Failure(d.result.error), d.plane)
  {
    var c := CreateAll(env, build, table, st, m.desiredOnly, map[]);
    if c.result.Failure? {
      forall x | x in c.plane.log[|st.log|..]
        ensures x.CreateRoute?
      {
        assert InPhase(x, Creating);
      }
    } else {
      var u := UpdateAll(env, build, table, c.plane, m.matched, c.result.value);
      if u.result.Failure? {
        PrefixSplit(st.log, c.plane.log, u.plane.log);
        forall x | x in u.plane.log[|st.log|..]
          ensures !x.DeleteRoute?
        {
          if x in c.plane.log[|st.log|..] {
            assert InPhase(x, Creating);
          } else {
            assert InPhase(x, Syncing);
          }
        }
      }
    }
  }

  /** The outputs of a matching name disjoint sets of routes, and its
      matched pairs are well paired. */
  predicate Partitioned(m: Matching) {
    && WellPaired(m.matched)
    && KeySet(m.matched, PairName) == KeySet(m.matched, PairRefName)
    && KeySet(m.desiredOnly, RouteName) !! KeySet(m.matched, PairRefName)
    && KeySet(m.desiredOnly, RouteName) !! KeySet(m.observedOnly, RefName)
    && KeySet(m.matched, PairRefName) !! KeySet(m.observedOnly, RefName)
  }

  lemma MatchPartitioned(routes: seq<Route>, refs: seq<RouteRef>)
    ensures Partitioned(MatchRoutes(routes, refs))
  {
    MatchedWellPaired(routes, refs);
    DesiredOnlyNameSet(routes, refs);
    MatchedNameSet(routes, refs);
    ObservedOnlyNameSet(routes, refs);
  }

  /** Batches that succeed ran all three to success, in order. */
  lemma BatchesUnfold(env: Env, build: Builder, table: BackendTable, st: Plane, m: Matching)
    requires st.Valid()
    requires RunBatches(env, build, table, st, m).result.Success?
    ensures var c := CreateAll(env, build, table, st, m.desiredOnly, map[]);
      && c.result.Success?
      && var u := UpdateAll(env, build, table, c.plane, m.matched, c.result.value);
      && u.result.Success?
      && var d := DeleteAll(env, u.plane, m.observedOnly);
      && d.result.Success?
      && RunBatches(env, build, table, st, m) == Step(Success(u.result.value), d.plane)
  {
  }

  /** Batches that succeed created only absent names and found every name
      they synced or deleted; afterwards the remote names are the old ones
      plus the created ones minus the deleted ones. */
  lemma BatchesKeys(env: Env, build: Builder, table: BackendTable, st: Plane, m: Matching)
    requires st.Valid() && Partitioned(m)
    requires RunBatches(env, build, table, st, m).result.Success?
    ensures KeySet(m.desiredOnly, RouteName) !! st.records.Keys
    ensures KeySet(m.matched, PairRefName) <= st.records.Keys
    ensures KeySet(m.observedOnly, RefName) <= st.records.Keys
    ensures RunBatches(env, build, table, st, m).plane.records.Keys
      == (st.records.Keys + KeySet(m.desiredOnly, RouteName)) - KeySet(m.observedOnly, RefName)
  {
    BatchesUnfold(env, build, table, st, m);
    var c := CreateAll(env, build, table, st, m.desiredOnly, map[]);
    var u := UpdateAll(env, build, table, c.plane, m.matched, c.result.value);
    var d := DeleteAll(env, u.plane, m.observedOnly);
    assert c.plane.records.Keys == st.records.Keys + KeySet(m.desiredOnly, RouteName)
      && KeySet(m.desiredOnly, RouteName) !! st.records.Keys by {
      CreateAllKeys(env, build, table, st, m.desiredOnly, map[]);
    }
    assert u.plane.records.Keys == c.plane.records.Keys && KeySet(m.matched, PairRefName) <= c.plane.records.Keys by {
      UpdateAllKeys(env, build, table, c.plane, m.matched, c.result.value);
      UpdateAllFound(env, build, table, c.plane, m.matched, c.result.value);
      KeySetWithin(m.matched, PairRefName, c.plane.records.Keys);
    }
    assert d.plane.records == u.plane.records - KeySet(m.observedOnly, RefName)
      && KeySet(m.observedOnly, RefName) <= u.plane.records.Keys by {
      DeleteAllRecords(env, u.plane, m.observedOnly);
    }
  }

  /** Batches that succeed issued exactly the creates, the describes and
      needed updates, and the describes and deletes their inputs call for,
      in that order. */
  lemma BatchesLog(env: Env, build: Builder, table: BackendTable, st: Plane, m: Matching)
    requires st.Valid() && Partitioned(m)
    requires RunBatches(env, build, table, st, m).result.Success?
    ensures forall r | r in m.desiredOnly :: build(r, table).Success?
    ensures forall p | p in m.matched :: build(p.route, table).Success? && p.ref.name in st.records
    ensures RunBatches(env, build, table, st, m).plane.log
      == st.log + CreateCalls(build, table, m.desiredOnly)
         + UpdateCalls(build, table, m.matched, st.records) + DeleteCalls(m.observedOnly)
  {
    BatchesUnfold(env, build, table, st, m);
    var c := CreateAll(env, build, table, st, m.desiredOnly, map[]);
    var u := UpdateAll(env, build, table, c.plane, m.matched, c.result.value);
    var d := DeleteAll(env, u.plane, m.observedOnly);
    assert (forall r | r in m.desiredOnly :: build(r, table).Success?)
      && c.plane.log == st.log + CreateCalls(build, table, m.desiredOnly) by {
      CreateAllLog(env, build, table, st, m.desiredOnly, map[]);
    }
    assert (forall p | p in m.matched :: build(p.route, table).Success? && p.ref.name in c.plane.records)
      && u.plane.log == c.plane.log + UpdateCalls(build, table, m.matched, c.plane.records) by {
      UpdateAllLog(env, build, table, c.plane, m.matched, c.result.value);
    }
    assert forall p | p in m.matched :: p.ref.name in st.records by {
      BatchesKeys(env, build, table, st, m);
      InKeySet(m.matched, PairRefName);
    }
    assert UpdateCalls(build, table, m.matched, c.plane.records) == UpdateCalls(build, table, m.matched, st.records) by {
      UpdateCallsAgree(build, table, m.matched, c.plane.records, st.records);
    }
    assert d.plane.log == u.plane.log + DeleteCalls(m.observedOnly) by {
      DeleteAllLog(env, u.plane, m.observedOnly);
    }
  }

  /** Batches that succeed return the created and the synced names. */
  lemma BatchesResultKeys(env: Env, build: Builder, table: BackendTable, st: Plane, m: Matching)
    requires st.Valid() && Partitioned(m)
    requires RunBatches(env, build, table, st, m).result.Success?
    ensures RunBatches(env, build, table, st, m).result.value.Keys
      == KeySet(m.desiredOnly, RouteName) + KeySet(m.matched, PairName)
  {
    BatchesUnfold(env, build, table, st, m);
    var c := CreateAll(env, build, table, st, m.desiredOnly, map[]);
    CreateAllResult(env, build, table, st, m.desiredOnly, map[]);
    UpdateAllResultKeys(env, build, table, c.plane, m.matched, c.result.value);
  }

  /** After batches that succeed, every created route is remote at version
      1 with the spec built from it, and the result holds that record. */
  lemma BatchesCreated(env: Env, build: Builder, table: BackendTable, st: Plane, m: Matching)
    requires st.Valid() && Partitioned(m)
    requires RunBatches(env, build, table, st, m).result.Success?
    ensures forall r | r in m.desiredOnly :: build(r, table).Success?
    ensures var s := RunBatches(env, build, table, st, m);
      forall r | r in m.desiredOnly ::
        && r.name in s.plane.records
        && s.plane.records[r.name] == RouteRecord(r.name, build(r, table).value, 1)
        && r.name in s.result.value
        && s.result.value[r.name] == s.plane.records[r.name]
  {
    BatchesUnfold(env, build, table, st, m);
    var c := CreateAll(env, build, table, st, m.desiredOnly, map[]);
    var u := UpdateAll(env, build, table, c.plane, m.matched, c.result.value);
    var d := DeleteAll(env, u.plane, m.observedOnly);
    var dn := KeySet(m.desiredOnly, RouteName);
    var mn := KeySet(m.matched, PairRefName);
    var on := KeySet(m.observedOnly, RefName);
    InKeySet(m.desiredOnly, RouteName);
    assert forall r | r in m.desiredOnly :: build(r, table).Success? by {
      CreateAllLog(env, build, table, st, m.desiredOnly, map[]);
    }
    forall r | r in m.desiredOnly
      ensures r.name in d.plane.records
      ensures d.plane.records[r.name] == RouteRecord(r.name, build(r, table).value, 1)
      ensures r.name in u.result.value && u.result.value[r.name] == d.plane.records[r.name]
    {
      assert r.name in dn && r.name !in mn && r.name !in on;
      assert r.name in c.plane.records && c.plane.records[r.name] == RouteRecord(r.name, build(r, table).value, 1)
        && c.result.value[r.name] == c.plane.records[r.name] by {
        var i :| 0 <= i < |m.desiredOnly| && m.desiredOnly[i] == r;
        CreateAllSpecs(env, build, table, st, m.desiredOnly, map[]);
        CreateAllResult(env, build, table, st, m.desiredOnly, map[]);
      }
      assert r.name in u.plane.records && u.plane.records[r.name] == c.plane.records[r.name] by {
        MinusKeeps(u.plane.records, c.plane.records, mn, r.name);
      }
      assert r.name in u.result.value && u.result.value[r.name] == c.result.value[r.name] by {
        UpdateAllResultKeys(env, build, table, c.plane, m.matched, c.result.value);
        CreateAllResult(env, build, table, st, m.desiredOnly, map[]);
      }
      assert d.plane.records == u.plane.records - on by {
        DeleteAllRecords(env, u.plane, m.observedOnly);
      }
    }
  }

  /** After batches that succeed, every matched route's remote spec equals
      the spec built from it, and the result holds its record. */
  lemma BatchesSynced(env: Env, build: Builder, table: BackendTable, st: Plane, m: Matching)
    requires st.Valid() && Partitioned(m)
    requires RunBatches(env, build, table, st, m).result.Success?
    ensures forall p | p in m.matched :: build(p.route, table).Success?
    ensures var s := RunBatches(env, build, table, st, m);
      forall p | p in m.matched ::
        && p.ref.name in s.plane.records
        && SpecEquiv(build(p.route, table).value, s.plane.records[p.ref.name].spec)
        && p.route.name in s.result.value
        && s.result.value[p.route.name] == s.plane.records[p.ref.name]
  {
    BatchesUnfold(env, build, table, st, m);
    var c := CreateAll(env, build, table, st, m.desiredOnly, map[]);
    var u := UpdateAll(env, build, table, c.plane, m.matched, c.result.value);
    var d := DeleteAll(env, u.plane, m.observedOnly);
    var on := KeySet(m.observedOnly, RefName);
    assert forall p | p in m.matched ::
      && build(p.route, table).Success?
      && p.ref.name in u.plane.records
      && SpecEquiv(build(p.route, table).value, u.plane.records[p.ref.name].spec)
      && p.route.name in u.result.value
      && u.result.value[p.route.name] == u.plane.records[p.ref.name] by {
      UpdateAllSpecs(env, build, table, c.plane, m.matched, c.result.value);
      UpdateAllResult(env, build, table, c.plane, m.matched, c.result.value);
    }
    assert forall p | p in m.matched :: p.ref.name !in on by {
      InKeySet(m.matched, PairRefName);
    }
    assert d.plane.records == u.plane.records - on by {
      DeleteAllRecords(env, u.plane, m.observedOnly);
    }
  }

  /** Batches that succeed leave every remote route none of their inputs
      names exactly as it was. */
  lemma BatchesUntouched(env: Env, build: Builder, table: BackendTable, st: Plane, m: Matching, n: string)
    requires st.Valid()
    requires RunBatches(env, build, table, st, m).result.Success?
    requires n in st.records
    requires n !in KeySet(m.matched, PairRefName) && n !in KeySet(m.observedOnly, RefName)
    ensures var s := RunBatches(env, build, table, st, m);
      n in s.plane.records && s.plane.records[n] == st.records[n]
  {
    BatchesUnfold(env, build, table, st, m);
    var c := CreateAll(env, build, table, st, m.desiredOnly, map[]);
    var u := UpdateAll(env, build, table, c.plane, m.matched, c.result.value);
    MinusKeeps(u.plane.records, c.plane.records, KeySet(m.matched, PairRefName), n);
    DeleteAllRecords(env, u.plane, m.observedOnly);
  }

  /** Whatever the outcome, a reconcile pass only appends to the log, and
      it issues every create before any update and every update before any
      delete. */
  lemma ReconcileOrdered(env: Env, build: Builder, table: BackendTable, st: Plane,
                         routes: seq<Route>, refs: seq<RouteRef>)
    requires st.Valid()
    ensures var s := Reconcile(env, build, table, st, routes, refs);
      st.log <= s.plane.log && MutationsOrdered(s.plane.log[|st.log|..])
  {
    BatchesOrdered(env, build, table, st, MatchRoutes(routes, refs));
  }

  /** `reconcile` returns at its first error: a failed create issues
      nothing but creates, and a failed describe or update issues no
      delete. */
  lemma ReconcileFailFast(env: Env, build: Builder, table: BackendTable, st: Plane,
                          routes: seq<Route>, refs: seq<RouteRef>)
    requires st.Valid()
    ensures var m := MatchRoutes(routes, refs);
      var s := Reconcile(env, build, table, st, routes, refs);
      var c := CreateAll(env, build, table, st, m.desiredOnly, map[]);
      c.result.Failure? ==>
        && s == c
        && st.log <= s.plane.log
        && forall x | x in s.plane.log[|st.log|..] :: x.CreateRoute?
    ensures var m := MatchRoutes(routes, refs);
      var s := Reconcile(env, build, table, st, routes, refs);
      var c := CreateAll(env, build, table, st, m.desiredOnly, map[]);
      c.result.Success? ==>
        var u := UpdateAll(env, build, table, c.plane, m.matched, c.result.value);
        u.result.Failure? ==>
          && s == u
          && st.log <= s.plane.log
          && forall x | x in s.plane.log[|st.log|..] :: !x.DeleteRoute?
  {
    BatchesFailFast(env, build, table, st, MatchRoutes(routes, refs));
  }

  /** A reconcile pass that succeeds found every listed route remote and
      none of the routes it created; afterwards the remote names are the
      old ones minus the listed ones plus the desired ones, and the result
      has exactly the desired names. */
  lemma ReconcileNames(env: Env, build: Builder, table: BackendTable, st: Plane,
                       routes: seq<Route>, refs: seq<RouteRef>)
    requires st.Valid()
    requires Reconcile(env, build, table, st, routes, refs).result.Success?
    ensures var s := Reconcile(env, build, table, st, routes, refs);
      && RefNames(refs) <= st.records.Keys
      && (RouteNames(routes) - RefNames(refs)) !! st.records.Keys
      && s.plane.records.Keys == (st.records.Keys - RefNames(refs)) + RouteNames(routes)
      && s.result.value.Keys == RouteNames(routes)
  {
    var m := MatchRoutes(routes, refs);
    var s := Reconcile(env, build, table, st, routes, refs);
    var rn, fn := RouteNames(routes), RefNames(refs);
    assert Partitioned(m) by {
      MatchPartitioned(routes, refs);
    }
    assert KeySet(m.desiredOnly, RouteName) == rn - fn by {
      DesiredOnlyNameSet(routes, refs);
    }
    assert KeySet(m.matched, PairName) == rn * fn && KeySet(m.matched, PairRefName) == rn * fn by {
      MatchedNameSet(routes, refs);
    }
    assert KeySet(m.observedOnly, RefName) == fn - rn by {
      ObservedOnlyNameSet(routes, refs);
    }
    assert && (rn - fn) !! st.records.Keys
           && rn * fn <= st.records.Keys
           && fn - rn <= st.records.Keys
           && s.plane.records.Keys == (st.records.Keys + (rn - fn)) - (fn - rn) by {
      BatchesKeys(env, build, table, st, m);
    }
    assert s.result.value.Keys == (rn - fn) + rn * fn by {
      BatchesResultKeys(env, build, table, st, m);
    }
    NameAlgebra(st.records.Keys, rn, fn);
  }

  /** The set identities behind the names a reconcile pass leaves. */
  lemma NameAlgebra(before: set<string>, rn: set<string>, fn: set<string>)
    requires rn * fn <= before && fn - rn <= before && (rn - fn) !! before
    ensures fn <= before
    ensures (before + (rn - fn)) - (fn - rn) == (before - fn) + rn
    ensures (rn - fn) + rn * fn == rn
  {
  }

  /** A reconcile pass that succeeds leaves every remote route the listing
      did not name exactly as it was. */
  lemma ReconcileUntouched(env: Env, build: Builder, table: BackendTable, st: Plane,
                           routes: seq<Route>, refs: seq<RouteRef>, n: string)
    requires st.Valid()
    requires Reconcile(env, build, table, st, routes, refs).result.Success?
    requires n in st.records && n !in RefNames(refs)
    ensures var s := Reconcile(env, build, table, st, routes, refs);
      n in s.plane.records && s.plane.records[n] == st.records[n]
  {
    var m := MatchRoutes(routes, refs);
    MatchedNameSet(routes, refs);
    ObservedOnlyNameSet(routes, refs);
    BatchesUntouched(env, build, table, st, m, n);
  }

  /** A reconcile pass that succeeds issued exactly: a create per
      desired-only route, then a describe per matched route with an update
      where the specs differed, then a describe and a delete per
      observed-only reference. */
  lemma ReconcileLog(env: Env, build: Builder, table: BackendTable, st: Plane,
                     routes: seq<Route>, refs: seq<RouteRef>)
    requires st.Valid()
    requires Reconcile(env, build, table, st, routes, refs).result.Success?
    ensures var m := MatchRoutes(routes, refs);
      && (forall r | r in m.desiredOnly :: build(r, table).Success?)
      && (forall p | p in m.matched :: build(p.route, table).Success? && p.ref.name in st.records)
      && Reconcile(env, build, table, st, routes, refs).plane.log
         == st.log + CreateCalls(build, table, m.desiredOnly)
            + UpdateCalls(build, table, m.matched, st.records) + DeleteCalls(m.observedOnly)
  {
    MatchPartitioned(routes, refs);
    BatchesLog(env, build, table, st, MatchRoutes(routes, refs));
  }

  /** The desired route a reconcile pass acts on for name `n`: the last
      route of that name. */
  function LastRoute(routes: seq<Route>, n: string): Route
    requires n in RouteNames(routes)
  {
    routes[LastIndex(routes, RouteName, n)]
  }

  /** A reconcile pass that succeeds converges: for every desired name, the
      spec built from the last route of that name is what the remote
      route holds, and the result maps the name to that remote record; a
      route it had to create is at version 1 with exactly the built spec. */
  lemma ReconcileConverges(env: Env, build: Builder, table: BackendTable, st: Plane,
                           routes: seq<Route>, refs: seq<RouteRef>, n: string)
    requires st.Valid()
    requires Reconcile(env, build, table, st, routes, refs).result.Success?
    requires n in RouteNames(routes)
    ensures build(LastRoute(routes, n), table).Success?
    ensures var s := Reconcile(env, build, table, st, routes, refs);
      && n in s.plane.records
      && SpecEquiv(build(LastRoute(routes, n), table).value, s.plane.records[n].spec)
      && n in s.result.value
      && s.result.value[n] == s.plane.records[n]
      && (n !in RefNames(refs) ==>
            s.plane.records[n] == RouteRecord(n, build(LastRoute(routes, n), table).value, 1))
  {
    var m := MatchRoutes(routes, refs);
    MatchPartitioned(routes, refs);
    if n in RefNames(refs) {
      var p := MatchedPairOf(routes, refs, n);
      BatchesSynced(env, build, table, st, m);
    } else {
      var r := DesiredOnlyOf(routes, refs, n);
      BatchesCreated(env, build, table, st, m);
      SpecEquivIsEquivalence(build(r, table).value, build(r, table).value, build(r, table).value);
    }
  }

  /** The matched pair of a name both desired and listed pairs the last
      route of that name. */
  lemma MatchedPairOf(routes: seq<Route>, refs: seq<RouteRef>, n: string) returns (p: Pair)
    requires n in RouteNames(routes) && n in RefNames(refs)
    ensures p in MatchRoutes(routes, refs).matched
    ensures p.route == LastRoute(routes, n) && p.ref.name == n
  {
    var m := MatchRoutes(routes, refs);
    MatchedNameSet(routes, refs);
    var i :| 0 <= i < |m.matched| && m.matched[i].route.name == n;
    p := m.matched[i];
    assert p in m.matched;
  }

  /** The route created for a name desired but not listed is the last
      route of that name. */
  lemma DesiredOnlyOf(routes: seq<Route>, refs: seq<RouteRef>, n: string) returns (r: Route)
    requires n in RouteNames(routes) && n !in RefNames(refs)
    ensures r in MatchRoutes(routes, refs).desiredOnly
    ensures r == LastRoute(routes, n)
  {
    var m := MatchRoutes(routes, refs);
    DesiredOnlyNameSet(routes, refs);
    var i :| 0 <= i < |m.desiredOnly| && m.desiredOnly[i].name == n;
    r := m.desiredOnly[i];
    assert r in m.desiredOnly;
  }

}

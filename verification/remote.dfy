/** The App Mesh route API as the reconciler sees it: list, describe,
    create, update and delete against one virtual router's routes. Every
    call is appended to the plane's log, whether it succeeds or not. */
module Remote {
  import opened Wrappers
  import opened Types
  import opened Order
  import opened Index

  /** The plane after `call` was issued, with its routes replaced. */
  function Issue(st: Plane, call: Call, records: map<string, RouteRecord>): Plane {
    Plane(records, st.log + [call])
  }

  /** The references a listing returns for the given names. */
  function RefsFor(env: Env, names: seq<string>): (refs: seq<RouteRef>)
    ensures Project(refs, RefName) == names
  {
    var refs := seq(|names|, i requires 0 <= i < |names| => RouteRef(env.meshName, env.routerName, names[i]));
    ProjectIs(refs, RefName, names);
    refs
  }

  /** `ListRoutesPagesWithContext`, with all pages concatenated. */
  function List(env: Env, st: Plane): (s: Step<seq<RouteRef>>)
    ensures s.plane == Issue(st, Call.ListRoutes, st.records)
    ensures s.result.Success? ==>
      && StrictlyAscending(Project(s.result.value, RefName))
      && (forall n :: n in Project(s.result.value, RefName) <==> n in st.records)
  {
    var st' := Issue(st, Call.ListRoutes, st.records);
    match env.fault(Call.ListRoutes)
    case Some(code) => Step(Failure(ApiError(code)), st')
    case None => Step(Success(RefsFor(env, SortedList(st.records.Keys))), st')
  }

  /** `DescribeRouteWithContext`: returns the stored record unchanged, so
      the service is taken to apply no defaults or normalisation to a spec. */
  function Describe(env: Env, st: Plane, name: string): (s: Step<RouteRecord>)
    ensures s.plane.log == st.log + [Call.DescribeRoute(name)]
  {
    var call := Call.DescribeRoute(name);
    match env.fault(call)
    case Some(NotFoundException) => Step(Failure(ApiError(NotFoundException)), Issue(st, call, st.records - {name}))
    case Some(code) => Step(Failure(ApiError(code)), Issue(st, call, st.records))
    case None =>
      if name in st.records then Step(Success(st.records[name]), Issue(st, call, st.records))
      else Step(Failure(ApiError(NotFoundException)), Issue(st, call, st.records))
  }

  /** `CreateRouteWithContext`; creating a name that exists is a conflict. */
  function Create(env: Env, st: Plane, name: string, spec: RouteSpec): (s: Step<RouteRecord>)
    ensures s.plane.log == st.log + [Call.CreateRoute(name, spec)]
  {
    var call := Call.CreateRoute(name, spec);
    match env.fault(call)
    case Some(code) => Step(Failure(ApiError(code)), Issue(st, call, st.records))
    case None =>
      if name in st.records then Step(Failure(ApiError(OtherException)), Issue(st, call, st.records))
      else
        var rec := RouteRecord(name, spec, 1);
        Step(Success(rec), Issue(st, call, st.records[name := rec]))
  }

  /** `UpdateRouteWithContext`: replaces the spec and bumps the version. */
  function Update(env: Env, st: Plane, name: string, spec: RouteSpec): (s: Step<RouteRecord>)
    ensures s.plane.log == st.log + [Call.UpdateRoute(name, spec)]
  {
    var call := Call.UpdateRoute(name, spec);
    match env.fault(call)
    case Some(NotFoundException) => Step(Failure(ApiError(NotFoundException)), Issue(st, call, st.records - {name}))
    case Some(code) => Step(Failure(ApiError(code)), Issue(st, call, st.records))
    case None =>
      if name in st.records then
        var rec := RouteRecord(name, spec, st.records[name].version + 1);
        Step(Success(rec), Issue(st, call, st.records[name := rec]))
      else Step(Failure(ApiError(NotFoundException)), Issue(st, call, st.records))
  }

  /** `DeleteRouteWithContext`. */
  function Delete(env: Env, st: Plane, name: string): (s: Step<()>)
    ensures s.plane.log == st.log + [Call.DeleteRoute(name)]
  {
    var call := Call.DeleteRoute(name);
    match env.fault(call)
    case Some(NotFoundException) => Step(Failure(ApiError(NotFoundException)), Issue(st, call, st.records - {name}))
    case Some(code) => Step(Failure(ApiError(code)), Issue(st, call, st.records))
    case None =>
      if name in st.records then Step(Success(()), Issue(st, call, st.records - {name}))
      else Step(Failure(ApiError(NotFoundException)), Issue(st, call, st.records))
  }
}

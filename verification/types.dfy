/** The entities the route reconciler works on: the desired routes of a
    virtual router (the custom resource's `spec.routes`), the references and
    records the App Mesh control plane returns, the router's listeners, and
    the errors and remote calls. */
module Types {
  import opened Wrappers

  /** An `appmesh.PortProtocol` value, or the text of a listener's protocol. */
  type Protocol = string

  const ProtocolGRPC: Protocol := "grpc"
  const ProtocolHTTP: Protocol := "http"
  const ProtocolHTTP2: Protocol := "http2"
  const ProtocolTCP: Protocol := "tcp"

  /** The symbolic identity of a virtual node a route sends traffic to. */
  datatype NodeKey = NodeKey(namespace: string, name: string)

  /** One weighted backend of a route action. */
  datatype WeightedTarget = WeightedTarget(node: NodeKey, weight: int)

  /** The part of every match variant the reconciler looks at: the optional
      listener port the route is bound to. */
  datatype PortMatch = PortMatch(port: Option<int>)

  /** A TCP route; its match is itself optional (a pointer in the source). */
  datatype TcpRoute = TcpRoute(routeMatch: Option<PortMatch>, action: seq<WeightedTarget>)

  /** A gRPC route; its match is always present (a value in the source). */
  datatype GrpcRoute = GrpcRoute(routeMatch: PortMatch, action: seq<WeightedTarget>)

  /** An HTTP or HTTP/2 route; its match is always present. */
  datatype HttpRoute = HttpRoute(routeMatch: PortMatch, action: seq<WeightedTarget>)

  /** A desired route. Each variant is an optional pointer; admission is
      expected to set exactly one, but nothing here relies on that. */
  datatype Route = Route(
    name: string,
    priority: Option<int>,
    grpc: Option<GrpcRoute>,
    http2: Option<HttpRoute>,
    http: Option<HttpRoute>,
    tcp: Option<TcpRoute>)

  function RouteName(r: Route): string { r.name }

  /** A route reference from a listing: the remote identity, no spec. */
  datatype RouteRef = RouteRef(meshName: string, routerName: string, name: string)

  function RefName(r: RouteRef): string { r.name }

  /** A listener of the remote virtual router (its port mapping); both
      fields are pointers in the SDK and read as 0 and "" when nil. */
  datatype Listener = Listener(port: Option<int>, protocol: Option<Protocol>)

  function ListenerPort(l: Listener): int { l.port.GetOr(0) }

  /** Resolution of symbolic virtual-node identities to App Mesh names. */
  type BackendTable = map<NodeKey, string>

  /** A concrete remote route target. */
  datatype SpecTarget = SpecTarget(node: string, weight: int)

  /** A remote route spec, reduced to a few fields. A slice field is `None`
      when the slice is nil; a pointer field is `None` when nil. */
  datatype RouteSpec = RouteSpec(
    priority: Option<int>,
    protocol: Protocol,
    port: Option<int>,
    targets: Option<seq<SpecTarget>>,
    retryEvents: Option<seq<string>>)

  /** Slice comparison under `cmpopts.EquateEmpty`: a nil slice and an
      empty one are the same, otherwise elements are compared in order. */
  predicate SameSlice<T(==)>(a: Option<seq<T>>, b: Option<seq<T>>) {
    a.GetOr([]) == b.GetOr([])
  }

  /** `cmp.Equal(a, b, cmpopts.EquateEmpty())` on route specs. */
  predicate SpecEquiv(a: RouteSpec, b: RouteSpec) {
    && a.priority == b.priority
    && a.protocol == b.protocol
    && a.port == b.port
    && SameSlice(a.targets, b.targets)
    && SameSlice(a.retryEvents, b.retryEvents)
  }

  /** The comparison is an equivalence: reflexive, symmetric and
      transitive. */
  lemma SpecEquivIsEquivalence(a: RouteSpec, b: RouteSpec, c: RouteSpec)
    ensures SpecEquiv(a, a)
    ensures SpecEquiv(a, b) ==> SpecEquiv(b, a)
    ensures SpecEquiv(a, b) && SpecEquiv(b, c) ==> SpecEquiv(a, c)
  {
  }

  /** A nil slice and an empty slice compare equal: a spec without retry
      events and one with an empty list of them are the same spec. */
  lemma EmptyEquatesAbsent(a: RouteSpec)
    ensures SpecEquiv(a.(retryEvents := None), a.(retryEvents := Some([])))
    ensures SpecEquiv(a.(targets := None), a.(targets := Some([])))
    ensures a.priority.Some? ==> !SpecEquiv(a, a.(priority := None))
  {
  }

  /** The remote record of a route: its name, spec and a version that the
      control plane bumps on every update. */
  datatype RouteRecord = RouteRecord(name: string, spec: RouteSpec, version: nat)

  /** AWS error codes, reduced to the one the reconciler distinguishes. */
  datatype ApiCode = NotFoundException | OtherException

  datatype Error =
    | ApiError(code: ApiCode)        // returned by the control plane
    | ConversionError(detail: string) // returned by the spec builder
    | RouteNotFound(name: string)     // "route not found: <name>"

  type Res<T> = Result<T, Error>

  /** One call issued to the control plane. */
  datatype Call =
    | ListRoutes
    | DescribeRoute(name: string)
    | CreateRoute(name: string, spec: RouteSpec)
    | UpdateRoute(name: string, spec: RouteSpec)
    | DeleteRoute(name: string)
  {
    /** Calls that change the remote route set or a route's spec. */
    predicate IsMutation() {
      CreateRoute? || UpdateRoute? || DeleteRoute?
    }
  }

  /** `BuildSDKRouteSpec`: the desired spec of a route given the backend
      table, or a conversion error. */
  type Builder = (Route, BackendTable) -> Res<RouteSpec>

  /** The fixed context of one route manager: the router's identity and
      which remote calls fail with which code. A fault `NotFoundException`
      on a describe, update or delete of a name stands for a concurrent
      deletion of that route by someone else. */
  datatype Env = Env(
    meshName: string,
    routerName: string,
    fault: Call -> Option<ApiCode>)

  /** No remote call fails. */
  ghost predicate NoFaults(env: Env) {
    forall c :: env.fault(c).None?
  }

  /** The routes of the virtual router as the control plane holds them,
      with the log of every call issued so far. */
  datatype Plane = Plane(records: map<string, RouteRecord>, log: seq<Call>) {

    /** Every record is stored under its own name. */
    predicate Valid() {
      forall n | n in records :: records[n].name == n
    }
  }

  /** The outcome of an operation and the control plane after it. */
  datatype Step<T> = Step(result: Res<T>, plane: Plane)
}

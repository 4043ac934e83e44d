/** `taintedSDKRouteRefs`: the remote routes that must be deleted before a
    listener of the virtual router can be updated or deleted. */
module Taint {
  import opened Wrappers
  import opened Types
  import opened Order
  import opened Index
  import opened Matcher

  /** The router's listeners as a port-to-protocol table. A later listener
      on the same port overwrites an earlier one; a nil port reads as 0 and
      a nil protocol as "". */
  function ListenerTable(listeners: seq<Listener>): (t: map<int, Protocol>)
    ensures t.Keys == KeySet(listeners, ListenerPort)
    ensures forall p | p in t ::
      t[p] == listeners[LastIndex(listeners, ListenerPort, p)].protocol.GetOr("")
  {
    var byPort := IndexBy(listeners, ListenerPort);
    map p | p in byPort :: byPort[p].protocol.GetOr("")
  }

  /** A Go map lookup: the zero value "" when no listener has the port. */
  function ProtocolAt(t: map<int, Protocol>, port: int): Protocol {
    if port in t then t[port] else ""
  }

  /** The port declared by each variant, when the variant is present and
      its match carries one. */
  function TcpPort(route: Route): Option<int> {
    if route.tcp.Some? && route.tcp.value.routeMatch.Some? then route.tcp.value.routeMatch.value.port else None
  }

  function GrpcPort(route: Route): Option<int> {
    if route.grpc.Some? then route.grpc.value.routeMatch.port else None
  }

  function Http2Port(route: Route): Option<int> {
    if route.http2.Some? then route.http2.value.routeMatch.port else None
  }

  function HttpPort(route: Route): Option<int> {
    if route.http.Some? then route.http.value.routeMatch.port else None
  }

  /** The `if ... else if ...` test of the source, in its order: TCP, gRPC,
      HTTP/2, HTTP. Only a route that declares a port can conflict;
      `ConflictsIffUnserved` characterises the test completely. */
  predicate Conflicts(route: Route, t: map<int, Protocol>): (c: bool)
    ensures c ==> Bindings(route) != {}
  {
    if TcpPort(route).Some? && ProtocolAt(t, TcpPort(route).value) != ProtocolTCP then true
    else if GrpcPort(route).Some? && ProtocolAt(t, GrpcPort(route).value) != ProtocolGRPC then true
    else if Http2Port(route).Some? && ProtocolAt(t, Http2Port(route).value) != ProtocolHTTP2 then true
    else if HttpPort(route).Some? && ProtocolAt(t, HttpPort(route).value) != ProtocolHTTP then true
    else false
  }

  /** A port a route is bound to, with the protocol its variant implies. */
  datatype Binding = Binding(port: int, protocol: Protocol)

  function BindingOf(port: Option<int>, protocol: Protocol): set<Binding> {
    if port.Some? then {Binding(port.value, protocol)} else {}
  }

  /** Every (port, protocol) binding a route declares. */
  function Bindings(route: Route): set<Binding> {
    BindingOf(TcpPort(route), ProtocolTCP) + BindingOf(GrpcPort(route), ProtocolGRPC)
    + BindingOf(Http2Port(route), ProtocolHTTP2) + BindingOf(HttpPort(route), ProtocolHTTP)
  }

  /** `b` is served: a listener on its port speaks its protocol. */
  predicate Served(b: Binding, t: map<int, Protocol>) {
    b.port in t && t[b.port] == b.protocol
  }

  /** A route is in conflict exactly when one of its bindings is not
      served; a port with no listener at all counts as not served. The
      order of the tests in the source does not matter. */
  lemma ConflictsIffUnserved(route: Route, t: map<int, Protocol>)
    ensures Conflicts(route, t) <==> exists b | b in Bindings(route) :: !Served(b, t)
  {
    if Conflicts(route, t) {
      if TcpPort(route).Some? && ProtocolAt(t, TcpPort(route).value) != ProtocolTCP {
        assert !Served(Binding(TcpPort(route).value, ProtocolTCP), t);
      } else if GrpcPort(route).Some? && ProtocolAt(t, GrpcPort(route).value) != ProtocolGRPC {
        assert !Served(Binding(GrpcPort(route).value, ProtocolGRPC), t);
      } else if Http2Port(route).Some? && ProtocolAt(t, Http2Port(route).value) != ProtocolHTTP2 {
        assert !Served(Binding(Http2Port(route).value, ProtocolHTTP2), t);
      } else {
        assert !Served(Binding(HttpPort(route).value, ProtocolHTTP), t);
      }
    }
  }

  /** A route that declares no port on any variant is never tainted. */
  lemma NoPortNeverConflicts(route: Route, t: map<int, Protocol>)
    requires Bindings(route) == {}
    ensures !Conflicts(route, t)
  {
  }

  /** The names `taintedSDKRouteRefs` selects: a listed name is tainted
      iff no route carries it, or the last route carrying it conflicts with
      the listeners. */
  function TaintedNames(routes: seq<Route>, listeners: seq<Listener>, refs: seq<RouteRef>): (ns: set<string>)
    ensures forall n :: n in ns <==>
      && n in RefNames(refs)
      && (n in RouteNames(routes) ==>
            Conflicts(routes[LastIndex(routes, RouteName, n)], ListenerTable(listeners)))
  {
    var routeByName := IndexBy(routes, RouteName);
    var refByName := IndexBy(refs, RefName);
    var table := ListenerTable(listeners);
    var conflicting := set n | n in routeByName.Keys * refByName.Keys && Conflicts(routeByName[n], table);
    (refByName.Keys - routeByName.Keys) + conflicting
  }

  /** `taintedSDKRouteRefs`: the references to delete before a listener
      changes, ordered by name. */
  function TaintedRefs(routes: seq<Route>, listeners: seq<Listener>, refs: seq<RouteRef>): (r: seq<RouteRef>)
    ensures StrictlyAscending(Project(r, RefName))
    ensures forall n :: n in Project(r, RefName) <==> n in TaintedNames(routes, listeners, refs)
    ensures forall x | x in r :: IsLast(refs, RefName, x)
  {
    var names := SortedList(TaintedNames(routes, listeners, refs));
    LookupIndexed(refs, RefName, names);
    Lookup(names, IndexBy(refs, RefName))
  }

  /** Every observed-only reference is tainted. */
  lemma TaintHasObservedOnly(routes: seq<Route>, listeners: seq<Listener>, refs: seq<RouteRef>, x: RouteRef)
    requires x in MatchRoutes(routes, refs).observedOnly
    ensures x in TaintedRefs(routes, listeners, refs)
  {
    var tainted := TaintedRefs(routes, listeners, refs);
    ObservedOnlyElement(routes, refs, x);
    assert x.name in Project(tainted, RefName);
    var j :| 0 <= j < |tainted| && Project(tainted, RefName)[j] == x.name;
    assert tainted[j] in tainted;
    assert IsLast(refs, RefName, tainted[j]) && IsLast(refs, RefName, x);
  }

  /** No route still to create is tainted. */
  lemma TaintExcludesDesiredOnly(routes: seq<Route>, listeners: seq<Listener>, refs: seq<RouteRef>, x: Route)
    requires x in MatchRoutes(routes, refs).desiredOnly
    ensures x.name !in Project(TaintedRefs(routes, listeners, refs), RefName)
  {
    DesiredOnlyElement(routes, refs, x);
  }

  /** The taint set lies between the observed-only references and all
      listed references: it holds every observed-only reference, only
      listed references, and never the name of a route still to create. */
  lemma TaintBounds(routes: seq<Route>, listeners: seq<Listener>, refs: seq<RouteRef>)
    ensures var tainted := TaintedRefs(routes, listeners, refs);
      && (forall x | x in MatchRoutes(routes, refs).observedOnly :: x in tainted)
      && (forall x | x in tainted :: x in refs)
      && (forall x | x in MatchRoutes(routes, refs).desiredOnly :: x.name !in Project(tainted, RefName))
  {
    forall x | x in MatchRoutes(routes, refs).observedOnly
      ensures x in TaintedRefs(routes, listeners, refs)
    {
      TaintHasObservedOnly(routes, listeners, refs, x);
    }
    forall x | x in MatchRoutes(routes, refs).desiredOnly
      ensures x.name !in Project(TaintedRefs(routes, listeners, refs), RefName)
    {
      TaintExcludesDesiredOnly(routes, listeners, refs, x);
    }
  }
}

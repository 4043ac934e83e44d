/** `matchRoutesAgainstSDKRouteRefs`: splits the desired routes and the
    listed route references, by name, into matched pairs, desired-only
    routes (to create) and observed-only references (to delete). */
module Matcher {
  import opened Types
  import opened Order
  import opened Index

  /** A desired route and the remote reference with the same name. */
  datatype Pair = Pair(route: Route, ref: RouteRef)

  function PairName(p: Pair): string { p.route.name }

  datatype Matching = Matching(
    matched: seq<Pair>,
    desiredOnly: seq<Route>,
    observedOnly: seq<RouteRef>)
  {
    function MatchedNames(): seq<string> { Project(matched, PairName) }
    function DesiredOnlyNames(): seq<string> { Project(desiredOnly, RouteName) }
    function ObservedOnlyNames(): seq<string> { Project(observedOnly, RefName) }
  }

  /** The names of the desired routes. */
  function RouteNames(routes: seq<Route>): set<string> {
    KeySet(routes, RouteName)
  }

  /** The names of the listed references. */
  function RefNames(refs: seq<RouteRef>): set<string> {
    KeySet(refs, RefName)
  }

  /** The pairs of table entries for `names`, in the order of `names`. */
  function PairsFor(names: seq<string>, routeByName: map<string, Route>, refByName: map<string, RouteRef>): (ps: seq<Pair>)
    requires forall n | n in names :: n in routeByName && n in refByName
    ensures |ps| == |names|
    ensures forall i | 0 <= i < |names| :: ps[i] == Pair(routeByName[names[i]], refByName[names[i]])
  {
    seq(|names|, i requires 0 <= i < |names| => Pair(routeByName[names[i]], refByName[names[i]]))
  }

  lemma PairsIndexed(routes: seq<Route>, refs: seq<RouteRef>, names: seq<string>)
    requires forall n | n in names :: n in KeySet(routes, RouteName) && n in KeySet(refs, RefName)
    ensures var ps := PairsFor(names, IndexBy(routes, RouteName), IndexBy(refs, RefName));
      && Project(ps, PairName) == names
      && forall p | p in ps ::
        p.route.name == p.ref.name && IsLast(routes, RouteName, p.route) && IsLast(refs, RefName, p.ref)
  {
    var ps := PairsFor(names, IndexBy(routes, RouteName), IndexBy(refs, RefName));
    forall i | 0 <= i < |names|
      ensures PairName(ps[i]) == names[i]
      ensures ps[i].ref.name == names[i]
      ensures IsLast(routes, RouteName, ps[i].route) && IsLast(refs, RefName, ps[i].ref)
    {
      IndexedIsLast(routes, RouteName, names[i]);
      IndexedIsLast(refs, RefName, names[i]);
    }
    ProjectIs(ps, PairName, names);
  }

  /** The matched pairs, ordered by name. */
  function MatchedPairs(routes: seq<Route>, refs: seq<RouteRef>): (ps: seq<Pair>)
    ensures StrictlyAscending(Project(ps, PairName))
    ensures forall n :: n in Project(ps, PairName) <==> n in RouteNames(routes) && n in RefNames(refs)
    ensures forall p | p in ps ::
      p.route.name == p.ref.name && IsLast(routes, RouteName, p.route) && IsLast(refs, RefName, p.ref)
  {
    var routeByName := IndexBy(routes, RouteName);
    var refByName := IndexBy(refs, RefName);
    var names := SortedList(routeByName.Keys * refByName.Keys);
    PairsIndexed(routes, refs, names);
    PairsFor(names, routeByName, refByName)
  }

  /** The routes whose name no reference carries, ordered by name. */
  function DesiredOnly(routes: seq<Route>, refs: seq<RouteRef>): (rs: seq<Route>)
    ensures StrictlyAscending(Project(rs, RouteName))
    ensures forall n :: n in Project(rs, RouteName) <==> n in RouteNames(routes) && n !in RefNames(refs)
    ensures forall r | r in rs :: IsLast(routes, RouteName, r)
  {
    var routeByName := IndexBy(routes, RouteName);
    var refByName := IndexBy(refs, RefName);
    var names := SortedList(routeByName.Keys - refByName.Keys);
    LookupIndexed(routes, RouteName, names);
    Lookup(names, routeByName)
  }

  /** The references whose name no route carries, ordered by name. */
  function ObservedOnly(routes: seq<Route>, refs: seq<RouteRef>): (rs: seq<RouteRef>)
    ensures StrictlyAscending(Project(rs, RefName))
    ensures forall n :: n in Project(rs, RefName) <==> n in RefNames(refs) && n !in RouteNames(routes)
    ensures forall r | r in rs :: IsLast(refs, RefName, r)
  {
    var routeByName := IndexBy(routes, RouteName);
    var refByName := IndexBy(refs, RefName);
    var names := SortedList(refByName.Keys - routeByName.Keys);
    LookupIndexed(refs, RefName, names);
    Lookup(names, refByName)
  }

  /** `matchRoutesAgainstSDKRouteRefs`. */
  function MatchRoutes(routes: seq<Route>, refs: seq<RouteRef>): (m: Matching)
    // each output is ordered by name, hence free of repeated names
    ensures StrictlyAscending(m.MatchedNames())
    ensures StrictlyAscending(m.DesiredOnlyNames())
    ensures StrictlyAscending(m.ObservedOnlyNames())
    // which names land in which output
    ensures forall n :: n in m.MatchedNames() <==> n in RouteNames(routes) && n in RefNames(refs)
    ensures forall n :: n in m.DesiredOnlyNames() <==> n in RouteNames(routes) && n !in RefNames(refs)
    ensures forall n :: n in m.ObservedOnlyNames() <==> n in RefNames(refs) && n !in RouteNames(routes)
    // what each output element is: the last input of its name
    ensures forall p | p in m.matched ::
      p.route.name == p.ref.name && IsLast(routes, RouteName, p.route) && IsLast(refs, RefName, p.ref)
    ensures forall r | r in m.desiredOnly :: IsLast(routes, RouteName, r)
    ensures forall r | r in m.observedOnly :: IsLast(refs, RefName, r)
  {
    Matching(MatchedPairs(routes, refs), DesiredOnly(routes, refs), ObservedOnly(routes, refs))
  }

  /** A route to create carries a desired name no reference carries. */
  lemma DesiredOnlyElement(routes: seq<Route>, refs: seq<RouteRef>, x: Route)
    requires x in MatchRoutes(routes, refs).desiredOnly
    ensures x.name in RouteNames(routes) && x.name !in RefNames(refs)
  {
    var des := DesiredOnly(routes, refs);
    var i :| 0 <= i < |des| && des[i] == x;
    assert Project(des, RouteName)[i] == x.name;
  }

  /** A reference to delete carries a listed name no route carries. */
  lemma ObservedOnlyElement(routes: seq<Route>, refs: seq<RouteRef>, x: RouteRef)
    requires x in MatchRoutes(routes, refs).observedOnly
    ensures x.name in RefNames(refs) && x.name !in RouteNames(routes)
  {
    var obs := ObservedOnly(routes, refs);
    var i :| 0 <= i < |obs| && obs[i] == x;
    assert Project(obs, RefName)[i] == x.name;
  }

  /** The three outputs partition all names seen: no name is in two of
      them, and together they hold every route name and every reference
      name. */
  lemma MatchPartition(routes: seq<Route>, refs: seq<RouteRef>, n: string)
    ensures var m := MatchRoutes(routes, refs);
      && !(n in m.MatchedNames() && n in m.DesiredOnlyNames())
      && !(n in m.MatchedNames() && n in m.ObservedOnlyNames())
      && !(n in m.DesiredOnlyNames() && n in m.ObservedOnlyNames())
      && (n in m.MatchedNames() || n in m.DesiredOnlyNames() || n in m.ObservedOnlyNames()
          <==> n in RouteNames(routes) || n in RefNames(refs))
  {
  }

  /** A reference listing that names exactly the desired routes leaves
      nothing to create and nothing to delete: every route is matched. */
  lemma SameNamesAllMatched(routes: seq<Route>, refs: seq<RouteRef>)
    requires RouteNames(routes) == RefNames(refs)
    ensures MatchRoutes(routes, refs).desiredOnly == []
    ensures MatchRoutes(routes, refs).observedOnly == []
    ensures |MatchRoutes(routes, refs).matched| == |RouteNames(routes)|
  {
    var m := MatchRoutes(routes, refs);
    HeadIsElement(m.DesiredOnlyNames());
    HeadIsElement(m.ObservedOnlyNames());
    SortedLength(m.MatchedNames(), RouteNames(routes));
  }

  /** A list without repeats holding exactly the elements of `s` has `|s|`
      entries. */
  lemma SortedLength(xs: seq<string>, s: set<string>)
    requires StrictlyAscending(xs)
    requires forall x :: x in xs <==> x in s
    ensures |xs| == |s|
  {
    AscendingUnique(xs, SortedList(s));
  }
}

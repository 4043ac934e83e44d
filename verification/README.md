# Route reconciler of the App Mesh virtual-router controller

This project models `defaultRoutesManager` from `pkg/virtualrouter/routes_manager.go` and proves properties of the model. The manager brings the routes of one App Mesh virtual router in line with the routes declared on the Kubernetes `VirtualRouter` resource. It has three layers:

- **Matcher** (`matchRoutesAgainstSDKRouteRefs`, module `Matcher`). It splits the desired routes and the listed remote route references by name into three groups:
  - matched pairs,
  - desired-only routes,
  - observed-only references.

  Each group is in ascending name order. A name that repeats in an input resolves to its last occurrence, as a Go map filled by a `range` loop does (module `Index`). `sets.String.List()` returns its elements sorted (module `Order`).
- **Taint detector** (`taintedSDKRouteRefs`, module `Taint`). It finds the remote routes that must go before a listener of the router changes. These are:
  - every observed-only reference;
  - every matched route whose TCP, gRPC, HTTP/2 or HTTP match names a port whose listener speaks a different protocol. A port with no listener counts as different.
- **Reconcile loop** (`reconcile` and its helpers, module `Reconciler`; the four entry points are in module `Manager`). It runs three batches and stops at the first error, with no rollback:
  1. create the desired-only routes;
  2. describe each matched route and update it when its built spec differs;
  3. describe and delete the observed-only routes.

  The entry points are:
  - `create` reconciles against no remote routes;
  - `update` lists the remote routes first;
  - `cleanup` lists them and reconciles against no desired routes;
  - `remove` lists them and deletes only the tainted ones.

The App Mesh control plane is modelled as a `Plane` (module `Remote`, types in `Types`):
- a map from route name to `RouteRecord` (name, spec and a version counter);
- the log of every call issued so far.

When no fault is injected, the plane answers as follows:
- a create of a name that already exists fails with an error other than `NotFoundException`, as a conflict; the claim in `Manager.Create` that all desired names were new rests on this;
- a describe, update or delete of a missing name fails with `NotFoundException`;
- a describe returns, unchanged, the spec stored by the last successful create or update of that name. The service adds no defaults and does no normalisation. `Manager.UpdateQuiet`, `Manager.UpdateIdempotent`, `Manager.UpdateReturnsRemote`, `Manager.ListedQuiet` and `Manager.ReconcileQuiet` rest on this rule. If the service returned a spec that differs from what was sent in more than nil versus empty slices, the second pass would issue an update, and those lemmas would not hold.

Environment inputs are parameters, not code:
- **Failures.** Which calls fail, and with which code, comes from the `Env.fault` oracle. A `NotFoundException` on a describe, update or delete of a name stands for someone else deleting that route concurrently. The oracle is a function of the call alone, so the same call always gets the same answer: a failure is never transient and then gone. No lemma repeats a call within one pass, so nothing rests on this.
- **Spec building.** `BuildSDKRouteSpec` is the `Builder` function parameter.
- **Spec comparison.** `cmp.Equal` with `cmpopts.EquateEmpty` is the `SpecEquiv` relation on a reduced route spec. In that spec a nil slice and an empty slice are the same.

Only `deleteSDKRouteByRef` (the `remove` path, lines 233-236) treats `NotFoundException` as success. Inside `reconcile`:
- a describe answered with `NotFoundException` becomes a "route not found" error (lines 106-108 and 121-123);
- `deleteSDKRoute` propagates every error (lines 220-222).

So a `cleanup` that races with a concurrent deletion fails. `Manager.CleanupRaceFails` states this.

## Model

| member | source | states |
|---|---|---|
| Index.IndexBy | pkg/virtualrouter/routes_manager.go:253-258 | the map a `range` loop builds from a slice holds every key of the slice, each mapped to the last element carrying that key |
| Types.SpecEquivIsEquivalence | pkg/virtualrouter/routes_manager.go:188-189 | the spec comparison is reflexive, symmetric and transitive |
| Types.EmptyEquatesAbsent | pkg/virtualrouter/routes_manager.go:188-189 | under `EquateEmpty`, a nil slice equals an empty one, while a set pointer field still differs from a nil one |
| Order.SortedList | pkg/virtualrouter/routes_manager.go:266 | listing a name set gives a strictly ascending sequence with exactly the set's elements, one entry per element |
| Matcher.MatchRoutes | pkg/virtualrouter/routes_manager.go:250-284 | each of the three outputs is strictly ascending by name; a name is matched iff it is both desired and listed, desired-only iff desired and not listed, observed-only iff listed and not desired; every element is the last input of its name, and a pair joins a route and a reference of the same name |
| Matcher.MatchPartition | pkg/virtualrouter/routes_manager.go:259-263 | no name is in two outputs, and the names in the outputs are exactly the desired names together with the listed names |
| Matcher.SameNamesAllMatched | pkg/virtualrouter/routes_manager.go:259-266 | when the desired and listed names coincide, nothing is desired-only or observed-only and there is one pair per name |
| Matcher.DesiredOnlyElement | pkg/virtualrouter/routes_manager.go:262 | a desired-only route's name is desired and is not listed |
| Matcher.ObservedOnlyElement | pkg/virtualrouter/routes_manager.go:263 | an observed-only reference's name is listed and is not desired |
| Taint.ListenerTable | pkg/virtualrouter/routes_manager.go:298-300 | the port table has one entry per listener port, holding the protocol of the last listener on that port (empty when nil) |
| Taint.Conflicts | pkg/virtualrouter/routes_manager.go:306-316 | the four-way protocol test of a matched route; a route that conflicts declares at least one match port (the full characterisation is `Taint.ConflictsIffUnserved`) |
| Taint.ConflictsIffUnserved | pkg/virtualrouter/routes_manager.go:306-316 | a route conflicts with the listeners iff some port it declares has no listener speaking that variant's protocol; the order of the four tests does not matter |
| Taint.NoPortNeverConflicts | pkg/virtualrouter/routes_manager.go:306-316 | a route that declares no match port is never tainted, whatever the listeners |
| Taint.TaintedNames | pkg/virtualrouter/routes_manager.go:301-316 | a name is tainted iff it is listed and either is not desired or its last desired route conflicts with the listener table |
| Taint.TaintedRefs | pkg/virtualrouter/routes_manager.go:319-324 | the tainted references are strictly ascending by name, carry exactly the tainted names, and each is the last listed reference of its name |
| Taint.TaintHasObservedOnly | pkg/virtualrouter/routes_manager.go:304 | every observed-only reference is tainted |
| Taint.TaintExcludesDesiredOnly | pkg/virtualrouter/routes_manager.go:301-304 | no desired-only name is tainted |
| Taint.TaintBounds | pkg/virtualrouter/routes_manager.go:301-324 | the tainted references include every observed-only reference, are all listed references, and miss every desired-only name |
| Reconciler.FindSDKRoute | pkg/virtualrouter/routes_manager.go:146-160 | a describe issues one call and returns the remote record when it exists and the call does not fail; it returns "none" on `NotFoundException` or when the route is absent; any other failure is passed on and the records are unchanged |
| Reconciler.CreateSDKRoute | pkg/virtualrouter/routes_manager.go:162-179 | a build error returns at once with no call; otherwise one create call with the built spec is issued, and success means the name was new and now holds a fresh record with that spec |
| Reconciler.UpdateSDKRoute | pkg/virtualrouter/routes_manager.go:181-211 | a build error returns with no call; an equivalent remote spec returns the record unchanged with no call; otherwise one update with the built spec is issued, and success stores a record with that spec and the next version |
| Reconciler.DeleteSDKRoute | pkg/virtualrouter/routes_manager.go:213-224 | a delete issues one call and succeeds iff the call does not fail and the route exists, removing only that name; every failure is an API error |
| Reconciler.DeleteSDKRouteByRef | pkg/virtualrouter/routes_manager.go:226-241 | a delete by reference fails iff the call fails with a code other than `NotFoundException`; on success the name is gone and nothing else changes |
| Reconciler.DeleteOfMissingRoute | pkg/virtualrouter/routes_manager.go:220-236 | deleting a route that is already gone succeeds by reference but fails with `NotFoundException` by record |
| Reconciler.CreateAll | pkg/virtualrouter/routes_manager.go:91-97 | the create loop issues only creates and never changes an existing record |
| Reconciler.CreateAllLog | pkg/virtualrouter/routes_manager.go:91-97 | when the create loop succeeds, every route built, and the log grew by one create per route, in order |
| Reconciler.CreateAllKeys | pkg/virtualrouter/routes_manager.go:91-97 | when the create loop succeeds, the created names were all new and are exactly the names added to the remote |
| Reconciler.CreateAllResult | pkg/virtualrouter/routes_manager.go:96 | when the create loop succeeds, the result gains exactly the created names, each mapped to its remote record |
| Reconciler.CreateAllSpecs | pkg/virtualrouter/routes_manager.go:91-97 | when the create loop succeeds, each created route is remote with its built spec at version 1 |
| Reconciler.CreateAllStops | pkg/virtualrouter/routes_manager.go:91-97 | when the routes before `rs[i]` were created and `rs[i]` fails, the batch fails with that route's error; the log holds exactly the creates before it plus its own create when its spec built; the routes created before it stay, and nothing is issued for the routes after it |
| Reconciler.SyncMatched | pkg/virtualrouter/routes_manager.go:100-113 | syncing one pair issues only describes and updates and can change only that pair's record, never adding one |
| Reconciler.SyncMatchedSucceeds | pkg/virtualrouter/routes_manager.go:102-113 | a successful sync found the route, built its spec, issued a describe and an update only when the specs differ, and left a record equivalent to the built spec |
| Reconciler.SyncMatchedMissing | pkg/virtualrouter/routes_manager.go:102-108 | a matched route that the describe does not find makes the sync fail with "route not found" |
| Reconciler.UpdateAll | pkg/virtualrouter/routes_manager.go:99-114 | the matched loop issues only describes and updates and touches only the matched names, never adding one |
| Reconciler.UpdateAllLog | pkg/virtualrouter/routes_manager.go:99-114 | when the matched loop succeeds, every route built, every name was remote, and the log is the per-pair describe and update calls in order |
| Reconciler.UpdateAllKeys | pkg/virtualrouter/routes_manager.go:99-114 | when the matched loop succeeds, the remote name set is unchanged |
| Reconciler.UpdateAllSpecs | pkg/virtualrouter/routes_manager.go:99-114 | when the matched loop succeeds, each matched remote record is equivalent to its route's built spec |
| Reconciler.UpdateAllResultKeys | pkg/virtualrouter/routes_manager.go:113 | when the matched loop succeeds, the result gains exactly the matched names and keeps its other entries |
| Reconciler.UpdateAllResult | pkg/virtualrouter/routes_manager.go:113 | when the matched loop succeeds, each matched name maps to its remote record |
| Reconciler.SyncMatchedCalls | pkg/virtualrouter/routes_manager.go:102-112 | syncing a pair issues a describe of its name and at most one update of that name, to the built spec |
| Reconciler.UpdateAllStops | pkg/virtualrouter/routes_manager.go:99-114 | when the pairs before `ps[i]` were synced and `ps[i]` fails, the batch fails with that pair's error; the log holds the calls of the earlier pairs, then a describe and possibly an update of `ps[i]`; no record other than `ps[i]`'s changes beyond what the earlier pairs did, and nothing is issued for later pairs |
| Reconciler.RemoveObserved | pkg/virtualrouter/routes_manager.go:116-127 | handling one observed-only reference issues only describes and deletes and touches only that name |
| Reconciler.RemoveObservedSucceeds | pkg/virtualrouter/routes_manager.go:116-127 | handling one observed-only reference succeeds iff its describe and delete do not fail and the route exists; then exactly a describe and a delete were issued and only that name is gone |
| Reconciler.RemoveObservedMissing | pkg/virtualrouter/routes_manager.go:117-123 | an observed-only route that the describe does not find makes the pass fail with "route not found" |
| Reconciler.DeleteAll | pkg/virtualrouter/routes_manager.go:116-127 | the delete loop issues only describes and deletes and touches only the listed names |
| Reconciler.DeleteAllRecords | pkg/virtualrouter/routes_manager.go:116-127 | when the delete loop succeeds, every listed name was remote and all of them are gone |
| Reconciler.DeleteAllLog | pkg/virtualrouter/routes_manager.go:116-127 | when the delete loop succeeds, the log grew by a describe and a delete per reference, in order |
| Reconciler.DeleteAllStops | pkg/virtualrouter/routes_manager.go:116-127 | when the references before `refs[i]` were deleted and `refs[i]` fails, the batch fails with that reference's error; the earlier routes are gone, the log holds their describes and deletes, then a describe and possibly a delete of `refs[i]`, and nothing is issued for later references |
| Reconciler.MatchedWellPaired | pkg/virtualrouter/routes_manager.go:266-270 | matched pairs join a route and a reference of the same name, and no name repeats |
| Reconciler.DesiredOnlyNameSet | pkg/virtualrouter/routes_manager.go:262 | the desired-only names are the desired names minus the listed names |
| Reconciler.MatchedNameSet | pkg/virtualrouter/routes_manager.go:261 | the matched names, on either side of a pair, are the desired names that are also listed |
| Reconciler.ObservedOnlyNameSet | pkg/virtualrouter/routes_manager.go:263 | the observed-only names are the listed names minus the desired names |
| Reconciler.MatchPartitioned | pkg/virtualrouter/routes_manager.go:88 | the matcher's three outputs have pairwise disjoint names |
| Reconciler.BatchesOrdered | pkg/virtualrouter/routes_manager.go:91-127 | the three batches only extend the log, and no create follows an update or delete, and no update follows a delete |
| Reconciler.BatchesFailFast | pkg/virtualrouter/routes_manager.go:91-127 | a failed create batch ends the pass with only creates issued; a failed update batch ends it with its error and no delete issued; a failed delete batch ends it with that batch's error and plane |
| Reconciler.RunBatches | pkg/virtualrouter/routes_manager.go:89-128 | the remote records stay keyed by their own names; what the three batches do is stated by `Reconciler.BatchesKeys`, `Reconciler.BatchesLog`, `Reconciler.BatchesCreated`, `Reconciler.BatchesSynced`, `Reconciler.BatchesOrdered` and `Reconciler.BatchesFailFast` |
| Reconciler.BatchesKeys | pkg/virtualrouter/routes_manager.go:91-127 | after a successful pass the desired-only names were new, the other names were remote, and the remote names are the old ones plus the created minus the deleted |
| Reconciler.BatchesLog | pkg/virtualrouter/routes_manager.go:91-127 | a successful pass issued exactly the creates, then the describes and needed updates, then the describes and deletes |
| Reconciler.BatchesResultKeys | pkg/virtualrouter/routes_manager.go:89-128 | a successful pass returns a map keyed by exactly the created and matched names |
| Reconciler.BatchesCreated | pkg/virtualrouter/routes_manager.go:91-97 | after a successful pass each desired-only route is remote at version 1 with its built spec, and the result holds that record |
| Reconciler.BatchesSynced | pkg/virtualrouter/routes_manager.go:99-114 | after a successful pass each matched record is equivalent to its built spec, and the result holds that record |
| Reconciler.BatchesUntouched | pkg/virtualrouter/routes_manager.go:85-129 | a successful pass leaves a remote route that is neither matched nor observed-only exactly as it was |
| Reconciler.ReconcileOrdered | pkg/virtualrouter/routes_manager.go:85-129 | reconcile only extends the log, and its mutating calls are creates, then updates, then deletes |
| Reconciler.ReconcileFailFast | pkg/virtualrouter/routes_manager.go:91-127 | `reconcile` returns at its first error: a failed create leaves only creates in the log, and a failed describe or update leaves no delete in it |
| Reconciler.Reconcile | pkg/virtualrouter/routes_manager.go:85-129 | the remote records stay keyed by their own names; what a pass does is stated by `Reconciler.ReconcileNames`, `Reconciler.ReconcileConverges`, `Reconciler.ReconcileLog`, `Reconciler.ReconcileOrdered` and `Reconciler.ReconcileFailFast` |
| Reconciler.ReconcileNames | pkg/virtualrouter/routes_manager.go:85-129 | a successful reconcile needs every listed name remote and every other desired name absent; afterwards the remote names are the old ones minus the listed plus the desired, and the result is keyed by exactly the desired names |
| Reconciler.ReconcileUntouched | pkg/virtualrouter/routes_manager.go:85-129 | a successful reconcile leaves every remote route it was not given unchanged |
| Reconciler.ReconcileLog | pkg/virtualrouter/routes_manager.go:85-129 | a successful reconcile issued exactly the creates, syncs and deletes the matching calls for, in that order |
| Reconciler.ReconcileConverges | pkg/virtualrouter/routes_manager.go:85-129 | after a successful reconcile, each desired name is remote with a spec equivalent to its last route's built spec, the result holds that record, and a name that was not listed is a fresh version-1 record |
| Reconciler.MatchedPairOf | pkg/virtualrouter/routes_manager.go:266-270 | a name both desired and listed has a matched pair carrying its last desired route |
| Reconciler.DesiredOnlyOf | pkg/virtualrouter/routes_manager.go:274-276 | a desired name that is not listed is desired-only, as its last desired route |
| Manager.ListedNames | pkg/virtualrouter/routes_manager.go:131-144 | a successful listing names exactly the remote routes |
| Manager.NothingListed | pkg/virtualrouter/routes_manager.go:49 | with no references, nothing is matched or observed-only |
| Manager.NothingDesired | pkg/virtualrouter/routes_manager.go:80 | with no desired routes, nothing is matched or desired-only |
| Manager.Create | pkg/virtualrouter/routes_manager.go:48-50 | a successful create needs all desired names new, adds exactly them to the remote, and returns a map keyed by them |
| Manager.CreateOnlyCreates | pkg/virtualrouter/routes_manager.go:48-50 | create issues no call other than creates |
| Manager.CreateConverges | pkg/virtualrouter/routes_manager.go:48-50 | after a successful create each desired name is a version-1 record with its last route's built spec, returned in the result, and each pre-existing route is unchanged |
| Manager.Update | pkg/virtualrouter/routes_manager.go:67-73 | after a successful update the remote names and the result's keys are both exactly the desired names |
| Manager.UpdateOrdered | pkg/virtualrouter/routes_manager.go:67-73 | update lists first, then its mutating calls are creates, then updates, then deletes |
| Manager.UpdateConverges | pkg/virtualrouter/routes_manager.go:67-73 | after a successful update each desired name is remote with a spec equivalent to its last route's built spec and returned in the result; a newly created one is at version 1 |
| Manager.UpdateReturnsRemote | pkg/virtualrouter/routes_manager.go:67-73 | a successful update returns exactly the remote records |
| Manager.UpdateInSync | pkg/virtualrouter/routes_manager.go:67-73 | after a successful update every desired name is remote with a spec equivalent to its built spec |
| Manager.SyncMatchedQuiet | pkg/virtualrouter/routes_manager.go:187-191 | with no failures, a pair already in sync costs one describe, no update, and returns the remote record |
| Manager.UpdateAllQuiet | pkg/virtualrouter/routes_manager.go:99-114 | with no failures, a matched loop over pairs in sync succeeds, changes no record and issues only describes |
| Manager.MatchedIsLast | pkg/virtualrouter/routes_manager.go:266-270 | a matched pair holds the last desired route of its name |
| Manager.BatchesQuiet | pkg/virtualrouter/routes_manager.go:91-127 | with no failures and nothing to create or delete, a pass over pairs in sync succeeds, changes nothing and issues no mutation |
| Manager.ReconcileQuiet | pkg/virtualrouter/routes_manager.go:85-129 | with no failures, reconciling an already converged router whose listed names equal the desired names changes nothing and issues no mutation |
| Manager.UpdateQuiet | pkg/virtualrouter/routes_manager.go:67-73 | with no failures, update on a converged router succeeds, returns the remote records, changes nothing and issues no mutation after its listing |
| Manager.ListedQuiet | pkg/virtualrouter/routes_manager.go:68-72 | with no failures, listing a converged router and reconciling against the listing changes nothing and issues no mutation |
| Manager.UpdateIdempotent | pkg/virtualrouter/routes_manager.go:67-73 | with no failures, a second update right after a successful one returns the same map, changes no record and issues no mutating call |
| Manager.Cleanup | pkg/virtualrouter/routes_manager.go:75-82 | a successful cleanup leaves the router with no routes |
| Manager.CleanupEmpties | pkg/virtualrouter/routes_manager.go:76-81 | reconciling the listing against no desired routes, when it succeeds, deletes every remote route |
| Manager.CleanupOnlyDeletes | pkg/virtualrouter/routes_manager.go:75-82 | cleanup lists first and then issues only describes and deletes |
| Manager.PassDeletesOnly | pkg/virtualrouter/routes_manager.go:80 | reconciling against no desired routes issues only describes and deletes |
| Manager.DeleteAllSucceeds | pkg/virtualrouter/routes_manager.go:116-127 | with no failures, the delete loop over distinct remote names succeeds |
| Manager.DeleteAllMeetsVanished | pkg/virtualrouter/routes_manager.go:117-123 | when one of the routes to delete vanishes before its describe, the delete loop fails with "route not found" for it |
| Manager.ObservedOnlyOfListing | pkg/virtualrouter/routes_manager.go:76-80 | against no desired routes, the observed-only references of a listing have distinct names that are exactly the remote names |
| Manager.CleanupSucceeds | pkg/virtualrouter/routes_manager.go:75-82 | with no failures, cleanup succeeds |
| Manager.CleanupRaceFails | pkg/virtualrouter/routes_manager.go:116-123 | if a remote route vanishes before cleanup describes it, cleanup fails with "route not found" for it |
| Manager.DeleteByRefAll | pkg/virtualrouter/routes_manager.go:59-63 | the remove loop issues only deletes, touches only the given names, and fails only with an error other than `NotFoundException` |
| Manager.DeleteByRefAllSucceeds | pkg/virtualrouter/routes_manager.go:59-63 | the remove loop succeeds iff no delete of its references fails with an error other than `NotFoundException` |
| Manager.DeleteByRefAllRecords | pkg/virtualrouter/routes_manager.go:59-63 | a successful remove loop removes exactly the given names |
| Manager.DeleteByRefAllLog | pkg/virtualrouter/routes_manager.go:59-63 | a successful remove loop issued exactly one delete per reference, in order |
| Manager.DeleteByRefAllStops | pkg/virtualrouter/routes_manager.go:59-63 | when the references before `refs[i]` were handled and the delete of `refs[i]` fails with an error other than `NotFoundException`, the loop fails with that error after exactly the earlier deletes and that one; the earlier routes stay deleted and nothing is issued for later references |
| Manager.Remove | pkg/virtualrouter/routes_manager.go:52-65 | remove never adds a route, and its failures are API errors |
| Manager.RemovedNames | pkg/virtualrouter/routes_manager.go:53-58 | the references remove deletes are exactly the remote names that are tainted |
| Manager.RemoveKeeps | pkg/virtualrouter/routes_manager.go:52-65 | after a successful remove, a route is remote iff it was remote and is not tainted, and every kept route is unchanged |
| Manager.RemoveSucceeds | pkg/virtualrouter/routes_manager.go:52-65 | remove succeeds iff the listing does not fail and no delete of a tainted remote route fails with an error other than `NotFoundException` |
| Manager.DeletesByName | pkg/virtualrouter/routes_manager.go:59-63 | the remove loop's success condition depends only on the names of the references |
| Manager.RemoveOnlyDeletes | pkg/virtualrouter/routes_manager.go:52-65 | remove lists first and then issues only deletes |

## Left out

- `BuildSDKRouteSpec` (lines 327-341) is an uninterpreted `Builder` parameter. Its converters live in packages that are not part of this model.
- `cmp.Equal` compares the full AWS `RouteSpec` by reflection. The model uses a reduced spec with a priority, a protocol, a port and two slices, which is enough to show the `EquateEmpty` behaviour.
- The `context`, the SDK input structs, the mesh owner and the metadata fields are dropped. The router's identity is fixed in `Env`.
- `ListRoutesPagesWithContext` pagination is one list call. The model returns the references in ascending name order, although the service's order is unspecified. Nothing depends on this order: the matcher and the taint detector sort by name.
- AWS error codes are reduced to `NotFoundException` and "any other code". The text of `errors.Errorf("route not found: …")` is reduced to `RouteNotFound(name)`.
- Logging (`m.log`, `cmp.Diff`, lines 192-199), the `RoutesManager` interface and `newDefaultRoutesManager` are left out. They have no effect on the outcome.
- The `sdkVR` argument of `remove` is reduced to its listeners, the only part that `taintedSDKRouteRefs` reads.
- The control plane's versioning of routes is modelled as a counter. A create starts at 1 and an update adds 1. This stands in for the service's own version numbers; the reconciler never reads them.
- Nil-pointer panics in the SDK structs are not modelled: `sdkListener.PortMapping` dereferenced at line 299, and `sdkRoute.Metadata` read when `updateSDKRoute` and `deleteSDKRoute` build their inputs (lines 202 and 216). The model reads an absent port or protocol as 0 or "", as `aws.Int64Value` and `aws.StringValue` do; metadata is not part of the model (see the line on dropped fields).
- Describe responses that differ from the stored spec (service-side defaults or normalisation) are not modelled; the quiet and idempotence lemmas of `Manager` assume the describe returns what was stored.
- Manager.Remove: its own contract states only the frame and the error kind. What is deleted and when it succeeds are stated by `Manager.RemoveKeeps`, `Manager.RemovedNames` and `Manager.RemoveSucceeds`.
- Manager.Cleanup: its own contract states only the success case. When cleanup succeeds or fails is stated by `Manager.CleanupSucceeds` and `Manager.CleanupRaceFails`.
- Reconciler.Reconcile: its own contract states only that records stay keyed by their names. Its behaviour is stated by the `Reconcile*` lemmas listed in its row.
- Reconciler.RunBatches: its own contract states only that records stay keyed by their names. Its behaviour is stated by the `Batches*` lemmas listed in its row.
- Reconciler.CreateAll: its own contract states the log and the kept records for every outcome. The stop at the first error is stated by `Reconciler.CreateAllStops`.
- Reconciler.UpdateAll: its own contract states the log and the records it may touch for every outcome. The stop at the first error is stated by `Reconciler.UpdateAllStops`.
- Reconciler.DeleteAll: its own contract states the log and the records it may touch for every outcome. The stop at the first error is stated by `Reconciler.DeleteAllStops`.
- Manager.DeleteByRefAll: its own contract states the log, the frame and the error kind. The stop at the first error is stated by `Manager.DeleteByRefAllStops`.

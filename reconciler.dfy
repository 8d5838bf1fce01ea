/**
 * The reconcile pass of the PVC reclaimer. The cluster store is seen only
 * through its answers: what a fetch of the claim returns, what listing the
 * volumes returns and whether patching a given volume fails. The pass
 * returns a controller result (requeue or not), an optional error, and the
 * sequence of store calls it made.
 */
module Reconciler {
  import opened Wrappers
  import opened Types
  import opened BindingConflict

  /** The controller result handed back to the work queue. */
  datatype ReconcileResult = ReconcileResult(requeue: bool)

  /** The empty result: no requeue requested. */
  const Done: ReconcileResult := ReconcileResult(false)

  /** A call into the store, in the order the pass makes them. */
  datatype Call =
    | Get(key: NamespacedName)
    | List
    | Patch(index: nat, volume: Volume)

  /**
   * The store's answers during one pass. A fetch fails with `getFault`
   * when one is set, otherwise finds the claim under its key or fails
   * with a NotFound error. Listing fails with `listFault` when one is
   * set, otherwise returns `volumes` in the store's order. Patching the
   * volume with a given name fails with the error `patchFaults` holds for
   * that name, and succeeds otherwise.
   */
  datatype Store = Store(
    claims: map<NamespacedName, Claim>,
    getFault: Option<ApiError>,
    volumes: seq<Volume>,
    listFault: Option<ApiError>,
    patchFaults: map<string, ApiError>)
  {
    function Fetch(key: NamespacedName): Result<Claim, ApiError> {
      if getFault.Some? then Failure(getFault.value)
      else if key in claims then Success(claims[key])
      else Failure(ApiError(NotFound, "persistentvolumeclaims not found"))
    }

    function ListVolumes(): Result<seq<Volume>, ApiError> {
      if listFault.Some? then Failure(listFault.value) else Success(volumes)
    }

    function PatchVolume(v: Volume): Option<ApiError> {
      if v.name in patchFaults then Some(patchFaults[v.name]) else None
    }
  }

  /** What one pass produces: the result, the error and the store calls made. */
  datatype Pass = Pass(result: ReconcileResult, err: Option<ApiError>, calls: seq<Call>)

  /**
   * The selection test the source applies to each listed volume: it has a
   * claimRef, and that ref names a claim other than `pvc` by name or by
   * namespace. Neither the reclaim policy nor the phase of the volume is
   * consulted, so a volume correctly bound to another claim also passes.
   */
  predicate BoundElsewhere(v: Volume, pvc: Claim) {
    v.claimRef.Some? &&
    (v.claimRef.value.name != pvc.name || v.claimRef.value.namespace != pvc.namespace)
  }

  /** The first index at or after `from` whose volume passes the selection test. */
  function FirstBoundElsewhereFrom(volumes: seq<Volume>, pvc: Claim, from: nat): (r: Option<nat>)
    requires from <= |volumes|
    ensures r.Some? ==> from <= r.value < |volumes| && BoundElsewhere(volumes[r.value], pvc)
    ensures r.Some? ==> forall j :: from <= j < r.value ==> !BoundElsewhere(volumes[j], pvc)
    ensures r.None? <==> forall j :: from <= j < |volumes| ==> !BoundElsewhere(volumes[j], pvc)
    decreases |volumes| - from
  {
    if from == |volumes| then None
    else if BoundElsewhere(volumes[from], pvc) then Some(from)
    else FirstBoundElsewhereFrom(volumes, pvc, from + 1)
  }

  /** The first volume in list order that passes the selection test, if any. */
  function FirstBoundElsewhere(volumes: seq<Volume>, pvc: Claim): Option<nat> {
    FirstBoundElsewhereFrom(volumes, pvc, 0)
  }

  /**
   * The volume as it is sent to the store: its claimRef with UID and
   * resourceVersion emptied, everything else as listed.
   */
  function ClearBindingTokens(v: Volume): (r: Volume)
    requires v.claimRef.Some?
    ensures r.claimRef.Some?
    ensures r.claimRef.value.uid == "" && r.claimRef.value.resourceVersion == ""
    ensures r.claimRef.value.name == v.claimRef.value.name
    ensures r.claimRef.value.namespace == v.claimRef.value.namespace
    ensures r.name == v.name && r.reclaimPolicy == v.reclaimPolicy && r.phase == v.phase
  {
    v.(claimRef := Some(v.claimRef.value.(uid := "", resourceVersion := "")))
  }

  /** The pass the reconciler makes for `key` against `store`, path by path. */
  function ExpectedPass(key: NamespacedName, store: Store): Pass {
    match store.Fetch(key)
    case Failure(e) =>
      Pass(Done, if IsNotFound(e) then None else Some(e), [Get(key)])
    case Success(pvc) =>
      if pvc.phase != ClaimPending || !ConflictSignalled(pvc.conditions) then
        Pass(Done, None, [Get(key)])
      else
        match store.ListVolumes()
        case Failure(e) => Pass(Done, Some(e), [Get(key), List])
        case Success(volumes) =>
          match FirstBoundElsewhere(volumes, pvc)
          case None => Pass(Done, None, [Get(key), List])
          case Some(i) =>
            var patched := ClearBindingTokens(volumes[i]);
            var failure := store.PatchVolume(patched);
            Pass(ReconcileResult(failure.None?), failure, [Get(key), List, Patch(i, patched)])
  }

  /**
   * One reconcile pass: fetch the claim, stop unless it is Pending with a
   * binding conflict, list the volumes, and patch the first one bound
   * elsewhere with its UID and resourceVersion cleared.
   */
  method Reconcile(req: NamespacedName, store: Store)
    returns (result: ReconcileResult, err: Option<ApiError>, calls: seq<Call>)
    ensures Pass(result, err, calls) == ExpectedPass(req, store)
  {
    calls := [Get(req)];
    var fetched := store.Fetch(req);
    if fetched.Failure? {
      if IsNotFound(fetched.error) {
        return Done, None, calls;
      }
      return Done, Some(fetched.error), calls;
    }
    var pvc := fetched.value;

    if pvc.phase != ClaimPending {
      return Done, None, calls;
    }

    var conflict := HasBindingConflict(pvc);
    if !conflict {
      return Done, None, calls;
    }

    calls := calls + [List];
    var listed := store.ListVolumes();
    if listed.Failure? {
      return Done, Some(listed.error), calls;
    }
    var items := listed.value;

    var i := 0;
    while i < |items|
      invariant 0 <= i <= |items|
      invariant FirstBoundElsewhereFrom(items, pvc, i) == FirstBoundElsewhere(items, pvc)
      invariant calls == [Get(req), List]
    {
      var pv := items[i];
      if pv.claimRef.None? {
        i := i + 1;
        continue;
      }
      if pv.claimRef.value.name != pvc.name || pv.claimRef.value.namespace != pvc.namespace {
        pv := pv.(claimRef := Some(pv.claimRef.value.(uid := "", resourceVersion := "")));
        calls := calls + [Patch(i, pv)];
        var failure := store.PatchVolume(pv);
        if failure.Some? {
          return Done, failure, calls;
        }
        return ReconcileResult(true), None, calls;
      }
      i := i + 1;
    }
    return Done, None, calls;
  }
}

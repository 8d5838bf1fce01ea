/**
 * What a reconcile pass promises, stated over `ExpectedPass`, the
 * specification the `Reconcile` method is proved to meet.
 */
module ReconcilerProperties {
  import opened Wrappers
  import opened Types
  import opened BindingConflict
  import opened Reconciler

  /** The number of Patch calls in a call sequence. */
  function PatchCount(calls: seq<Call>): nat {
    if calls == [] then 0
    else (if calls[0].Patch? then 1 else 0) + PatchCount(calls[1..])
  }

  /** The claim was fetched, is Pending and carries a binding conflict: the pass goes on to list. */
  predicate Gated(key: NamespacedName, store: Store) {
    store.Fetch(key).Success? &&
    store.Fetch(key).value.phase == ClaimPending &&
    ConflictSignalled(store.Fetch(key).value.conditions)
  }

  /**
   * The store after a pass: the volume a successful patch named is
   * replaced by the patched value; a failed or absent patch changes nothing.
   */
  function Applied(store: Store, p: Pass): (s: Store)
    ensures s.claims == store.claims && s.getFault == store.getFault
    ensures s.listFault == store.listFault && s.patchFaults == store.patchFaults
    ensures |s.volumes| == |store.volumes|
  {
    if |p.calls| == 3 && p.calls[2].Patch? && p.err.None? && p.calls[2].index < |store.volumes|
    then store.(volumes := store.volumes[p.calls[2].index := p.calls[2].volume])
    else store
  }

  /** A claim that no longer exists ends the pass silently after the fetch. */
  lemma NotFoundIsSilent(key: NamespacedName, store: Store)
    requires store.Fetch(key).Failure? && IsNotFound(store.Fetch(key).error)
    ensures ExpectedPass(key, store) == Pass(Done, None, [Get(key)])
  {
  }

  /** Any other fetch error is returned unchanged, with no list and no patch. */
  lemma FetchErrorPropagated(key: NamespacedName, store: Store)
    requires store.Fetch(key).Failure? && !IsNotFound(store.Fetch(key).error)
    ensures ExpectedPass(key, store) == Pass(Done, Some(store.Fetch(key).error), [Get(key)])
  {
  }

  /** A claim not in phase Pending is left alone: no list, no patch, no error. */
  lemma NotPendingUntouched(key: NamespacedName, store: Store)
    requires store.Fetch(key).Success? && store.Fetch(key).value.phase != ClaimPending
    ensures ExpectedPass(key, store) == Pass(Done, None, [Get(key)])
  {
  }

  /** A Pending claim without a binding conflict is left alone: no list, no patch, no error. */
  lemma NoConflictUntouched(key: NamespacedName, store: Store)
    requires store.Fetch(key).Success? && !ConflictSignalled(store.Fetch(key).value.conditions)
    ensures ExpectedPass(key, store) == Pass(Done, None, [Get(key)])
  {
  }

  /** The volumes are listed exactly when the claim passes both gates. */
  lemma ListedIffGated(key: NamespacedName, store: Store)
    ensures List in ExpectedPass(key, store).calls <==> Gated(key, store)
  {
  }

  /** A list error is returned unchanged, with no patch. */
  lemma ListErrorPropagated(key: NamespacedName, store: Store)
    requires Gated(key, store) && store.listFault.Some?
    ensures ExpectedPass(key, store) == Pass(Done, Some(store.listFault.value), [Get(key), List])
  {
  }

  /** With no volume bound elsewhere (an empty list included) the pass ends after listing, with no error. */
  lemma NoCandidateNoPatch(key: NamespacedName, store: Store)
    requires Gated(key, store) && store.listFault.None?
    requires forall j :: 0 <= j < |store.volumes| ==> !BoundElsewhere(store.volumes[j], store.Fetch(key).value)
    ensures ExpectedPass(key, store) == Pass(Done, None, [Get(key), List])
  {
  }

  /** Every pass makes at most one patch, always as its last call, and starts with the fetch. */
  lemma AtMostOnePatch(key: NamespacedName, store: Store)
    ensures PatchCount(ExpectedPass(key, store).calls) <= 1
    ensures ExpectedPass(key, store).calls[0] == Get(key)
    ensures forall k :: 0 <= k < |ExpectedPass(key, store).calls| - 1 ==> !ExpectedPass(key, store).calls[k].Patch?
  {
    var calls := ExpectedPass(key, store).calls;
    assert |calls| <= 3;
    assert |calls| <= 3 && !calls[0].Patch?;
    if |calls| >= 2 {
      assert !calls[1].Patch?;
      assert calls[1..][1..] == calls[2..];
      assert PatchCount(calls[2..]) <= 1;
    }
  }

  /**
   * A patched volume is the first in list order whose claimRef names
   * another claim, and the value sent equals it with UID and
   * resourceVersion cleared; the claim had passed both gates.
   */
  lemma PatchedIsFirstBoundElsewhere(key: NamespacedName, store: Store, i: nat, v: Volume)
    requires Patch(i, v) in ExpectedPass(key, store).calls
    ensures Gated(key, store) && store.listFault.None?
    ensures i < |store.volumes| && BoundElsewhere(store.volumes[i], store.Fetch(key).value)
    ensures forall j :: 0 <= j < i ==> !BoundElsewhere(store.volumes[j], store.Fetch(key).value)
    ensures v == ClearBindingTokens(store.volumes[i])
    ensures ExpectedPass(key, store).calls == [Get(key), List, Patch(i, v)]
  {
  }

  /**
   * Conversely, a pass whose claim passes both gates and whose list
   * succeeds with some volume bound elsewhere does patch: the first such
   * volume, at or before that one, with its tokens cleared.
   */
  lemma PatchesFirstWhenPresent(key: NamespacedName, store: Store, j: nat)
    requires Gated(key, store) && store.listFault.None?
    requires j < |store.volumes| && BoundElsewhere(store.volumes[j], store.Fetch(key).value)
    ensures FirstBoundElsewhere(store.volumes, store.Fetch(key).value).Some?
    ensures var i := FirstBoundElsewhere(store.volumes, store.Fetch(key).value).value;
            i <= j && store.volumes[i].claimRef.Some? &&
            ExpectedPass(key, store).calls == [Get(key), List, Patch(i, ClearBindingTokens(store.volumes[i]))]
  {
  }

  /** A volume without a claimRef, or whose claimRef names the reconciled claim, is never patched. */
  lemma UnqualifiedNeverPatched(key: NamespacedName, store: Store, j: nat, v: Volume)
    requires store.Fetch(key).Success? && j < |store.volumes|
    requires store.volumes[j].claimRef.None? ||
             (store.volumes[j].claimRef.value.name == store.Fetch(key).value.name &&
              store.volumes[j].claimRef.value.namespace == store.Fetch(key).value.namespace)
    ensures Patch(j, v) !in ExpectedPass(key, store).calls
  {
  }

  /**
   * After a patch the pass asks for a requeue with no error when the
   * patch succeeded, and returns the patch error with the empty result
   * when it failed, even a NotFound one.
   */
  lemma PatchOutcome(key: NamespacedName, store: Store, i: nat, v: Volume)
    requires Patch(i, v) in ExpectedPass(key, store).calls
    ensures ExpectedPass(key, store).err == store.PatchVolume(v)
    ensures ExpectedPass(key, store).result.requeue <==> v.name !in store.patchFaults
    ensures v.name in store.patchFaults ==> ExpectedPass(key, store).result == Done
  {
  }

  /** A requeue is requested only after a successful patch. */
  lemma RequeueOnlyAfterPatch(key: NamespacedName, store: Store)
    requires ExpectedPass(key, store).result.requeue
    ensures ExpectedPass(key, store).err.None?
    ensures |ExpectedPass(key, store).calls| == 3 && ExpectedPass(key, store).calls[2].Patch?
  {
  }

  /**
   * No error is invented: a returned error is the fetch fault, the list
   * fault or the fault of the patched volume; the only one dropped is a
   * NotFound on the fetch.
   */
  lemma ErrorsComeFromStore(key: NamespacedName, store: Store)
    requires ExpectedPass(key, store).err.Some?
    ensures var e := ExpectedPass(key, store).err.value;
            (store.Fetch(key).Failure? && e == store.Fetch(key).error && !IsNotFound(e)) ||
            (store.listFault == Some(e) && |ExpectedPass(key, store).calls| == 2) ||
            (|ExpectedPass(key, store).calls| == 3 && ExpectedPass(key, store).calls[2].Patch? &&
             store.patchFaults[ExpectedPass(key, store).calls[2].volume.name] == e)
  {
  }

  /** Clearing the tokens of an already cleared volume gives the same volume. */
  lemma ClearIdempotent(v: Volume)
    requires v.claimRef.Some?
    ensures ClearBindingTokens(ClearBindingTokens(v)) == ClearBindingTokens(v)
  {
  }

  /**
   * Re-running a pass straight after a successful one, against the store
   * it left, makes the very same patch of the very same volume, and leaves
   * that store as it found it. The second pass sees the same claims and
   * the same fetch, list and patch faults as the first, since `Applied`
   * changes only the patched volume; a store whose faults change between
   * passes is not covered.
   */
  lemma {:induction false} RerunIsIdempotent(key: NamespacedName, store: Store)
    requires ExpectedPass(key, store).result.requeue
    ensures ExpectedPass(key, Applied(store, ExpectedPass(key, store))) == ExpectedPass(key, store)
    ensures Applied(Applied(store, ExpectedPass(key, store)), ExpectedPass(key, store))
         == Applied(store, ExpectedPass(key, store))
  {
    var p := ExpectedPass(key, store);
    var pvc := store.Fetch(key).value;
    var i := FirstBoundElsewhere(store.volumes, pvc).value;
    var v := ClearBindingTokens(store.volumes[i]);
    assert p.calls == [Get(key), List, Patch(i, v)];
    var after := Applied(store, p);
    assert after.volumes == store.volumes[i := v];
    assert after.Fetch(key) == store.Fetch(key);
    var r := FirstBoundElsewhere(after.volumes, pvc);
    assert BoundElsewhere(after.volumes[i], pvc);
    assert r.Some? && r.value <= i;
    assert r == Some(i);
    ClearIdempotent(store.volumes[i]);
    assert after.volumes[i := v] == after.volumes;
  }

  /** The index a pass patches, if it patches. */
  function PatchedIndex(p: Pass): Option<nat> {
    if |p.calls| == 3 && p.calls[2].Patch? then Some(p.calls[2].index) else None
  }

  /** The selection test gives the same answer whatever a volume's reclaim policy and phase. */
  lemma SelectionIgnoresPolicyAndPhase(v: Volume, pvc: Claim, policy: ReclaimPolicy, phase: VolumePhase)
    ensures BoundElsewhere(v.(reclaimPolicy := policy, phase := phase), pvc) == BoundElsewhere(v, pvc)
  {
  }

  /**
   * Changing the reclaim policy and phase of any listed volume never
   * changes which volume a pass patches, nor whether it patches at all.
   */
  lemma {:induction false} PolicyAndPhaseIgnored(key: NamespacedName, store: Store, j: nat,
                                                 policy: ReclaimPolicy, phase: VolumePhase)
    requires j < |store.volumes|
    ensures var altered := store.(volumes := store.volumes[j := store.volumes[j].(reclaimPolicy := policy, phase := phase)]);
            PatchedIndex(ExpectedPass(key, altered)) == PatchedIndex(ExpectedPass(key, store))
  {
    var altered := store.(volumes := store.volumes[j := store.volumes[j].(reclaimPolicy := policy, phase := phase)]);
    assert altered.Fetch(key) == store.Fetch(key);
    if Gated(key, store) && store.listFault.None? {
      var pvc := store.Fetch(key).value;
      forall k | 0 <= k < |store.volumes|
        ensures BoundElsewhere(altered.volumes[k], pvc) == BoundElsewhere(store.volumes[k], pvc)
      {
        SelectionIgnoresPolicyAndPhase(store.volumes[k], pvc, policy, phase);
      }
      var r := FirstBoundElsewhere(store.volumes, pvc);
      var r' := FirstBoundElsewhere(altered.volumes, pvc);
      if r.Some? {
        assert r'.Some? && r'.value <= r.value;
      }
      assert r' == r;
    }
  }

  /**
   * The selection test does not look at reclaim policy or phase: a volume
   * that is Bound with policy Delete, and whose claimRef names another
   * claim, is patched.
   */
  lemma LooseGuardPatchesBoundVolume()
    ensures var pvc := Claim("data", "app", ClaimPending,
                             [Condition("", "volume already bound to a different claim")]);
            var pv := Volume("pv-live", Delete, VolumeBound, Some(ClaimRef("other", "app", "u-1", "42")));
            var store := Store(map[NamespacedName("app", "data") := pvc], None, [pv], None, map[]);
            ExpectedPass(NamespacedName("app", "data"), store).calls
              == [Get(NamespacedName("app", "data")), List, Patch(0, ClearBindingTokens(pv))]
  {
    var message := "volume already bound to a different claim";
    PhraseAnywhere("volume ", " to a different claim");
    assert "volume " + AlreadyBound + " to a different claim" == message;
    var conditions := [Condition("", message)];
    assert Signals(conditions[0]);
  }
}

# PVC reclaimer: a Dafny model of its reconcile decision

The reclaimer is a Kubernetes controller that watches PersistentVolumeClaims.
When a claim is stuck in phase `Pending` because a volume's `claimRef` still
points at some other claim, the controller clears that ref's `uid` and
`resourceVersion` so that the binder re-evaluates the volume. This project
models the three parts of `main.go` that carry the logic:

- `BindingConflict` (conflict.dfy): `hasBindingConflict`. A claim has a
  binding conflict when some status condition whose type is not `Resizing`
  has a message containing `"already bound"`. This is a case-sensitive
  substring match on free text. `HasBindingConflict` is the scanning loop.
  It is proved equal to the predicate `ConflictSignalled`.
- `Reconciler` (reconciler.dfy): `Reconcile`. The store is a value of type
  `Store` that gives the answers to the three store calls: fetch the claim,
  list the volumes, patch one volume. Each of these calls can fail. The
  method returns the controller result, the error, and the sequence of
  store calls it made (`Get`, `List`, `Patch(index, newVolume)`). Its loop
  over the listed volumes is proved to meet the specification function
  `ExpectedPass`.
- `ReconcilerProperties` (reconciler_properties.dfy): the promises of a pass,
  proved about `ExpectedPass`. They cover gating, error propagation,
  first-match selection, at most one patch, the two cleared fields, and
  idempotence when the pass is re-run on the store it left.
- `Admission` (admission.dfy): the `predicate.Funcs` event filter.
  Creations always pass. Updates pass only on a transition into `Pending`.
  Deletions and generic events never pass.

The volume-selection guard is modelled as the code has it. A volume
qualifies when it has a `claimRef` whose name or namespace differs from the
claim's. Reclaim policy and volume phase are not consulted, so a volume
that is correctly `Bound` to another claim can be patched.
`PolicyAndPhaseIgnored` proves that policy and phase never change which
volume is patched, and `LooseGuardPatchesBoundVolume` shows it with a
concrete store. A stricter guard would also require policy `Retain` and
phase `Released`; `main.go` has no such check, and the model follows the
code.

Only a NotFound error from the fetch is swallowed. A NotFound returned by
the list or the patch is propagated like any other error, as in the code.

## Model

| member | source | states |
|---|---|---|
| BindingConflict.HasBindingConflict | main.go:75-85 | the scan returns true exactly when some condition of a type other than Resizing has "already bound" in its message |
| BindingConflict.ResizingIgnored | main.go:77-79 | inserting a Resizing condition anywhere, with any message, never changes the verdict |
| BindingConflict.SignalledAppend | main.go:76-84 | a condition list signals a conflict iff one of its two parts does; the position of the signalling condition does not matter |
| BindingConflict.PhraseAnywhere | main.go:80 | the phrase is recognised wherever it stands in a message |
| BindingConflict.PhraseInConditionSignals | main.go:76-82 | a condition of any type but Resizing whose message holds the phrase, at any position in any condition list, makes the claim conflicted |
| BindingConflict.CaseSensitive | main.go:80 | example only: "Already bound" is not recognised, since the match is case-sensitive |
| Reconciler.ExpectedPass | main.go:20-73 | the specification of a pass, path by path; it has no contract of its own, and its properties are the ReconcilerProperties lemmas below |
| Reconciler.BoundElsewhere | main.go:47-53 | the selection test: a claimRef is present and names another claim by name or namespace; it has no contract of its own |
| Reconciler.Reconcile | main.go:20-73 | the result, the error and the calls made by the method are those of the specification `ExpectedPass` on every path |
| Reconciler.FirstBoundElsewhereFrom | main.go:46-53 | the index found is the first at or after the start whose volume has a claimRef naming another claim by name or namespace; none is found iff no such volume exists |
| Reconciler.ClearBindingTokens | main.go:59-61 | the patched value has an empty claimRef uid and resourceVersion, and the same claimRef name and namespace, volume name, reclaim policy and phase |
| ReconcilerProperties.NotFoundIsSilent | main.go:24-27 | a claim that is not found gives the empty result, no error, and no call after the fetch |
| ReconcilerProperties.FetchErrorPropagated | main.go:24-29 | any other fetch error is returned unchanged with the empty result and no list or patch |
| ReconcilerProperties.NotPendingUntouched | main.go:32-34 | a claim not in phase Pending gives the empty result, no error, and no list or patch |
| ReconcilerProperties.NoConflictUntouched | main.go:36-39 | a claim without a binding conflict gives the empty result, no error, and no list or patch |
| ReconcilerProperties.ListedIffGated | main.go:32-42 | the volumes are listed iff the claim was fetched, is Pending and has a binding conflict |
| ReconcilerProperties.ListErrorPropagated | main.go:41-44 | a list error is returned unchanged with the empty result and no patch |
| ReconcilerProperties.NoCandidateNoPatch | main.go:46-72 | when no listed volume has a claimRef naming another claim (an empty list included), the pass ends after the list with the empty result and no error |
| ReconcilerProperties.AtMostOnePatch | main.go:46-70 | every pass starts with the fetch and makes at most one patch, which is its last call |
| ReconcilerProperties.PatchedIsFirstBoundElsewhere | main.go:46-63 | a patched volume is the first in list order whose claimRef names another claim, the value sent is that volume with uid and resourceVersion cleared, and the claim had passed both gates |
| ReconcilerProperties.PatchesFirstWhenPresent | main.go:46-63 | conversely, a gated pass whose list succeeds and holds a volume bound elsewhere patches the first such volume, at or before it, with its tokens cleared |
| ReconcilerProperties.UnqualifiedNeverPatched | main.go:47-53 | a volume without a claimRef, or whose claimRef names the reconciled claim by both name and namespace, is never patched |
| ReconcilerProperties.PatchOutcome | main.go:63-68 | the pass returns the patch's own error; it requests a requeue iff the patch succeeded; a failed patch gives the empty result |
| ReconcilerProperties.RequeueOnlyAfterPatch | main.go:63-72 | a requeue is requested only with no error, after a successful patch as the third call |
| ReconcilerProperties.ErrorsComeFromStore | main.go:24-65 | every returned error is the fetch, list or patch error the store gave; only a fetch NotFound is dropped |
| ReconcilerProperties.ClearIdempotent | main.go:60-61 | clearing the uid and resourceVersion of an already cleared volume gives the same volume |
| ReconcilerProperties.RerunIsIdempotent | main.go:46-68 | re-running a successful pass on the store it left makes the same patch of the same volume and leaves that store unchanged |
| ReconcilerProperties.SelectionIgnoresPolicyAndPhase | main.go:47-53 | the selection test has the same answer whatever the volume's reclaim policy and phase |
| ReconcilerProperties.PolicyAndPhaseIgnored | main.go:46-53 | changing any listed volume's policy and phase never changes which volume a pass patches, or whether it patches |
| ReconcilerProperties.LooseGuardPatchesBoundVolume | main.go:47-53 | example only: a Bound volume with policy Delete whose claimRef names another claim is patched |
| Admission.Admit | main.go:88-106 | the filter's decision, one case per event kind; it has no contract of its own, and the three lemmas below state its cases |
| Admission.CreateAlwaysAdmitted | main.go:89-91 | every create event schedules a pass |
| Admission.UpdateAdmittedIff | main.go:92-99 | an update event schedules a pass iff the old phase is not Pending and the new one is |
| Admission.DeleteAndGenericNeverAdmitted | main.go:100-105 | delete and generic events never schedule a pass |
| Admission.EdgeTriggered | main.go:96-98 | between two admitted updates in a claim's history there is a snapshot in which the claim was not Pending |
| Admission.StaysPendingNotAdmitted | main.go:96-98 | no update is admitted while the claim stays Pending |

## Left out

- Controller wiring (`NewControllerManagedBy`, `For`, `WithEventFilter`, `Complete`, main.go:108-111): framework plumbing with no decision in it.
- Logging (`log.FromContext`, `logger.Info`): it has no effect on behaviour.
- `client.MergeFrom`, `DeepCopy` and merge-patch semantics on the server: the patch is an abstract call that receives the new volume value and that succeeds or fails per volume name.
- Context cancellation, the work queue and per-key serialisation: concurrency and transport concerns. A cancelled call appears only as a store error.
- Optimistic concurrency inside the store: the model keeps only that a patch can fail and that its error is returned.
- The runtime type assertions on update events (main.go:93-94): events are a typed datatype carrying claim snapshots.
- Claim phases: only `Pending`, `Bound` and `Lost` are modelled. An empty or unknown phase behaves like any phase other than `Pending` in every comparison the code makes.
- The store's answers are fixed for one pass. The model does not capture a store whose contents change between the fetch, the list and the patch.
- RerunIsIdempotent: the second pass sees the same claims and the same fetch, list and patch faults as the first; only the patched volume changes between the two.
- The mutation of the list's shared `ClaimRef` through the loop copy `pv`: the pass returns right after the patch, so nothing observes it.
- `ctrl.Result.RequeueAfter` and the other controller-result fields: the code only sets `Requeue`.

/**
 * The event filter in front of the reconciler: which watch events on a
 * claim schedule a reconcile pass. Events carry typed claim snapshots
 * (the old and the new one for an update).
 */
module Admission {
  import opened Types

  datatype Event =
    | CreateEvent(obj: Claim)
    | UpdateEvent(oldObj: Claim, newObj: Claim)
    | DeleteEvent(obj: Claim)
    | GenericEvent(obj: Claim)

  /** The filter's decision for one event. */
  predicate Admit(e: Event) {
    match e
    case CreateEvent(_) => true
    case UpdateEvent(oldObj, newObj) => oldObj.phase != ClaimPending && newObj.phase == ClaimPending
    case DeleteEvent(_) => false
    case GenericEvent(_) => false
  }

  /** Every creation schedules a pass, whatever the claim's state. */
  lemma CreateAlwaysAdmitted(c: Claim)
    ensures Admit(CreateEvent(c))
  {
  }

  /** An update schedules a pass exactly on a transition into Pending. */
  lemma UpdateAdmittedIff(oldObj: Claim, newObj: Claim)
    ensures Admit(UpdateEvent(oldObj, newObj)) <==> oldObj.phase != ClaimPending && newObj.phase == ClaimPending
  {
  }

  /** Deletions and generic events never schedule a pass. */
  lemma DeleteAndGenericNeverAdmitted(c: Claim)
    ensures !Admit(DeleteEvent(c)) && !Admit(GenericEvent(c))
  {
  }

  /** In a history of snapshots of one claim, the update from `h[i-1]` to `h[i]` is admitted. */
  predicate AdmittedUpdateAt(h: seq<Claim>, i: int) {
    0 < i < |h| && Admit(UpdateEvent(h[i - 1], h[i]))
  }

  /**
   * The filter is edge-triggered: between two admitted updates of a
   * claim's history there is a snapshot where it was not Pending, so
   * updates to a claim that stays Pending schedule nothing further.
   */
  lemma EdgeTriggered(h: seq<Claim>, i: int, j: int)
    requires AdmittedUpdateAt(h, i) && AdmittedUpdateAt(h, j) && i < j
    ensures exists k :: i <= k < j && h[k].phase != ClaimPending
  {
  }

  /** Updates within a stretch where the claim stays Pending are never admitted. */
  lemma StaysPendingNotAdmitted(h: seq<Claim>, from: nat)
    requires from < |h|
    requires forall k :: from <= k < |h| ==> h[k].phase == ClaimPending
    ensures forall i :: from < i < |h| ==> !AdmittedUpdateAt(h, i)
  {
  }
}

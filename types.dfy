/**
 * The Kubernetes objects the reclaimer reads and patches, reduced to the
 * fields it uses: a PersistentVolumeClaim (name, namespace, phase, status
 * conditions) and a PersistentVolume (name, reclaim policy, phase and the
 * optional claimRef with its name, namespace, UID and resourceVersion).
 * Reclaim policy and volume phase are never read by the reconciler; they are
 * kept so that "nothing else about the volume changes" can be stated.
 */
module Types {
  import opened Wrappers

  /** The key of a reconcile request: a claim's namespace and name. */
  datatype NamespacedName = NamespacedName(namespace: string, name: string)

  datatype ClaimPhase = ClaimPending | ClaimBound | ClaimLost

  /** A status condition: its type tag (a free string in the API) and message. */
  datatype Condition = Condition(kind: string, message: string)

  /** The condition type of a claim whose volume is being resized. */
  const Resizing: string := "Resizing"

  datatype Claim = Claim(
    name: string,
    namespace: string,
    phase: ClaimPhase,
    conditions: seq<Condition>)

  /** A volume's reference to the claim it is bound to. */
  datatype ClaimRef = ClaimRef(
    name: string,
    namespace: string,
    uid: string,
    resourceVersion: string)

  datatype ReclaimPolicy = Retain | Delete | Recycle

  datatype VolumePhase = VolumePending | VolumeAvailable | VolumeBound | VolumeReleased | VolumeFailed

  datatype Volume = Volume(
    name: string,
    reclaimPolicy: ReclaimPolicy,
    phase: VolumePhase,
    claimRef: Option<ClaimRef>)

  /** The status reason an API error carries. */
  datatype StatusReason = NotFound | Conflict | OtherReason(text: string)

  datatype ApiError = ApiError(reason: StatusReason, message: string)

  /** The test the reconciler applies to a failed fetch. */
  predicate IsNotFound(e: ApiError) {
    e.reason == NotFound
  }
}

/** The deletion executor: one DeleteArchive request per archive of the
    inventory, in inventory order; a failed request is logged and the loop
    goes on, so the phase as a whole never fails. */
module ArchiveDeletion {

  /** A DeleteArchive call: the vault it targets and the archive it removes. */
  datatype DeleteRequest = DeleteRequest(vaultName: string, archiveId: string)

  /** The log line written for one archive. */
  datatype Outcome = Deleted(archiveId: string) | DeleteFailed(archiveId: string)

  /** Deletes every archive of `archiveIds` from `vaultName`. The storage
      service is not part of the model: `reply(n)` is its answer to the n-th
      DeleteArchive call of the loop (true for success, false for an error).
      Returns the requests issued and the outcome logged for each archive. */
  method DeleteAll(vaultName: string, archiveIds: seq<string>, reply: nat -> bool)
    returns (requests: seq<DeleteRequest>, outcomes: seq<Outcome>)
    ensures |requests| == |archiveIds|
    ensures forall i :: 0 <= i < |requests| ==> requests[i] == DeleteRequest(vaultName, archiveIds[i])
    ensures |outcomes| == |archiveIds|
    ensures forall i :: 0 <= i < |outcomes| ==> outcomes[i].archiveId == archiveIds[i]
    ensures forall i :: 0 <= i < |outcomes| ==> (outcomes[i].Deleted? <==> reply(i))
    ensures CountDeleted(outcomes) + CountFailed(outcomes) == |archiveIds|
  {
    requests, outcomes := [], [];
    for i := 0 to |archiveIds|
      invariant |requests| == i && |outcomes| == i
      invariant forall k :: 0 <= k < i ==> requests[k] == DeleteRequest(vaultName, archiveIds[k])
      invariant forall k :: 0 <= k < i ==> outcomes[k].archiveId == archiveIds[k]
      invariant forall k :: 0 <= k < i ==> (outcomes[k].Deleted? <==> reply(k))
    {
      var archiveId := archiveIds[i];
      requests := requests + [DeleteRequest(vaultName, archiveId)];
      var ok := reply(i);
      if !ok {
        // only logged: the remaining archives are still deleted
        outcomes := outcomes + [DeleteFailed(archiveId)];
      } else {
        outcomes := outcomes + [Deleted(archiveId)];
      }
    }
    CountsCoverAll(outcomes);
  }

  /** Number of "deleted archive" log lines. */
  function CountDeleted(outcomes: seq<Outcome>): (n: nat)
    ensures n <= |outcomes|
  {
    if outcomes == [] then 0
    else CountDeleted(outcomes[1..]) + (if outcomes[0].Deleted? then 1 else 0)
  }

  /** Number of "failed to delete archive" log lines. */
  function CountFailed(outcomes: seq<Outcome>): (n: nat)
    ensures n <= |outcomes|
  {
    if outcomes == [] then 0
    else CountFailed(outcomes[1..]) + (if outcomes[0].DeleteFailed? then 1 else 0)
  }

  /** Every archive is either deleted or failed, never both, never neither. */
  lemma {:induction false} CountsCoverAll(outcomes: seq<Outcome>)
    ensures CountDeleted(outcomes) + CountFailed(outcomes) == |outcomes|
  {
    if outcomes != [] {
      CountsCoverAll(outcomes[1..]);
    }
  }
}

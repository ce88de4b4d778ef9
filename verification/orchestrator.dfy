/** One run of the vault emptier: check the vault name, list the vault's jobs,
    select the inventory job, read and decode its output, then delete every
    archive it lists. Any failure before the deletion loop ends the run (a
    `log.Fatal` in the program) before a single DeleteArchive call. */
module VaultEmptier {
  import opened Jobs
  import opened JobSelection
  import opened ArchiveDeletion

  /** A call to the storage service, recorded in the order the run makes it. */
  datatype Call =
    | ListJobs(vaultName: string)
    | GetJobOutput(vaultName: string, jobId: string)
    | DeleteArchive(request: DeleteRequest)

  /** The service's answer to GetJobOutput for one job, once the body has
      been read and unmarshalled. */
  datatype JobOutput =
    | Inventory(archiveIds: seq<string>)  // the archive ids of the ArchiveList, in order
    | OutputError                         // GetJobOutput returned an error
    | ReadError                           // reading the output body failed
    | DecodeError                         // the body is not an inventory document

  /** The reasons a run stops with a fatal log line. */
  datatype Fatal =
    | VaultNotSet
    | ListJobsFailed
    | JobStillRunning(jobId: string)
    | NoCompletedInventoryJob
    | GetJobOutputFailed
    | ReadBodyFailed
    | UnmarshalFailed

  datatype RunResult = Done(outcomes: seq<Outcome>) | Failed(reason: Fatal)

  /** The fatal error a failed job-output fetch ends the run with. */
  function FetchFailure(output: JobOutput): (f: Fatal)
    requires !output.Inventory?
    ensures f in {GetJobOutputFailed, ReadBodyFailed, UnmarshalFailed}
    ensures output.OutputError? <==> f == GetJobOutputFailed
    ensures output.ReadError? <==> f == ReadBodyFailed
  {
    match output
    case OutputError => GetJobOutputFailed
    case ReadError => ReadBodyFailed
    case DecodeError => UnmarshalFailed
  }

  /** Runs the emptier against `vaultName`. The storage service is not part
      of the model: `listJobs` is the ListJobs reply (None for an error),
      `jobOutput(id)` the answer to GetJobOutput for job `id`, and
      `deleteReply(n)` the answer to the n-th DeleteArchive call. */
  method EmptyVault(vaultName: string, listJobs: Option<seq<Job>>,
                    jobOutput: string -> JobOutput, deleteReply: nat -> bool)
    returns (calls: seq<Call>, result: RunResult)
    requires listJobs.Some? ==> Dated(listJobs.value)
    // an empty vault name stops the run before any storage call
    ensures vaultName == "" ==> calls == [] && result == Failed(VaultNotSet)
    ensures vaultName != "" ==> |calls| >= 1 && calls[0] == ListJobs(vaultName)
    ensures vaultName != "" && listJobs.None? ==> calls == [ListJobs(vaultName)] && result == Failed(ListJobsFailed)
    // a selection failure stops the run right after listing the jobs
    ensures vaultName != "" && listJobs.Some? ==>
              var s := Select(listJobs.value);
              (s.JobInProgress? ==> calls == [ListJobs(vaultName)] && result == Failed(JobStillRunning(s.jobId))) &&
              (s.NoCompletedJob? ==> calls == [ListJobs(vaultName)] && result == Failed(NoCompletedInventoryJob))
    // the output read is that of the selected job; a failed fetch stops the run
    ensures vaultName != "" && listJobs.Some? && Select(listJobs.value).Selected? ==>
              var id := Select(listJobs.value).jobId;
              |calls| >= 2 && calls[1] == GetJobOutput(vaultName, id) &&
              (!jobOutput(id).Inventory? ==> |calls| == 2 && result == Failed(FetchFailure(jobOutput(id))))
    // no archive is deleted on any fatal path
    ensures result.Failed? ==> forall i :: 0 <= i < |calls| ==> !calls[i].DeleteArchive?
    // deletion failures never fail the run
    ensures result.Done? <==>
              vaultName != "" && listJobs.Some? && Select(listJobs.value).Selected? &&
              jobOutput(Select(listJobs.value).jobId).Inventory?
    // one DeleteArchive call per listed archive, in order, and one outcome each
    ensures result.Done? ==>
              var archiveIds := jobOutput(Select(listJobs.value).jobId).archiveIds;
              |calls| == 2 + |archiveIds| && |result.outcomes| == |archiveIds| &&
              (forall i :: 0 <= i < |archiveIds| ==> calls[2 + i] == DeleteArchive(DeleteRequest(vaultName, archiveIds[i]))) &&
              (forall i :: 0 <= i < |archiveIds| ==> result.outcomes[i].archiveId == archiveIds[i]) &&
              (forall i :: 0 <= i < |archiveIds| ==> (result.outcomes[i].Deleted? <==> deleteReply(i)))
  {
    if vaultName == "" {
      return [], Failed(VaultNotSet);
    }
    calls := [ListJobs(vaultName)];
    if listJobs.None? {
      return calls, Failed(ListJobsFailed);
    }
    var selection := SelectLatestJob(listJobs.value);
    match selection
    case JobInProgress(id) =>
      return calls, Failed(JobStillRunning(id));
    case NoCompletedJob =>
      return calls, Failed(NoCompletedInventoryJob);
    case Selected(latestJob) =>
      calls := calls + [GetJobOutput(vaultName, latestJob)];
      var output := jobOutput(latestJob);
      if !output.Inventory? {
        return calls, Failed(FetchFailure(output));
      }
      var requests, outcomes := DeleteAll(vaultName, output.archiveIds, deleteReply);
      calls := calls + seq(|requests|, i requires 0 <= i < |requests| => DeleteArchive(requests[i]));
      return calls, Done(outcomes);
  }
}

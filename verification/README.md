# Empty Glacier vault: a Dafny model of the run's decision logic

The program empties an Amazon Glacier vault. It does these steps in order:

1. It checks that a vault name was given.
2. It lists the vault's jobs.
3. It picks the most recently completed inventory-retrieval job. It refuses to go on while any inventory retrieval is still running.
4. It reads and unmarshals that job's output, the inventory document.
5. It sends one DeleteArchive request per archive in the inventory's `ArchiveList`. A failed delete is logged and skipped.

This model covers the decision logic of `main()` in `main.go`:

- the vault-name check;
- the job-selection loop;
- the order of the fatal exits;
- the deletion loop.

Modules:

- `Jobs` (jobs.dfy) defines the `Job` record of a ListJobs reply and `Less`, which is Go's `<` on strings. `Less` compares code points lexicographically, which is the same order as comparing the UTF-8 bytes. The file proves that `Less` is a strict total order: irreflexive, transitive, asymmetric and total.
- `JobSelection` (selection.dfy) holds two things:
  - `Select`, the specification of the choice. It uses `FirstRunning`, the first running inventory job, and `Latest`, the job that `IsLatest` describes.
  - `SelectLatestJob`, the loop as the program writes it. It keeps `latestJob` and `latestCompletionDate`, and returns early on a running job. It is proved equal to `Select`.

  The file also has lemmas about the selection:
  - jobs other than inventory retrievals are ignored;
  - the tie-break is first-wins (stated on `IsLatest`);
  - the choice is unique;
  - a two-job case works both ways.
- `ArchiveDeletion` (deletion.dfy) holds `DeleteAll`, the deletion loop. It returns the requests it issued and one outcome (a log line) per archive. `CountsCoverAll` proves that deleted plus failed always equals the number of archives.
- `VaultEmptier` (orchestrator.dfy) holds `EmptyVault`, the whole run. It returns the trace of storage calls and either `Done(outcomes)` or `Failed(reason)`. Here `Failed(reason)` stands for the program's `log.Fatal` exits.

The storage service's answers are parameters, so the model makes no calls:

- the ListJobs reply, or its error;
- the answer to GetJobOutput for each job id, already read and decoded;
- the answer to the n-th DeleteArchive call.

The program compares completion dates as raw strings with `>`, not as parsed timestamps, and the model does the same. Dates written in different formats or time zones therefore compare by their text, not by the time they denote.

## Model

| member | source | states |
|---|---|---|
| Jobs.Less | main.go:69 | Go's byte-wise `<` on strings, as code-point lexicographic order: it never holds between equal strings, and a proper prefix comes first. |
| Jobs.LessIrreflexive | main.go:69 | No date string is greater than itself. |
| Jobs.LessTransitive | main.go:69 | Go's string order on dates is transitive. |
| Jobs.LessTotal | main.go:69 | Two different date strings are always ordered one way or the other. |
| Jobs.LessAsymmetric | main.go:69 | Two date strings are never each greater than the other. |
| JobSelection.FirstRunning | main.go:62-68 | Gives the index of the first inventory job that has not completed, with no such job before it. Gives none exactly when no inventory job is running. |
| JobSelection.Latest | main.go:59-73 | Gives none exactly when the list has no inventory job. Otherwise gives an inventory job whose date no inventory job's date exceeds under string `>`. Every inventory job listed before it has a strictly smaller date. |
| JobSelection.Select | main.go:59-77 | Returns JobInProgress with the id of the first running inventory job, even when completed ones exist. Returns NoCompletedJob exactly when there is no inventory job. Returns Selected only when no inventory job runs, and then names a completed inventory job satisfying IsLatest. |
| JobSelection.SelectLatestJob | main.go:59-77 | The scan (skip other actions, abort on the first running job, keep the job whose date is string-greater than the kept one) returns exactly what Select specifies. |
| JobSelection.IsLatest | main.go:69-72 | Defines the job the scan keeps: an inventory job whose date no inventory job exceeds, strictly later than every inventory job before it. Its contract states the tie-break: the kept job is listed no later than any inventory job with the same date. |
| JobSelection.LatestUnique | main.go:69-72 | The conditions of IsLatest single out one job, so the selection is fully determined. |
| JobSelection.TwoInventoryJobs | main.go:69-72 | Of two completed inventory jobs, the second is chosen exactly when its date is string-greater. On equal dates the first is kept. |
| JobSelection.InventoryJobs | main.go:62-65 | A job is kept exactly when it is an inventory-retrieval job of the input; the result is never longer than the input. |
| JobSelection.InventoryJobsAppend | main.go:62-65 | Keeping the inventory jobs of a concatenation is the concatenation of the kept parts. |
| JobSelection.FirstRunningOfInventory | main.go:62-68 | The first running job is the same job whether or not the other actions are removed first. |
| JobSelection.LatestOfInventory | main.go:62-72 | The kept latest job is the same job whether or not the other actions are removed first. |
| JobSelection.SelectSeesOnlyInventory | main.go:63-65 | Selecting from the list gives the same result as selecting from its inventory jobs alone. |
| JobSelection.SelectIgnoresOtherJobs | main.go:63-65 | Inserting a job of another action anywhere in the list never changes the selection. |
| ArchiveDeletion.DeleteAll | main.go:113-125 | Issues exactly one DeleteArchive request per ArchiveList entry, in order, against the given vault, whatever the earlier replies were. Logs one outcome per entry for the same archive, "deleted" exactly when the call succeeded. Deleted plus failed equals the number of entries. |
| ArchiveDeletion.CountsCoverAll | main.go:118-123 | Every logged outcome is either deleted or failed: the two counts add up to the number of archives. |
| VaultEmptier.FetchFailure | main.go:80-109 | A failed output fetch, body read or unmarshal maps to its own fatal error. |
| VaultEmptier.EmptyVault | main.go:28-125 | An empty vault name fails before any storage call. A ListJobs error, a running inventory job or no inventory job fails right after ListJobs. A fetch/read/decode failure fails after GetJobOutput of the selected job. A failed run never issues DeleteArchive. The run reaches Done exactly when every stage before deletion succeeds. It then issues one DeleteArchive per archive in order and returns one outcome each. |

## Left out

- Flag parsing (`--region`, `--profile`) and loading the AWS configuration and profile are not modelled. They are library plumbing. A configuration load error, which is also fatal before any call, is not modelled either.
- The Glacier client is not modelled. ListJobs, GetJobOutput and DeleteArchive are foreign network calls. They become the parameters `listJobs`, `jobOutput` and `deleteReply`. The error text they carry is not kept.
- `io.ReadAll` and `json.Unmarshal` are not modelled. The decoded inventory is taken as the sequence of its archive ids. The other fields (VaultARN, InventoryDate, description, creation date, size, tree hash) are never used by the program. Go's decoder fills missing fields with zero values, so a record without an ArchiveId is not a decode error. The model claims nothing about which documents decode.
- Log output and process exit are not modelled as such. Log lines become the `Outcome` sequence, and `log.Fatal` becomes the typed `Failed` result. The program prints no summary record, so none is modelled; the counts of deleted and failed archives are derived from the outcomes.
- `context.Background()` and cancellation are not modelled. The program never cancels.
- Nil pointers are not modelled. Selection requires that completed inventory jobs carry a completion date (`Dated`), so the dereference at main.go:69 never panics. Job ids are always present.
- Starting a new inventory job, or waiting for a running one, is not modelled. The program does not do either; its TODO comments mention both.


/** Glacier jobs as the job listing reports them, and Go's ordering on strings,
    which the job selector uses to compare completion dates. */
module Jobs {

  /** The action code of a Glacier job. */
  datatype Action = InventoryRetrieval | ArchiveRetrieval | SelectQuery  // the API spells the last one "Select"

  /** One entry of the ListJobs reply. The completion date is the raw date text
      the service returns; it is absent (a nil pointer in Go) while a job runs. */
  datatype Job = Job(jobId: string, action: Action, completed: bool, completionDate: Option<string>)

  datatype Option<+T> = None | Some(value: T)

  predicate IsInventory(j: Job) {
    j.action == InventoryRetrieval
  }

  /** An inventory-retrieval job that has not completed yet. */
  predicate Running(j: Job) {
    IsInventory(j) && !j.completed
  }

  /** The selector dereferences the completion date of every completed
      inventory job it compares, so such jobs must carry one. */
  predicate Dated(jobs: seq<Job>) {
    forall i :: 0 <= i < |jobs| && IsInventory(jobs[i]) && jobs[i].completed ==> jobs[i].completionDate.Some?
  }

  /** Every inventory job carries a completion date. */
  predicate InventoryDated(jobs: seq<Job>) {
    forall i :: 0 <= i < |jobs| && IsInventory(jobs[i]) ==> jobs[i].completionDate.Some?
  }

  function Date(j: Job): string
    requires j.completionDate.Some?
  {
    j.completionDate.value
  }

  /** Go's `a < b` on strings: lexicographic on the encoded bytes. Comparing
      code points lexicographically gives the same order, because UTF-8
      preserves the order of code points. */
  predicate Less(a: string, b: string): (r: bool)
    ensures r ==> a != b
    ensures |a| < |b| && a == b[..|a|] ==> r  // a proper prefix comes first
  {
    if |a| == 0 then |b| > 0
    else if |b| == 0 then false
    else if a[0] != b[0] then a[0] < b[0]
    else Less(a[1..], b[1..])
  }

  lemma {:induction false} LessIrreflexive(a: string)
    ensures !Less(a, a)
  {
    if |a| > 0 {
      LessIrreflexive(a[1..]);
    }
  }

  lemma {:induction false} LessTransitive(a: string, b: string, c: string)
    requires Less(a, b) && Less(b, c)
    ensures Less(a, c)
  {
    if |a| > 0 && |b| > 0 && |c| > 0 && a[0] == b[0] && b[0] == c[0] {
      LessTransitive(a[1..], b[1..], c[1..]);
    }
  }

  /** Any two different strings are ordered one way or the other. */
  lemma {:induction false} LessTotal(a: string, b: string)
    requires a != b
    ensures Less(a, b) || Less(b, a)
  {
    if |a| > 0 && |b| > 0 && a[0] == b[0] {
      assert a == [a[0]] + a[1..] && b == [b[0]] + b[1..];
      LessTotal(a[1..], b[1..]);
    }
  }

  lemma LessAsymmetric(a: string, b: string)
    requires Less(a, b)
    ensures !Less(b, a)
  {
  }

  /** If `b` is not below `a` (so `a <= b`) and `b < c`, then `a < c`. */
  lemma LessAfterAtMost(a: string, b: string, c: string)
    requires !Less(b, a) && Less(b, c)
    ensures Less(a, c)
  {
  }
}

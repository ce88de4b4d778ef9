/** The job selector: which inventory-retrieval job's output the run trusts.

    `Select` is the specification: the first running inventory job aborts the
    run; otherwise the job with the greatest completion date wins, the earliest
    listed one on a tie. `SelectLatestJob` is the scan over the job list that
    keeps the latest job and date seen so far, proved to agree with `Select`. */
module JobSelection {
  import opened Jobs

  datatype Selection =
    | Selected(jobId: string)       // the job whose output is read
    | JobInProgress(jobId: string)  // an inventory job is still running
    | NoCompletedJob                // the list holds no inventory job at all

  /** Index of the first running inventory job in list order, if any. */
  function FirstRunning(jobs: seq<Job>): (r: Option<nat>)
    ensures r.Some? ==> r.value < |jobs| && Running(jobs[r.value])
    ensures r.Some? ==> forall i :: 0 <= i < r.value ==> !Running(jobs[i])
    ensures r.None? ==> forall i :: 0 <= i < |jobs| ==> !Running(jobs[i])
  {
    if |jobs| == 0 then None
    else match FirstRunning(jobs[..|jobs| - 1])
      case Some(k) => Some(k)
      case None => if Running(jobs[|jobs| - 1]) then Some(|jobs| - 1) else None
  }

  /** `k` is the job the selector keeps: an inventory job whose completion date
      no inventory job's date exceeds, and strictly later than the date of every
      inventory job listed before it (so the earliest of the latest wins). */
  predicate IsLatest(jobs: seq<Job>, k: int): (r: bool)
    ensures r ==> 0 <= k < |jobs| && InventoryDated(jobs) && IsInventory(jobs[k])
    // the tie-break: no inventory job listed earlier shares the kept job's date
    ensures r ==> forall i :: 0 <= i < |jobs| && IsInventory(jobs[i]) && Date(jobs[i]) == Date(jobs[k]) ==> k <= i
  {
    InventoryDated(jobs) && 0 <= k < |jobs| && IsInventory(jobs[k]) &&
    (forall i :: 0 <= i < |jobs| && IsInventory(jobs[i]) ==> !Less(Date(jobs[k]), Date(jobs[i]))) &&
    (forall i :: 0 <= i < k && IsInventory(jobs[i]) ==> Less(Date(jobs[i]), Date(jobs[k])))
  }

  /** The latest job of a prefix stays the latest when the next job is no
      inventory job, or is one whose date does not exceed it. */
  lemma LatestKept(jobs: seq<Job>, k: nat)
    requires |jobs| > 0 && InventoryDated(jobs)
    requires IsLatest(jobs[..|jobs| - 1], k)
    requires IsInventory(jobs[|jobs| - 1]) ==> !Less(Date(jobs[k]), Date(jobs[|jobs| - 1]))
    ensures IsLatest(jobs, k)
  {
  }

  /** A last job strictly later than the prefix's latest becomes the latest. */
  lemma LatestTaken(jobs: seq<Job>, k: nat)
    requires |jobs| > 0 && InventoryDated(jobs) && IsInventory(jobs[|jobs| - 1])
    requires IsLatest(jobs[..|jobs| - 1], k)
    requires Less(Date(jobs[k]), Date(jobs[|jobs| - 1]))
    ensures IsLatest(jobs, |jobs| - 1)
  {
    var n := |jobs| - 1;
    var last := Date(jobs[n]);
    forall i | 0 <= i < n && IsInventory(jobs[i])
      ensures Less(Date(jobs[i]), last)
    {
      assert jobs[..n][i] == jobs[i];
      LessAfterAtMost(Date(jobs[i]), Date(jobs[k]), last);
    }
    forall i | 0 <= i < |jobs| && IsInventory(jobs[i])
      ensures !Less(last, Date(jobs[i]))
    {
      if i < n {
        LessAsymmetric(Date(jobs[i]), last);
      } else {
        LessIrreflexive(last);
      }
    }
  }

  /** A first inventory job after none is the latest so far. */
  lemma LatestFirst(jobs: seq<Job>)
    requires |jobs| > 0 && InventoryDated(jobs) && IsInventory(jobs[|jobs| - 1])
    requires forall i :: 0 <= i < |jobs| - 1 ==> !IsInventory(jobs[i])
    ensures IsLatest(jobs, |jobs| - 1)
  {
    LessIrreflexive(Date(jobs[|jobs| - 1]));
  }

  /** Index of the job the selector keeps among the inventory jobs, compared by
      Go's string `>` on the completion date, with the list scanned in order. */
  function Latest(jobs: seq<Job>): (r: Option<nat>)
    requires InventoryDated(jobs)
    ensures r.None? <==> forall i :: 0 <= i < |jobs| ==> !IsInventory(jobs[i])
    ensures r.Some? ==> IsLatest(jobs, r.value)
  {
    if |jobs| == 0 then None
    else
      var n := |jobs| - 1;
      assert forall i :: 0 <= i < n ==> jobs[..n][i] == jobs[i];
      var prev := Latest(jobs[..n]);
      if !IsInventory(jobs[n]) then
        (if prev.Some? then LatestKept(jobs, prev.value); prev else prev)
      else if prev.None? then
        LatestFirst(jobs); Some(n)
      else if Less(Date(jobs[prev.value]), Date(jobs[n])) then
        LatestTaken(jobs, prev.value); Some(n)
      else
        LatestKept(jobs, prev.value); prev
  }

  /** What the selector decides for a job list. */
  function Select(jobs: seq<Job>): (r: Selection)
    requires Dated(jobs)
    ensures r.JobInProgress? ==> exists k :: 0 <= k < |jobs| && Running(jobs[k]) && jobs[k].jobId == r.jobId
    ensures forall k :: 0 <= k < |jobs| && Running(jobs[k]) && (forall i :: 0 <= i < k ==> !Running(jobs[i])) ==>
              r == JobInProgress(jobs[k].jobId)
    ensures r == NoCompletedJob <==> forall i :: 0 <= i < |jobs| ==> !IsInventory(jobs[i])
    ensures r.Selected? ==> forall i :: 0 <= i < |jobs| ==> !Running(jobs[i])
    ensures r.Selected? ==> exists k :: IsLatest(jobs, k) && jobs[k].completed && jobs[k].jobId == r.jobId
  {
    match FirstRunning(jobs)
    case Some(k) => JobInProgress(jobs[k].jobId)
    case None =>
      match Latest(jobs)
      case None => NoCompletedJob
      case Some(k) => Selected(jobs[k].jobId)
  }

  /** The scan over the job list: skip jobs that are no inventory retrieval,
      abort on the first one still running, and otherwise keep the job whose
      completion date is string-greater than the latest kept so far. */
  method SelectLatestJob(jobs: seq<Job>) returns (r: Selection)
    requires Dated(jobs)
    ensures r == Select(jobs)
  {
    var latestJob: Option<string> := None;
    var latestCompletionDate: Option<string> := None;
    for i := 0 to |jobs|
      invariant forall k :: 0 <= k < i ==> !Running(jobs[k])
      invariant InventoryDated(jobs[..i])
      invariant Latest(jobs[..i]).None? ==> latestJob.None? && latestCompletionDate.None?
      invariant Latest(jobs[..i]).Some? ==>
                  latestJob == Some(jobs[Latest(jobs[..i]).value].jobId) &&
                  latestCompletionDate == jobs[Latest(jobs[..i]).value].completionDate
    {
      var job := jobs[i];
      assert jobs[..i + 1][..i] == jobs[..i];
      if job.action != InventoryRetrieval {
        continue;
      }
      if !job.completed {
        return JobInProgress(job.jobId);
      }
      if latestCompletionDate.None? || Less(latestCompletionDate.value, job.completionDate.value) {
        latestJob := Some(job.jobId);
        latestCompletionDate := job.completionDate;
      }
    }
    assert jobs[..|jobs|] == jobs;
    if latestJob.None? {
      return NoCompletedJob;
    }
    return Selected(latestJob.value);
  }

  /** The conditions of IsLatest pin down one job. */
  lemma LatestUnique(jobs: seq<Job>, k: nat, m: nat)
    requires IsLatest(jobs, k) && IsLatest(jobs, m)
    ensures k == m
  {
  }

  /** The inventory-retrieval jobs of a list, in list order. */
  function InventoryJobs(jobs: seq<Job>): (r: seq<Job>)
    ensures |r| <= |jobs|
    ensures forall j :: j in r <==> j in jobs && IsInventory(j)
  {
    if |jobs| == 0 then []
    else
      var n := |jobs| - 1;
      InventoryJobs(jobs[..n]) + (if IsInventory(jobs[n]) then [jobs[n]] else [])
  }

  lemma {:induction false} InventoryJobsAppend(a: seq<Job>, b: seq<Job>)
    ensures InventoryJobs(a + b) == InventoryJobs(a) + InventoryJobs(b)
  {
    if |b| > 0 {
      var n := |b| - 1;
      assert (a + b)[..|a| + n] == a + b[..n];
      InventoryJobsAppend(a, b[..n]);
    } else {
      assert a + b == a;
    }
  }

  /** The job an optional index points at. */
  function At(jobs: seq<Job>, r: Option<nat>): Option<Job>
    requires r.Some? ==> r.value < |jobs|
  {
    if r.Some? then Some(jobs[r.value]) else None
  }

  lemma {:induction false} FirstRunningOfInventory(jobs: seq<Job>)
    ensures At(jobs, FirstRunning(jobs)) == At(InventoryJobs(jobs), FirstRunning(InventoryJobs(jobs)))
  {
    if |jobs| > 0 {
      var n := |jobs| - 1;
      var p := jobs[..n];
      var f := InventoryJobs(p);
      FirstRunningOfInventory(p);
      var fr, gr := FirstRunning(p), FirstRunning(f);
      assert At(p, fr) == At(f, gr);
      assert FirstRunning(jobs) == if fr.Some? then fr else if Running(jobs[n]) then Some(n) else None;
      assert fr.Some? ==> At(jobs, fr) == At(p, fr);
      if IsInventory(jobs[n]) {
        var g := f + [jobs[n]];
        assert InventoryJobs(jobs) == g;
        assert g[..|f|] == f;
        assert FirstRunning(g) == if gr.Some? then gr else if Running(jobs[n]) then Some(|f|) else None;
        assert gr.Some? ==> At(g, gr) == At(f, gr);
      } else {
        assert InventoryJobs(jobs) == f;
      }
    }
  }

  lemma InventoryJobsDated(jobs: seq<Job>)
    requires InventoryDated(jobs)
    ensures InventoryDated(InventoryJobs(jobs))
  {
  }

  lemma {:induction false} LatestOfInventory(jobs: seq<Job>)
    requires InventoryDated(jobs)
    ensures InventoryDated(InventoryJobs(jobs))
    ensures At(jobs, Latest(jobs)) == At(InventoryJobs(jobs), Latest(InventoryJobs(jobs)))
  {
    InventoryJobsDated(jobs);
    if |jobs| > 0 {
      var n := |jobs| - 1;
      var p := jobs[..n];
      assert InventoryDated(p) by {
        assert forall i :: 0 <= i < n ==> p[i] == jobs[i];
      }
      var f := InventoryJobs(p);
      LatestOfInventory(p);
      var prev := Latest(p);
      if IsInventory(jobs[n]) {
        var g := f + [jobs[n]];
        assert InventoryJobs(jobs) == g;
        assert g[..|f|] == f;
        var prevF := Latest(f);
        assert prev.Some? ==> p[prev.value] == jobs[prev.value];
        assert prevF.Some? ==> g[prevF.value] == f[prevF.value];
      } else {
        assert InventoryJobs(jobs) == f;
      }
    }
  }

  /** The selector looks at inventory-retrieval jobs only. */
  lemma SelectSeesOnlyInventory(jobs: seq<Job>)
    requires Dated(jobs)
    ensures Dated(InventoryJobs(jobs))
    ensures Select(jobs) == Select(InventoryJobs(jobs))
  {
    var inv := InventoryJobs(jobs);
    FirstRunningOfInventory(jobs);
    if FirstRunning(jobs).None? {
      LatestOfInventory(jobs);
    }
  }

  lemma DatedInsert(a: seq<Job>, j: Job, b: seq<Job>)
    requires !IsInventory(j) && Dated(a + b)
    ensures Dated(a + [j] + b)
  {
    var ajb := a + [j] + b;
    forall i | 0 <= i < |ajb| && IsInventory(ajb[i]) && ajb[i].completed
      ensures ajb[i].completionDate.Some?
    {
      if i < |a| {
        assert ajb[i] == (a + b)[i];
      } else if i > |a| {
        assert ajb[i] == (a + b)[i - 1];
      }
    }
  }

  /** Adding a job that is no inventory retrieval anywhere in the list never
      changes the selection. */
  lemma SelectIgnoresOtherJobs(a: seq<Job>, j: Job, b: seq<Job>)
    requires !IsInventory(j) && Dated(a + b)
    ensures Dated(a + [j] + b)
    ensures Select(a + [j] + b) == Select(a + b)
  {
    DatedInsert(a, j, b);
    InventoryJobsAppend(a + [j], b);
    InventoryJobsAppend(a, [j]);
    InventoryJobsAppend(a, b);
    assert InventoryJobs([j]) == [] by {
      assert [j][..0] == [];
    }
    assert InventoryJobs(a + [j] + b) == InventoryJobs(a + b);
    SelectSeesOnlyInventory(a + [j] + b);
    SelectSeesOnlyInventory(a + b);
  }

  /** Of two completed inventory jobs, the second is selected exactly when its
      date is string-greater; on equal dates the first one stays selected. */
  lemma TwoInventoryJobs(a: Job, b: Job)
    requires IsInventory(a) && a.completed && a.completionDate.Some?
    requires IsInventory(b) && b.completed && b.completionDate.Some?
    ensures Select([a, b]) == if Less(Date(a), Date(b)) then Selected(b.jobId) else Selected(a.jobId)
  {
    var jobs := [a, b];
    assert !Running(jobs[0]) && !Running(jobs[1]);
    assert IsLatest(jobs, Latest(jobs).value);
  }
}

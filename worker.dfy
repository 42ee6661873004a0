/** One worker's run of `avg_ke_acfs` (kinetic_energy.py:22-93): enumerate the
    jobs, take every size-th one starting at rank, run the bin sweep for each and
    overwrite the worker's artifact after each job. */
module KineticEnergy {
  import opened Jobs
  import opened Partition
  import opened BinSweep
  import opened Artifacts

  /** The code the function calls but that is not part of this model, as
      functions of their inputs:
      - midnight: `time.mktime(datetime.date(year, month, day).timetuple())`;
      - rawCount: `len(md.read_data(t0=..., t1=...)["t"])`;
      - estimate: `cfi.cfi` on `cfi.get_meas` of the data read, for a given
        horizontal scale `ds_h`; the same `ds_h` is written to the artifact. */
  datatype Collaborators = Collaborators(midnight: Job -> int, rawCount: Window -> nat, estimate: real -> Estimator)

  /** The fixed parameters of one call: bin centres, horizontal scale, output name. */
  datatype Scenario = Scenario(tods: seq<real>, heights: seq<real>, dsH: real, name: string)

  /** How a worker's loop ends: all its jobs done, or `datetime.date` raised
      ValueError on the job at `index`, which ends the worker. */
  datatype Outcome = Completed | DateError(index: nat)

  /** The artifact written after processing `job`. */
  function JobArtifact(ext: Collaborators, sc: Scenario, job: Job): Artifact {
    var window := ReadWindow(ext.midnight(job));
    var n := ext.rawCount(window);
    var est := ext.estimate(sc.dsH);
    Artifact(ResultTensor(n, est, window, sc.tods, sc.heights, false),
             ResultTensor(n, est, window, sc.tods, sc.heights, true),
             sc.tods, sc.heights, sc.dsH)
  }

  /** The artifacts written for the job indices `idxs`, in order. */
  function Written(ext: Collaborators, sc: Scenario, pars: seq<Job>, idxs: seq<nat>): seq<Artifact>
    requires forall k :: 0 <= k < |idxs| ==> idxs[k] < |pars|
  {
    seq(|idxs|, k requires 0 <= k < |idxs| => JobArtifact(ext, sc, pars[idxs[k]]))
  }

  /** One iteration of the stride loop, kinetic_energy.py:51-93, for a job that
      `datetime.date` accepts: run the sweep and overwrite the rank's file. */
  method ProcessJob(out: OutputDirectory, ext: Collaborators, sc: Scenario, job: Job, path: string)
    modifies out
    ensures out.files == old(out.files)[path := JobArtifact(ext, sc, job)]
  {
    var t0 := ext.midnight(job);
    var window := ReadWindow(t0);
    var rawCount := ext.rawCount(window);
    var acfs, errs;
    ghost var calls;
    acfs, errs, calls := RunJob(window, rawCount, ext.estimate(sc.dsH), sc.tods, sc.heights);
    out.Write(path, Artifact(Snapshot(acfs), Snapshot(errs), sc.tods, sc.heights, sc.dsH));
  }

  lemma WrittenSnoc(ext: Collaborators, sc: Scenario, pars: seq<Job>, idxs: seq<nat>, i: nat)
    requires forall k :: 0 <= k < |idxs| ==> idxs[k] < |pars|
    requires i < |pars|
    ensures Written(ext, sc, pars, idxs + [i]) == Written(ext, sc, pars, idxs) + [JobArtifact(ext, sc, pars[i])]
  {
  }

  lemma StrideRangeStep(rank: nat, pi: nat, n: nat, size: nat, done: seq<nat>)
    requires size >= 1 && pi < n
    requires StrideRange(rank, n, size) == done + StrideRange(pi, n, size)
    ensures StrideRange(rank, n, size) == (done + [pi]) + StrideRange(pi + size, n, size)
  {
  }

  /** The stride loop of kinetic_energy.py:50-93. `done` lists the job indices
      whose artifact was written, in order. */
  method RunWorker(out: OutputDirectory, ext: Collaborators, sc: Scenario, pars: seq<Job>, rank: nat, size: nat)
    returns (outcome: Outcome, ghost done: seq<nat>)
    requires size >= 1
    modifies out
    ensures outcome.Completed? ==> done == StrideRange(rank, |pars|, size)
    ensures outcome.DateError? ==>
              && done + [outcome.index] <= StrideRange(rank, |pars|, size)
              && outcome.index < |pars| && !IsValidDate(pars[outcome.index])
    ensures forall k :: 0 <= k < |done| ==> done[k] < |pars| && IsValidDate(pars[done[k]])
    ensures out.files == Overwrites(old(out.files), ArtifactPath(sc.name, rank), Written(ext, sc, pars, done))
    ensures out.files == if done == [] then old(out.files)
                         else old(out.files)[ArtifactPath(sc.name, rank) := JobArtifact(ext, sc, pars[done[|done| - 1]])]
    ensures rank >= |pars| ==> outcome.Completed? && out.files == old(out.files)
  {
    var path := ArtifactPath(sc.name, rank);
    done := [];
    outcome := Completed;
    var pi := rank;
    while pi < |pars|
      invariant StrideRange(rank, |pars|, size) == done + StrideRange(pi, |pars|, size)
      invariant forall k :: 0 <= k < |done| ==> done[k] < |pars| && IsValidDate(pars[done[k]])
      invariant out.files == Overwrites(old(out.files), path, Written(ext, sc, pars, done))
      invariant rank >= |pars| ==> done == []
      decreases |pars| - pi
    {
      var job := pars[pi];
      if !IsValidDate(job) {
        outcome := DateError(pi);
        break;
      }
      ProcessJob(out, ext, sc, job, path);
      OverwritesSnoc(old(out.files), path, Written(ext, sc, pars, done), JobArtifact(ext, sc, job));
      WrittenSnoc(ext, sc, pars, done, pi);
      StrideRangeStep(rank, pi, |pars|, size, done);
      done := done + [pi];
      pi := pi + size;
    }
    LastWriteWins(old(out.files), path, Written(ext, sc, pars, done));
  }

  /** `avg_ke_acfs` for the worker `rank` of `size`, after the shared output
      directory has been prepared. */
  method AvgKeAcfs(out: OutputDirectory, ext: Collaborators, sc: Scenario,
                   years: seq<int>, months: seq<int>, rank: nat, size: nat)
    returns (outcome: Outcome, ghost done: seq<nat>)
    requires rank < size
    modifies out
    ensures outcome.Completed? ==> done == StrideRange(rank, WeeksPerMonth * |years| * |months|, size)
    ensures outcome.DateError? ==>
              && done + [outcome.index] <= StrideRange(rank, WeeksPerMonth * |years| * |months|, size)
              && outcome.index < |JobList(years, months)| && !IsValidDate(JobList(years, months)[outcome.index])
    ensures forall k :: 0 <= k < |done| ==> done[k] < |JobList(years, months)| && IsValidDate(JobList(years, months)[done[k]])
    ensures out.files == if done == [] then old(out.files)
                         else old(out.files)[ArtifactPath(sc.name, rank) :=
                                               JobArtifact(ext, sc, JobList(years, months)[done[|done| - 1]])]
  {
    var pars := EnumerateJobs(years, months);
    JobsLength(years, months);
    outcome, done := RunWorker(out, ext, sc, pars, rank, size);
  }

  /** With at least as many workers as jobs, worker `rank` gets at most one job:
      job `rank` itself when there is one, none otherwise. */
  lemma AtMostOneJobPerWorker(n: nat, size: nat, rank: nat)
    requires size >= 1 && size >= n
    ensures StrideRange(rank, n, size) == if rank < n then [rank] else []
    ensures |StrideRange(rank, n, size)| <= 1
  {
  }
}

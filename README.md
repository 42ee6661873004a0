# Kinetic-energy ACF sweep: job and bin bookkeeping

This project models the bookkeeping inside `avg_ke_acfs` in `kinetic_energy.py`. That function estimates the mean kinetic energy of atmospheric wind fluctuations per time-of-day and height bin. One MPI worker does the following:

1. It expands the configured `years` × `months` × four week offsets into a list of calendar-window jobs (`pars`).
2. It takes every `size`-th job, starting at its own `rank`.
3. For each job, it allocates two zero arrays `acfs` and `errs` of shape `[6, n_t, n_height]`. It reads the measurements for the week plus one hour on each side. If more than 100 raw measurements were read, it fills column `[:, ti, hi]` of both arrays with the ACF estimator's 6-vectors for every bin.
4. After each job, it writes both arrays to the file `mpi/<name>/ke_res-<rank:06d>.h5`, replacing whatever the file held before.

The model is written in Dafny 4.11, one module per component:

- `Jobs` (jobs.dfy): the `Job` datatype and the job list, with the nested-loop method that builds it. It also holds the calendar check that `datetime.date` applies and the read window.
- `Partition` (partition.dfy): `range(rank, n_pars, size)` as a pure function, with the lemmas showing that it partitions the job indices.
- `BinSweep` (sweep.dfy): the two `array3<real>` grids and the nested `ti`/`hi` loops with the count gate. A ghost trace records where the estimator is called, and a value view of the arrays states what every cell holds.
- `Artifacts` (artifacts.dfy): the artifact file name and its decimal read-back. The output directory is a class holding a `map` from path to file contents, with overwrite-on-write.
- `KineticEnergy` (worker.dfy): the stride loop of one worker and the whole function for one rank.
- `Arith` (arith.dfy) and `Collections` (collections.dfy): helper facts about division and about duplicate-free sequences.

The external collaborators are fields of one `Collaborators` value. Each is a total function of its inputs:

- `midnight` stands for `time.mktime(datetime.date(...).timetuple())`.
- `rawCount` stands for `len(md.read_data(...)["t"])`.
- `estimate` stands for `cfi.cfi` applied to `cfi.get_meas` of the data read. It takes the scenario's `ds_h` as an argument, the same value that is written to the artifact. The other fixed arguments (`dcos_thresh`, `dt`, `dh=2`, `ds_z=1.0`, `horizontal_dist=True`) are folded into it.

MPI's `rank` and `size` are plain parameters.

Details of what `avg_ke_acfs` does that are easy to misread:

- The inputs `years` and `months` are ordered lists, not sets. They are iterated in the order given, and duplicates are kept.
- The gate is the strict test `len(d["t"]) > 100` on the raw read count, not on the filtered measurements. It is evaluated again for every bin, always with the same value, rather than once per job.
- The artifact is rewritten after every job, not once after the worker's last job. Only the last job's arrays survive in it.
- An invalid calendar date makes `datetime.date` raise, which ends the worker. Any artifact an earlier job wrote stays where it is.

## Model

| member | source | states |
|---|---|---|
| `Jobs.EnumerateJobs` | kinetic_energy.py:41-47 | the three nested loops build exactly `JobList(years, months)`: year outermost, then month, then week, with the day of week w equal to 7w+1 |
| `Jobs.JobsLength` | kinetic_energy.py:41-47 | the job list has exactly 4·len(years)·len(months) entries, whatever duplicates the inputs hold |
| `Jobs.JobsAt` | kinetic_energy.py:42-45 | position 4·(i·len(months) + j) + w holds year i, month j and day 7w+1, so the order is year, then month, then week |
| `Jobs.JobsMember` | kinetic_energy.py:42-45 | a job is in the list if and only if its year is among the years, its month among the months, and its day is 1, 8, 15 or 22 |
| `Jobs.JobsDistinct` | kinetic_energy.py:42-45 | with duplicate-free years and months, no job occurs twice |
| `Jobs.DuplicateYearRepeatsJobs` | kinetic_energy.py:42-45 | a year listed twice yields the same job at two different positions: nothing is deduplicated |
| `Jobs.DuplicateMonthRepeatsJobs` | kinetic_energy.py:42-45 | a month listed twice yields, within every year, the same job at two different positions |
| `Jobs.JobDateValidity` | kinetic_energy.py:45-54 | every generated day is valid for its month, so `datetime.date` accepts a job if and only if its year is in 1..9999 and its month in 1..12 |
| `Jobs.ReadWindow` | kinetic_energy.py:59 | the read window strictly contains the week, is padded equally on both sides, and spans 7 days plus 2 hours |
| `Partition.StrideRangeAt` | kinetic_energy.py:50 | the j-th index a worker processes is rank + j·size |
| `Partition.StrideRangeIncreasing` | kinetic_energy.py:50 | a worker processes its indices in strictly increasing order |
| `Partition.StrideRangeMember` | kinetic_energy.py:50 | an index is processed if and only if it is at least rank, below n_pars, and a whole number of strides from rank |
| `Partition.StrideRangeLength` | kinetic_energy.py:50 | a worker processes ceil((n_pars − rank)/size) jobs, and none when rank ≥ n_pars |
| `Partition.OwnerOfIndex` | kinetic_energy.py:50 | for a rank below size, job index i belongs to that rank if and only if i mod size equals the rank |
| `Partition.ExactlyOneOwner` | kinetic_energy.py:50 | every job index below n_pars is processed by one rank in 0..size−1, and by no other |
| `Partition.WorkersDisjoint` | kinetic_energy.py:50 | two distinct ranks never share a job index |
| `Partition.WorkersCover` | kinetic_energy.py:50 | the union of the index sets of ranks 0..size−1 is exactly 0..n_pars−1 |
| `KineticEnergy.AtMostOneJobPerWorker` | kinetic_energy.py:50 | when size ≥ n_pars, worker `rank` has exactly the job `rank` if rank < n_pars and no job otherwise, hence at most one |
| `BinSweep.SweepVisitsEachBinOnce` | kinetic_energy.py:66-67 | the nested loops visit every (ti, hi) bin of the grid exactly once and nothing outside it |
| `BinSweep.ResultTensorGate` | kinetic_energy.py:57-83 | with at most 100 raw measurements, a job's arrays are all zero whatever the estimator and bin centres; with more, each cell holds the estimator's value for its bin |
| `BinSweep.NewZeroGrid` | kinetic_energy.py:57-58 | a fresh [6, n_t, n_height] array with every cell zero |
| `BinSweep.WriteColumn` | kinetic_energy.py:82-83 | `a[:, ti, hi] = v` sets the six cells of that column to v and changes no other column |
| `BinSweep.SweepBins` | kinetic_energy.py:66-83 | the estimator is called once per bin in row-major order when the count exceeds 100 and never otherwise; each cell then holds its bin's estimate, or keeps its old value when the gate is closed |
| `BinSweep.RunJob` | kinetic_energy.py:57-83 | a job's arrays are fresh and distinct, of shape [6, n_t, n_height], and equal the gated estimates; no value carries over from an earlier job |
| `Artifacts.PaddedRankRoundTrip` | kinetic_energy.py:87 | the zero-padded decimal rank in the file name reads back as the rank |
| `Artifacts.ArtifactPathInjective` | kinetic_energy.py:87 | under one scenario name, two ranks write the same path if and only if they are the same rank |
| `Artifacts.OutputDirectory.Write` | kinetic_energy.py:87-93 | opening with mode "w" replaces the file's contents and leaves every other file as it was |
| `Artifacts.OverwritesSnoc` | kinetic_energy.py:87-93 | one more write to the same path updates the directory at that path only |
| `Artifacts.LastWriteWins` | kinetic_energy.py:87-93 | after a sequence of writes to one path, only the last one survives and no other path changes |
| `KineticEnergy.ProcessJob` | kinetic_energy.py:51-93 | one accepted job: its read window, raw count and gated sweep, written as the new contents of the rank's file, with every other file unchanged |
| `KineticEnergy.RunWorker` | kinetic_energy.py:50-93 | the worker processes exactly its stride indices in order, or stops at the first one `datetime.date` rejects; the directory then holds, at the rank's path only, the artifact of the last job written; a rank ≥ n_pars writes nothing |
| `KineticEnergy.AvgKeAcfs` | kinetic_energy.py:22-93 | for one rank, the whole function: the enumerated jobs partitioned by stride, and the rank's artifact equal to the last processed job's arrays |

## Left out

- The MPI communicator (kinetic_energy.py:16-19) and `comm.Barrier()` (line 35): only per-worker behaviour is modelled. `rank` and `size` are parameters, with `rank < size` as MPI guarantees.
- The directory reset by rank 0 (kinetic_energy.py:32-34, `rm` and `mkdir -p` through `os.system`) is shell I/O and is not modelled. The model starts from any existing directory contents.
- HDF5 serialisation: a file is modelled as the value of its five datasets. I/O errors on writing are not modelled.
- `md.read_data`, `cfi.get_meas` and `cfi.cfi` are total functions of their inputs. If one of them raises, the worker ends in the source; the model does not include that path. The estimator's extra outputs (`itaus`, `ixs`, `iys`, `izs`, `is_h`) are dropped.
- The estimator is assumed to return vectors of exactly six components. NumPy broadcasting of other lengths, and the shape error it raises otherwise, are not modelled.
- `time.mktime` is a total function from the job to an integer epoch second. The local time zone and the float result are not modelled, and neither is its `OverflowError`.
- The float arithmetic of `week*7.0+1` and `t0+7*24*3600+3600.0` is exact integer arithmetic in the model. The bin centres `tods` and `heights`, the horizontal scale `ds_h` and the cell values of `acfs` and `errs` (NumPy float64) are `real` values. The model only passes them through and copies them, so no property depends on float rounding.
- The default argument values of `avg_ke_acfs` (lines 23-30) are not modelled: every argument is a parameter.
- The `print` calls (lines 48, 69, 71) and the commented-out plotting (lines 84-86) are not modelled.
- The module-level data loading and the scenario presets (kinetic_energy.py:95-145) are configuration and are not modelled.
- KineticEnergy.RunWorker: it does not model a worker being aborted by a failing read, estimate or write. Only the `datetime.date` failure is modelled.

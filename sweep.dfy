/** The per-job bin sweep (kinetic_energy.py:57-83): two zero-initialised
    [6, n_t, n_height] arrays, a visit of every (time-of-day, height) bin in
    row-major order, and a write of the estimator's 6-vectors into column
    [:, ti, hi] whenever the raw measurement count of the job exceeds 100. */
module BinSweep {
  import opened Collections
  import opened Jobs

  /** Number of ACF components per bin (the first array axis). */
  const Components: nat := 6

  /** The estimator is only called when strictly more than this many raw
      measurements were read for the job. */
  const MinMeteors: nat := 100

  type Vec6 = v: seq<real> | |v| == 6 witness [0.0, 0.0, 0.0, 0.0, 0.0, 0.0]

  /** What `cfi.cfi` returns for one bin: the ACF estimate and its error. */
  datatype Estimate = Estimate(acf: Vec6, err: Vec6)

  /** `cfi.cfi(cfi.get_meas(md.read_data(window)), h0=height, hour_of_day=tod, ...)`:
      the estimate for the data of `window` in the bin centred on (tod, height).
      The fixed arguments (dcos_thresh, dt, dh, ds_z) belong to the scenario and
      are part of the function; ds_h is supplied by the caller (see
      `KineticEnergy.Collaborators`). */
  type Estimator = (Window, real, real) -> Estimate

  /** A (time-of-day index, height index) cell of the grid. */
  datatype Bin = Bin(ti: nat, hi: nat)

  /** The bins of row ti with height index below n, in increasing height order. */
  function RowBins(ti: nat, n: nat): seq<Bin> {
    if n == 0 then [] else RowBins(ti, n - 1) + [Bin(ti, n - 1)]
  }

  /** The visiting order of the nested `ti`/`hi` loops: row by row. */
  function SweepOrder(nT: nat, nH: nat): seq<Bin> {
    if nT == 0 then [] else SweepOrder(nT - 1, nH) + RowBins(nT - 1, nH)
  }

  lemma {:induction false} RowBinsMembers(ti: nat, n: nat)
    ensures forall b :: b in RowBins(ti, n) <==> b.ti == ti && b.hi < n
  {
    if n > 0 {
      RowBinsMembers(ti, n - 1);
    }
  }

  lemma {:induction false} RowBinsDistinct(ti: nat, n: nat)
    ensures Distinct(RowBins(ti, n))
  {
    if n > 0 {
      RowBinsDistinct(ti, n - 1);
      RowBinsMembers(ti, n - 1);
      DistinctConcat(RowBins(ti, n - 1), [Bin(ti, n - 1)]);
    }
  }

  /** The sweep visits every bin of the grid, nothing outside it, and no bin
      twice: each (ti, hi) cell is visited exactly once. */
  lemma {:induction false} SweepVisitsEachBinOnce(nT: nat, nH: nat)
    ensures Distinct(SweepOrder(nT, nH))
    ensures forall b :: b in SweepOrder(nT, nH) <==> b.ti < nT && b.hi < nH
  {
    if nT > 0 {
      SweepVisitsEachBinOnce(nT - 1, nH);
      RowBinsDistinct(nT - 1, nH);
      RowBinsMembers(nT - 1, nH);
      DistinctConcat(SweepOrder(nT - 1, nH), RowBins(nT - 1, nH));
    }
  }

  // Value view of the [6, n_t, n_height] arrays.

  /** A [component][time of day][height] grid of numbers. */
  type Tensor = seq<seq<seq<real>>>

  ghost predicate HasShape(t: Tensor, nT: nat, nH: nat) {
    && |t| == Components
    && (forall c :: 0 <= c < Components ==> |t[c]| == nT)
    && (forall c, ti :: 0 <= c < Components && 0 <= ti < nT ==> |t[c][ti]| == nH)
  }

  /** The contents of a 3-D array as a value (what the HDF5 file receives). */
  function Snapshot(a: array3<real>): (t: Tensor)
    reads a
    requires a.Length0 == Components
    ensures HasShape(t, a.Length1, a.Length2)
  {
    seq(a.Length0, c requires 0 <= c < a.Length0 reads a =>
      seq(a.Length1, ti requires 0 <= ti < a.Length1 reads a =>
        seq(a.Length2, hi requires 0 <= hi < a.Length2 reads a => a[c, ti, hi])))
  }

  /** Component c of an estimate, from its ACF or its error vector. */
  function Pick(e: Estimate, c: nat, errors: bool): real
    requires c < Components
  {
    if errors then e.err[c] else e.acf[c]
  }

  /** What one cell holds after the sweep: the estimate when the gate passes, the
      initial zero otherwise. */
  function BinValue(rawCount: nat, e: Estimate, c: nat, errors: bool): real
    requires c < Components
  {
    if rawCount > MinMeteors then Pick(e, c, errors) else 0.0
  }

  /** The `acfs` (errors == false) or `errs` (errors == true) array of a job read
      over `window`, as a value. */
  function ResultTensor(rawCount: nat, est: Estimator, window: Window,
                        tods: seq<real>, heights: seq<real>, errors: bool): Tensor
  {
    seq(Components, c requires 0 <= c < Components =>
      seq(|tods|, ti requires 0 <= ti < |tods| =>
        seq(|heights|, hi requires 0 <= hi < |heights| =>
          BinValue(rawCount, est(window, tods[ti], heights[hi]), c, errors))))
  }

  /** An all-zero grid of the given shape. */
  function ZeroTensor(nT: nat, nH: nat): Tensor {
    seq(Components, c => seq(nT, ti => seq(nH, hi => 0.0)))
  }

  /** Two grids of the same shape that agree on every cell are equal. */
  lemma TensorExt(t: Tensor, u: Tensor, nT: nat, nH: nat)
    requires HasShape(t, nT, nH) && HasShape(u, nT, nH)
    requires forall c, ti, hi :: 0 <= c < Components && 0 <= ti < nT && 0 <= hi < nH ==>
               t[c][ti][hi] == u[c][ti][hi]
    ensures t == u
  {
    forall c | 0 <= c < Components ensures t[c] == u[c] {
      forall ti | 0 <= ti < nT ensures t[c][ti] == u[c][ti] {
      }
    }
  }

  /** With at most 100 raw measurements the job's arrays are entirely zero,
      whatever the estimator, the window and the bin centres; with more, every
      cell holds the estimator's value for its bin. */
  lemma ResultTensorGate(rawCount: nat, est: Estimator, window: Window,
                         tods: seq<real>, heights: seq<real>, errors: bool)
    ensures HasShape(ResultTensor(rawCount, est, window, tods, heights, errors), |tods|, |heights|)
    ensures rawCount <= MinMeteors ==>
              ResultTensor(rawCount, est, window, tods, heights, errors) == ZeroTensor(|tods|, |heights|)
    ensures rawCount > MinMeteors ==>
              forall c, ti, hi :: 0 <= c < Components && 0 <= ti < |tods| && 0 <= hi < |heights| ==>
                ResultTensor(rawCount, est, window, tods, heights, errors)[c][ti][hi]
                  == Pick(est(window, tods[ti], heights[hi]), c, errors)
  {
    var t := ResultTensor(rawCount, est, window, tods, heights, errors);
    if rawCount <= MinMeteors {
      var z := ZeroTensor(|tods|, |heights|);
      forall c, ti, hi | 0 <= c < Components && 0 <= ti < |tods| && 0 <= hi < |heights|
        ensures t[c][ti][hi] == z[c][ti][hi]
      {
        assert t[c][ti][hi] == BinValue(rawCount, est(window, tods[ti], heights[hi]), c, errors);
      }
      TensorExt(t, z, |tods|, |heights|);
    }
  }

  // The imperative sweep over the two arrays.

  /** `n.zeros([6, n_t, n_height])`. */
  method NewZeroGrid(nT: nat, nH: nat) returns (a: array3<real>)
    ensures fresh(a)
    ensures a.Length0 == Components && a.Length1 == nT && a.Length2 == nH
    ensures forall c, ti, hi :: 0 <= c < Components && 0 <= ti < nT && 0 <= hi < nH ==> a[c, ti, hi] == 0.0
  {
    a := new real[Components, nT, nH]((c, ti, hi) => 0.0);
  }

  /** `a[:, ti, hi] = v`: sets one column and leaves every other column alone. */
  method WriteColumn(a: array3<real>, ti: nat, hi: nat, v: Vec6)
    requires a.Length0 == Components && ti < a.Length1 && hi < a.Length2
    modifies a
    ensures forall c :: 0 <= c < Components ==> a[c, ti, hi] == v[c]
    ensures forall c, t, h ::
              (0 <= c < Components && 0 <= t < a.Length1 && 0 <= h < a.Length2 && (t != ti || h != hi))
              ==> a[c, t, h] == old(a[c, t, h])
  {
    for k := 0 to Components
      invariant forall c :: 0 <= c < k ==> a[c, ti, hi] == v[c]
      invariant forall c, t, h ::
                  (0 <= c < Components && 0 <= t < a.Length1 && 0 <= h < a.Length2 && (t != ti || h != hi || k <= c))
                  ==> a[c, t, h] == old(a[c, t, h])
    {
      a[k, ti, hi] := v[k];
    }
  }

  /** The nested loops of kinetic_energy.py:66-83. The raw count is tested again
      for every bin, with the same value each time. `calls` records, in order,
      the bins for which the estimator was called. */
  method SweepBins(acfs: array3<real>, errs: array3<real>, rawCount: nat, est: Estimator,
                   window: Window, tods: seq<real>, heights: seq<real>)
    returns (ghost calls: seq<Bin>)
    requires acfs.Length0 == Components && acfs.Length1 == |tods| && acfs.Length2 == |heights|
    requires errs.Length0 == Components && errs.Length1 == |tods| && errs.Length2 == |heights|
    requires acfs != errs
    modifies acfs, errs
    ensures calls == if rawCount > MinMeteors then SweepOrder(|tods|, |heights|) else []
    ensures forall c, ti, hi :: 0 <= c < Components && 0 <= ti < |tods| && 0 <= hi < |heights| ==>
              && acfs[c, ti, hi] == (if rawCount > MinMeteors then est(window, tods[ti], heights[hi]).acf[c]
                                    else old(acfs[c, ti, hi]))
              && errs[c, ti, hi] == (if rawCount > MinMeteors then est(window, tods[ti], heights[hi]).err[c]
                                    else old(errs[c, ti, hi]))
  {
    calls := [];
    var nT, nH := |tods|, |heights|;
    for ti := 0 to nT
      invariant calls == if rawCount > MinMeteors then SweepOrder(ti, nH) else []
      invariant forall c, t, h :: 0 <= c < Components && 0 <= t < nT && 0 <= h < nH ==>
                  && acfs[c, t, h] == (if rawCount > MinMeteors && t < ti then est(window, tods[t], heights[h]).acf[c]
                                      else old(acfs[c, t, h]))
                  && errs[c, t, h] == (if rawCount > MinMeteors && t < ti then est(window, tods[t], heights[h]).err[c]
                                      else old(errs[c, t, h]))
    {
      for hi := 0 to nH
        invariant calls == if rawCount > MinMeteors then SweepOrder(ti, nH) + RowBins(ti, hi) else []
        invariant forall c, t, h :: 0 <= c < Components && 0 <= t < nT && 0 <= h < nH ==>
                    && acfs[c, t, h] == (if rawCount > MinMeteors && (t < ti || (t == ti && h < hi))
                                        then est(window, tods[t], heights[h]).acf[c] else old(acfs[c, t, h]))
                    && errs[c, t, h] == (if rawCount > MinMeteors && (t < ti || (t == ti && h < hi))
                                        then est(window, tods[t], heights[h]).err[c] else old(errs[c, t, h]))
      {
        var nMeas := rawCount;
        if nMeas > MinMeteors {
          var e := est(window, tods[ti], heights[hi]);
          calls := calls + [Bin(ti, hi)];
          WriteColumn(acfs, ti, hi, e.acf);
          WriteColumn(errs, ti, hi, e.err);
        }
      }
    }
  }

  /** One job's arrays, kinetic_energy.py:57-83: allocate both grids at zero, take
      the raw count of the data read over `window`, and sweep. */
  method RunJob(window: Window, rawCount: nat, est: Estimator, tods: seq<real>, heights: seq<real>)
    returns (acfs: array3<real>, errs: array3<real>, ghost calls: seq<Bin>)
    ensures fresh(acfs) && fresh(errs) && acfs != errs
    ensures acfs.Length0 == Components && acfs.Length1 == |tods| && acfs.Length2 == |heights|
    ensures errs.Length0 == Components && errs.Length1 == |tods| && errs.Length2 == |heights|
    ensures Snapshot(acfs) == ResultTensor(rawCount, est, window, tods, heights, false)
    ensures Snapshot(errs) == ResultTensor(rawCount, est, window, tods, heights, true)
    ensures calls == if rawCount > MinMeteors then SweepOrder(|tods|, |heights|) else []
  {
    acfs := NewZeroGrid(|tods|, |heights|);
    errs := NewZeroGrid(|tods|, |heights|);
    calls := SweepBins(acfs, errs, rawCount, est, window, tods, heights);
    ResultTensorGate(rawCount, est, window, tods, heights, false);
    ResultTensorGate(rawCount, est, window, tods, heights, true);
    TensorExt(Snapshot(acfs), ResultTensor(rawCount, est, window, tods, heights, false), |tods|, |heights|);
    TensorExt(Snapshot(errs), ResultTensor(rawCount, est, window, tods, heights, true), |tods|, |heights|);
  }
}

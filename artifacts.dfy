/** The per-worker output artifact (kinetic_energy.py:87-93): the file
    "mpi/<name>/ke_res-<rank, zero-padded to 6 digits>.h5", opened with mode "w"
    after every job, so it is truncated and rewritten each time. The output
    directory is modelled as a map from path to file contents. */
module Artifacts {
  import opened BinSweep

  /** The datasets written to one file: acfs, errs, tods, heights and ds_h. */
  datatype Artifact = Artifact(acfs: Tensor, errs: Tensor, tods: seq<real>, heights: seq<real>, dsH: real)

  // The file name: "mpi/%s/ke_res-%06d.h5" % (name, rank).

  const PadWidth: nat := 6

  function DigitChar(d: nat): char
    requires d < 10
  {
    "0123456789"[d]
  }

  function DigitValue(ch: char): nat {
    if '0' <= ch <= '9' then ch as int - '0' as int else 0
  }

  /** The decimal digits of n, most significant first (`%d`). */
  function Decimal(n: nat): string
    decreases n
  {
    if n < 10 then [DigitChar(n)] else Decimal(n / 10) + [DigitChar(n % 10)]
  }

  function Zeros(k: nat): string {
    seq(k, _ => '0')
  }

  /** Left-pads with '0' up to `width` characters; never truncates (`%06d`). */
  function ZeroPad(s: string, width: nat): string {
    if |s| >= width then s else Zeros(width - |s|) + s
  }

  const Directory: string := "mpi/"
  const FilePrefix: string := "/ke_res-"
  const FileSuffix: string := ".h5"

  /** The path a worker writes: it depends only on the scenario name and the rank. */
  function ArtifactPath(name: string, rank: nat): string {
    Directory + name + FilePrefix + ZeroPad(Decimal(rank), PadWidth) + FileSuffix
  }

  /** The number a string of decimal digits denotes; leading zeros do not count. */
  function DecimalValue(s: string): nat {
    if s == [] then 0 else 10 * DecimalValue(s[..|s| - 1]) + DigitValue(s[|s| - 1])
  }

  /** Reading back the digits of n gives n. */
  lemma {:induction false} DecimalRoundTrip(n: nat)
    ensures DecimalValue(Decimal(n)) == n
    decreases n
  {
    if n >= 10 {
      DecimalRoundTrip(n / 10);
      var s := Decimal(n);
      assert s[..|s| - 1] == Decimal(n / 10);
    }
  }

  lemma {:induction false} ZerosValue(k: nat)
    ensures DecimalValue(Zeros(k)) == 0
  {
    if k > 0 {
      assert Zeros(k)[..k - 1] == Zeros(k - 1);
      ZerosValue(k - 1);
    }
  }

  /** Leading zeros do not change the value. */
  lemma {:induction false} LeadingZerosValue(k: nat, s: string)
    ensures DecimalValue(Zeros(k) + s) == DecimalValue(s)
  {
    if s == [] {
      assert Zeros(k) + s == Zeros(k);
      ZerosValue(k);
    } else {
      var init := s[..|s| - 1];
      assert (Zeros(k) + s)[..|Zeros(k) + s| - 1] == Zeros(k) + init;
      LeadingZerosValue(k, init);
    }
  }

  /** The padded rank in the file name still denotes the rank. */
  lemma PaddedRankRoundTrip(rank: nat)
    ensures DecimalValue(ZeroPad(Decimal(rank), PadWidth)) == rank
  {
    DecimalRoundTrip(rank);
    var s := Decimal(rank);
    if |s| < PadWidth {
      LeadingZerosValue(PadWidth - |s|, s);
    }
  }

  /** Different ranks write different files under the same name: the naming is
      collision-free across workers. */
  lemma ArtifactPathInjective(name: string, r1: nat, r2: nat)
    ensures ArtifactPath(name, r1) == ArtifactPath(name, r2) <==> r1 == r2
  {
    if ArtifactPath(name, r1) == ArtifactPath(name, r2) {
      var head := Directory + name + FilePrefix;
      var d1, d2 := ZeroPad(Decimal(r1), PadWidth), ZeroPad(Decimal(r2), PadWidth);
      var p := ArtifactPath(name, r1);
      assert p == head + d1 + FileSuffix && p == head + d2 + FileSuffix;
      assert |d1| == |d2|;
      assert d1 == p[|head|..|head| + |d1|];
      assert d2 == p[|head|..|head| + |d2|];
      PaddedRankRoundTrip(r1);
      PaddedRankRoundTrip(r2);
    }
  }

  // The output directory.

  /** Writing with h5py mode "w" replaces a file's whole contents. */
  class OutputDirectory {
    var files: map<string, Artifact>

    constructor (existing: map<string, Artifact>)
      ensures files == existing
    {
      files := existing;
    }

    method Write(path: string, artifact: Artifact)
      modifies this
      ensures files == old(files)[path := artifact]
    {
      files := files[path := artifact];
    }
  }

  /** The directory after writing `written`, first to last, all to `path`. */
  function Overwrites(files: map<string, Artifact>, path: string, written: seq<Artifact>): map<string, Artifact>
    decreases |written|
  {
    if written == [] then files else Overwrites(files[path := written[0]], path, written[1..])
  }

  lemma {:induction false} OverwritesSnoc(files: map<string, Artifact>, path: string, written: seq<Artifact>, a: Artifact)
    ensures Overwrites(files, path, written + [a]) == Overwrites(files, path, written)[path := a]
    decreases |written|
  {
    if written != [] {
      assert (written + [a])[1..] == written[1..] + [a];
      OverwritesSnoc(files[path := written[0]], path, written[1..], a);
    }
  }

  /** Only the last write survives, and no other file is touched. */
  lemma {:induction false} LastWriteWins(files: map<string, Artifact>, path: string, written: seq<Artifact>)
    ensures Overwrites(files, path, written)
         == if written == [] then files else files[path := written[|written| - 1]]
    decreases |written|
  {
    if written != [] {
      LastWriteWins(files[path := written[0]], path, written[1..]);
      if |written| > 1 {
        assert files[path := written[0]][path := written[|written| - 1]] == files[path := written[|written| - 1]];
      }
    }
  }
}

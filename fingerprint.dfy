/** The path fingerprint used to recognise a tour already found: a sample of
    the path's first and last cells, passed through a hash function. */
module Fingerprint {
  import opened Board

  /** The number of cells sampled from each end: min(100, len // 2). */
  function SampleSize(n: nat): (k: nat)
    ensures k <= 100 && k <= n / 2
    ensures k == 100 || k == n / 2
  {
    if 100 < n / 2 then 100 else n / 2
  }

  /** The sampled cells: the first SampleSize cells, and the last
      SampleSize cells, except that a sample size of 0 takes the whole
      path (a slice from -0 starts at the front). */
  function PathSample(path: seq<Pos>): (sample: (seq<Pos>, seq<Pos>))
    ensures sample.0 <= path && |sample.0| == SampleSize(|path|)
    ensures |sample.1| <= |path| && sample.1 == path[|path| - |sample.1|..]
    ensures |sample.1| == if SampleSize(|path|) == 0 then |path| else SampleSize(|path|)
  {
    var k := SampleSize(|path|);
    (path[..k], if k == 0 then path else path[|path| - k..])
  }

  /** _get_path_hash: the hash of the sampled cells. */
  function PathHash(hash: ((seq<Pos>, seq<Pos>)) -> int, path: seq<Pos>): int {
    hash(PathSample(path))
  }

  /** Index `k` of a path of `len` cells is among the sampled cells. */
  predicate Sampled(len: nat, k: nat) {
    var n := SampleSize(len);
    k < n || n == 0 || len - n <= k
  }

  /** Paths of equal length with equal samples agree on every sampled cell:
      two paths that differ at a sampled cell have different samples. */
  lemma SampleDeterminesSampledCells(p1: seq<Pos>, p2: seq<Pos>, k: nat)
    requires |p1| == |p2| && PathSample(p1) == PathSample(p2)
    requires k < |p1| && Sampled(|p1|, k)
    ensures p1[k] == p2[k]
  {
    var n := SampleSize(|p1|);
    if k < n {
      assert p1[k] == PathSample(p1).0[k];
    } else if n == 0 {
      assert p1[k] == PathSample(p1).1[k];
    } else {
      assert p1[k] == PathSample(p1).1[k - (|p1| - n)];
    }
  }

  /** A path of at most one cell, or of an even number of cells up to 200,
      is sampled whole: such paths are told apart exactly. */
  lemma ShortPathSampleIsExact(p1: seq<Pos>, p2: seq<Pos>)
    requires |p1| == |p2| && (|p1| <= 1 || (|p1| <= 200 && |p1| % 2 == 0))
    requires PathSample(p1) == PathSample(p2)
    ensures p1 == p2
  {
    forall k | 0 <= k < |p1|
      ensures p1[k] == p2[k]
    {
      SampleDeterminesSampledCells(p1, p2, k);
    }
  }

  /** Every cell between the two sampled ends is left out: changing it does
      not change the sample, so two different paths share a fingerprint
      whatever the hash (for instance the middle cell of any path of odd
      length from 3 on, or cell 100 of a 64x64 tour). */
  lemma UnsampledCellIsIgnored(p: seq<Pos>, m: nat, c: Pos)
    requires m < |p| && !Sampled(|p|, m)
    ensures PathSample(p[m := c]) == PathSample(p)
  {
    var n := SampleSize(|p|);
    var q := p[m := c];
    assert q[..n] == p[..n];
    assert q[|q| - n..] == p[|p| - n..];
  }
}

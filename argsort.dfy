/**
 * `argsort` (src/__init__.py): a parallel argsort.  The data is cut into a power-of-two
 * number of chunks with `array_split`; each chunk is argsorted on its own into the
 * matching slice of the scratch buffer `arg1`; then rounds of pairwise merges, each from
 * one buffer into the other, halve the number of runs until one run covers everything.
 *
 * Keys are integers.  An argsort of a run is run-relative: it lists the positions
 * 0 .. len-1 of the run in an order that sorts the run's keys.  The merge of two adjacent
 * runs therefore reads the second run's positions shifted by the first run's length.
 */
module ParallelSort {
  import opened PowerOfTwo
  import ArraySplit

  /** Every entry of s is a position below n. */
  predicate InRange(s: seq<int>, n: nat) {
    forall k :: 0 <= k < |s| ==> 0 <= s[k] < n
  }

  /** The positions idx list the keys of d in non-decreasing order. */
  predicate SortedBy(idx: seq<int>, d: seq<int>)
    requires InRange(idx, |d|)
  {
    forall a, b :: 0 <= a < b < |idx| ==> d[idx[a]] <= d[idx[b]]
  }

  /** idx has n entries, all below n, and every position below n occurs: a permutation of 0 .. n-1. */
  predicate Covers(idx: seq<int>, n: nat) {
    |idx| == n && InRange(idx, n) && forall v :: 0 <= v < n ==> v in idx
  }

  /** What `d.argsort()` returns: a permutation of the positions of d that sorts its keys. */
  predicate Argsorted(idx: seq<int>, d: seq<int>) {
    Covers(idx, |d|) && SortedBy(idx, d)
  }

  /** The positions of s, each moved up by h. */
  function Shift(s: seq<int>, h: int): (shifted: seq<int>) {
    seq(|s|, k requires 0 <= k < |s| => s[k] + h)
  }

  /**
   * Reference two-way merge of two position lists over the keys d: repeatedly take the
   * front whose key is smaller, the first list winning ties.
   */
  function MergeRuns(d: seq<int>, a: seq<int>, b: seq<int>): (m: seq<int>)
    requires InRange(a, |d|) && InRange(b, |d|)
    ensures |m| == |a| + |b| && multiset(m) == multiset(a) + multiset(b)
    decreases |a| + |b|
  {
    if a == [] then b
    else if b == [] then a
    else if d[a[0]] <= d[b[0]] then
      assert a == [a[0]] + a[1..];
      [a[0]] + MergeRuns(d, a[1..], b)
    else
      assert b == [b[0]] + b[1..];
      [b[0]] + MergeRuns(d, a, b[1..])
  }

  /** The merge holds exactly the positions of its two inputs. */
  lemma MergeMembers(d: seq<int>, a: seq<int>, b: seq<int>)
    requires InRange(a, |d|) && InRange(b, |d|)
    ensures forall v :: v in MergeRuns(d, a, b) <==> v in a || v in b
    ensures InRange(MergeRuns(d, a, b), |d|)
  {
    var m := MergeRuns(d, a, b);
    forall v
      ensures v in m <==> v in a || v in b
    {
      assert v in m <==> v in multiset(m);
      assert v in a <==> v in multiset(a);
      assert v in b <==> v in multiset(b);
    }
    forall k | 0 <= k < |m|
      ensures 0 <= m[k] < |d|
    {
      assert m[k] in m;
    }
  }

  /** Merging two sorted position lists gives a sorted one. */
  lemma {:induction false} MergeSorted(d: seq<int>, a: seq<int>, b: seq<int>)
    requires InRange(a, |d|) && InRange(b, |d|) && SortedBy(a, d) && SortedBy(b, d)
    ensures InRange(MergeRuns(d, a, b), |d|) && SortedBy(MergeRuns(d, a, b), d)
    decreases |a| + |b|
  {
    MergeMembers(d, a, b);
    if a != [] && b != [] {
      if d[a[0]] <= d[b[0]] {
        var x := MergeRuns(d, a[1..], b);
        MergeSorted(d, a[1..], b);
        MergeMembers(d, a[1..], b);
        forall k | 0 <= k < |x|
          ensures d[a[0]] <= d[x[k]]
        {
          assert x[k] in x;
          KeyAbove(d, a, 0, x[k]);
          KeyAbove(d, b, 0, x[k]);
        }
        ConsSorted(d, a[0], x);
      } else {
        var x := MergeRuns(d, a, b[1..]);
        MergeSorted(d, a, b[1..]);
        MergeMembers(d, a, b[1..]);
        forall k | 0 <= k < |x|
          ensures d[b[0]] <= d[x[k]]
        {
          assert x[k] in x;
          KeyAbove(d, a, 0, x[k]);
          KeyAbove(d, b, 0, x[k]);
        }
        ConsSorted(d, b[0], x);
      }
    }
  }

  /** In a sorted list, whatever occurs after position i has a key no smaller than the one at i. */
  lemma KeyAbove(d: seq<int>, s: seq<int>, i: nat, v: int)
    requires InRange(s, |d|) && SortedBy(s, d) && i < |s|
    ensures v in s[i + 1..] ==> d[s[i]] <= d[v]
  {
    if v in s[i + 1..] {
      var k :| 0 <= k < |s[i + 1..]| && s[i + 1..][k] == v;
      assert s[i + 1 + k] == v;
    }
  }

  lemma ConsSorted(d: seq<int>, h: int, x: seq<int>)
    requires 0 <= h < |d| && InRange(x, |d|) && SortedBy(x, d)
    requires forall k :: 0 <= k < |x| ==> d[h] <= d[x[k]]
    ensures InRange([h] + x, |d|) && SortedBy([h] + x, d)
  {
    var m := [h] + x;
    forall p, q | 0 <= p < q < |m|
      ensures d[m[p]] <= d[m[q]]
    {
      assert m[q] == x[q - 1];
      if p > 0 {
        assert m[p] == x[p - 1];
      }
    }
  }

  /**
   * Two adjacent argsorted runs, the second read with its positions shifted by the first
   * run's length, merge into an argsort of the joined run.
   */
  lemma MergeArgsorted(d: seq<int>, h: nat, left: seq<int>, right: seq<int>)
    requires h <= |d| && Argsorted(left, d[..h]) && Argsorted(right, d[h..])
    ensures InRange(left, |d|) && InRange(Shift(right, h), |d|)
    ensures Argsorted(MergeRuns(d, left, Shift(right, h)), d)
  {
    var sr := Shift(right, h);
    LeftRun(d, h, left);
    ShiftedRun(d, h, right);
    MergeSorted(d, left, sr);
    MergeMembers(d, left, sr);
    var m := MergeRuns(d, left, sr);
    forall v | 0 <= v < |d|
      ensures v in m
    {
      if v < h {
        assert v in left;
      } else {
        assert v in sr;
      }
    }
  }

  /** The left run's positions are positions of d too, sorted by d's keys, covering 0 .. h-1. */
  lemma LeftRun(d: seq<int>, h: nat, left: seq<int>)
    requires h <= |d| && Argsorted(left, d[..h])
    ensures InRange(left, |d|) && SortedBy(left, d)
    ensures forall v :: 0 <= v < h ==> v in left
  {
    assert forall k :: 0 <= k < |left| ==> d[..h][left[k]] == d[left[k]];
  }

  /** The right run shifted by h holds positions of d sorted by d's keys, covering h .. |d|-1. */
  lemma ShiftedRun(d: seq<int>, h: nat, right: seq<int>)
    requires h <= |d| && Argsorted(right, d[h..])
    ensures InRange(Shift(right, h), |d|) && SortedBy(Shift(right, h), d)
    ensures forall v :: h <= v < |d| ==> v in Shift(right, h)
  {
    var sr := Shift(right, h);
    assert forall k :: 0 <= k < |right| ==> d[h..][right[k]] == d[sr[k]];
    forall v | h <= v < |d|
      ensures v in sr
    {
      assert v - h in right;
      var k :| 0 <= k < |right| && right[k] == v - h;
      assert sr[k] == v;
    }
  }

  /** What `d.argsort()` computes for one chunk, as a merge sort over run-relative positions. */
  function LocalArgsort(d: seq<int>): (idx: seq<int>)
    ensures Argsorted(idx, d)
    decreases |d|
  {
    if |d| == 0 then []
    else if |d| == 1 then
      assert 0 in [0];
      [0]
    else
      var h := |d| / 2;
      var left := LocalArgsort(d[..h]);
      var right := LocalArgsort(d[h..]);
      MergeArgsorted(d, h, left, right);
      MergeRuns(d, left, Shift(right, h))
  }

  /** buf[lo..hi] is an argsort of data[lo..hi]. */
  ghost predicate RunSorted(buf: seq<int>, data: seq<int>, lo: nat, hi: nat) {
    lo <= hi <= |buf| && hi <= |data| && Argsorted(buf[lo..hi], data[lo..hi])
  }

  /** A run stays sorted when none of its entries change. */
  lemma RunFrame(b1: seq<int>, b2: seq<int>, data: seq<int>, lo: nat, hi: nat)
    requires RunSorted(b1, data, lo, hi) && |b2| == |b1|
    requires forall k :: lo <= k < hi ==> b2[k] == b1[k]
    ensures RunSorted(b2, data, lo, hi)
  {
    assert b2[lo..hi] == b1[lo..hi];
  }

  /**
   * `suboffsets` and `sublengths` describe runs laid end to end: the first starts at 0,
   * each next one where the previous ends, and the last ends at n.
   */
  predicate Contiguous(offs: seq<nat>, lens: seq<nat>, n: nat) {
    && |offs| == |lens| > 0
    && offs[0] == 0
    && (forall k :: 0 <= k < |lens| - 1 ==> offs[k + 1] == offs[k] + lens[k])
    && offs[|lens| - 1] + lens[|lens| - 1] == n
  }

  /** Runs laid end to end come in order. */
  lemma {:induction false} ContiguousOrdered(offs: seq<nat>, lens: seq<nat>, n: nat, a: nat, b: nat)
    requires Contiguous(offs, lens, n) && a < b < |lens|
    ensures offs[a] + lens[a] <= offs[b]
    decreases b - a
  {
    if a + 1 < b {
      ContiguousOrdered(offs, lens, n, a, b - 1);
    }
  }

  /** Every run laid end to end ends by n. */
  lemma {:induction false} ContiguousBound(offs: seq<nat>, lens: seq<nat>, n: nat, a: nat)
    requires Contiguous(offs, lens, n) && a < |lens|
    ensures offs[a] + lens[a] <= n
    decreases |lens| - a
  {
    if a < |lens| - 1 {
      ContiguousBound(offs, lens, n, a + 1);
    }
  }

  /** The buffer holds, for every run, an argsort of that run of data. */
  ghost predicate Runs(buf: seq<int>, data: seq<int>, offs: seq<nat>, lens: seq<nat>) {
    && |buf| == |data|
    && Contiguous(offs, lens, |data|)
    && forall k :: 0 <= k < |lens| ==> RunSorted(buf, data, offs[k], offs[k] + lens[k])
  }

  /** Every other entry of s, starting with the first (the offsets a round keeps). */
  function Evens(s: seq<nat>): (r: seq<nat>)
    ensures |r| == (|s| + 1) / 2
    ensures forall j :: 0 <= j < |r| ==> r[j] == s[2 * j]
  {
    seq((|s| + 1) / 2, j requires 0 <= j < (|s| + 1) / 2 => s[2 * j])
  }

  /**
   * The lengths of neighbouring runs 2j and 2j+1 added up; pairing even and odd entries
   * stops at the shorter list, so an unpaired last length would be dropped.
   */
  function PairSums(lens: seq<nat>): (r: seq<nat>)
    ensures |r| == |lens| / 2
    ensures forall j :: 0 <= j < |r| ==> r[j] == lens[2 * j] + lens[2 * j + 1]
  {
    seq(|lens| / 2, j requires 0 <= j < |lens| / 2 => lens[2 * j] + lens[2 * j + 1])
  }

  /**
   * One round of bookkeeping on an even number of runs: the kept offsets and the pairwise
   * sums again describe runs laid end to end over the same total, half as many of them,
   * run j being runs 2j and 2j+1 joined.
   */
  lemma RoundContiguous(offs: seq<nat>, lens: seq<nat>, n: nat)
    requires Contiguous(offs, lens, n) && |lens| % 2 == 0
    ensures Contiguous(Evens(offs), PairSums(lens), n)
    ensures 2 * |PairSums(lens)| == |lens|
    ensures forall j :: 0 <= j < |lens| / 2 ==>
      Evens(offs)[j] == offs[2 * j] && offs[2 * j + 1] == offs[2 * j] + lens[2 * j] &&
      PairSums(lens)[j] == lens[2 * j] + lens[2 * j + 1]
  {
    var o, l := Evens(offs), PairSums(lens);
    forall j | 0 <= j < |l| - 1
      ensures o[j + 1] == o[j] + l[j]
    {
      assert offs[2 * j + 2] == offs[2 * j + 1] + lens[2 * j + 1];
    }
    assert o[|l| - 1] == offs[|lens| - 2];
  }

  /** A power of two above 1 is even and its half is again a power of two. */
  lemma Halving(n: nat)
    requires IsPowerOfTwo(n) && n > 1
    ensures n % 2 == 0 && n / 2 >= 1 && IsPowerOfTwo(n / 2)
  {}

  lemma Doubling(n: nat)
    requires IsPowerOfTwo(n)
    ensures IsPowerOfTwo(2 * n)
  {
    assert (2 * n) / 2 == n;
  }

  /** The chunk count, four times the CPU count rounded up to a power of two, is a power of two of at least 8. */
  lemma ChunkCountPowerOfTwo(cpu: nat)
    requires 1 < cpu <= Pow2(64)
    ensures IsPowerOfTwo(RoundToPowerOfTwo(cpu) * 4) && RoundToPowerOfTwo(cpu) * 4 >= 8
  {
    TimesFour(RoundToPowerOfTwo(cpu));
  }

  lemma TimesFour(r: nat)
    requires IsPowerOfTwo(r) && r >= 1
    ensures IsPowerOfTwo(r * 4) && r * 4 >= 4
  {
    Doubling(r);
    Doubling(2 * r);
  }

  /** Copy run into buf from position off on (a slice assignment); the rest of buf is kept. */
  method WriteRun(buf: array<int>, off: nat, run: seq<int>)
    requires off + |run| <= buf.Length
    modifies buf
    ensures buf[off..off + |run|] == run
    ensures forall k :: 0 <= k < buf.Length && !(off <= k < off + |run|) ==> buf[k] == old(buf[k])
  {
    for j := 0 to |run|
      invariant forall k :: 0 <= k < j ==> buf[off + k] == run[k]
      invariant forall k :: 0 <= k < buf.Length && !(off <= k < off + j) ==> buf[k] == old(buf[k])
    {
      buf[off + j] := run[j];
    }
  }

  /**
   * The merge worker: it hands the compiled merge the keys of both runs, the two runs'
   * slices of the source buffer and the joined slice of the target buffer.  Given two
   * adjacent argsorted runs of src, it writes an argsort of the joined run into the same
   * slice of dst and nothing else.
   */
  method MergePair(data: seq<int>, src: array<int>, dst: array<int>, off1: nat, len1: nat, off2: nat, len2: nat)
    requires src != dst && src.Length == |data| && dst.Length == |data|
    requires off2 == off1 + len1 && off2 + len2 <= |data|
    requires RunSorted(src[..], data, off1, off2) && RunSorted(src[..], data, off2, off2 + len2)
    modifies dst
    ensures RunSorted(dst[..], data, off1, off2 + len2)
    ensures forall k :: 0 <= k < dst.Length && !(off1 <= k < off2 + len2) ==> dst[k] == old(dst[k])
  {
    var d := data[off1..off2 + len2];
    var left, right := src[off1..off2], src[off2..off2 + len2];
    assert d[..len1] == data[off1..off2] && d[len1..] == data[off2..off2 + len2];
    MergeArgsorted(d, len1, left, right);
    var run := MergeRuns(d, left, Shift(right, len1));
    WriteRun(dst, off1, run);
    assert dst[..][off1..off2 + len2] == run;
  }

  /** Pair j of the runs has been merged into buf. */
  ghost predicate PairMerged(buf: seq<int>, data: seq<int>, offs: seq<nat>, lens: seq<nat>, j: nat)
    requires 2 * j + 1 < |offs| == |lens|
  {
    RunSorted(buf, data, offs[2 * j], offs[2 * j] + lens[2 * j] + lens[2 * j + 1])
  }

  /**
   * One round of the merge pool, one task per pair of neighbouring runs (even-numbered
   * run with the odd-numbered one after it): each pair of runs of src is merged into dst.
   */
  method MergeRound(data: seq<int>, src: array<int>, dst: array<int>, offs: seq<nat>, lens: seq<nat>)
    requires src != dst && src.Length == |data| && dst.Length == |data|
    requires Runs(src[..], data, offs, lens)
    modifies dst
    ensures forall j :: 0 <= j < |lens| / 2 ==> PairMerged(dst[..], data, offs, lens, j)
  {
    var pairs := |lens| / 2;
    for j := 0 to pairs
      invariant forall i :: 0 <= i < j ==> PairMerged(dst[..], data, offs, lens, i)
    {
      ContiguousBound(offs, lens, |data|, 2 * j + 1);
      ghost var before := dst[..];
      MergePair(data, src, dst, offs[2 * j], lens[2 * j], offs[2 * j + 1], lens[2 * j + 1]);
      PairsKept(before, dst[..], data, offs, lens, j);
    }
  }

  /** Merging pair j touches no earlier pair, so the earlier pairs and pair j are all merged. */
  lemma PairsKept(before: seq<int>, after: seq<int>, data: seq<int>, offs: seq<nat>, lens: seq<nat>, j: nat)
    requires Contiguous(offs, lens, |data|) && 2 * j + 1 < |lens| && |after| == |before|
    requires forall i :: 0 <= i < j ==> PairMerged(before, data, offs, lens, i)
    requires RunSorted(after, data, offs[2 * j], offs[2 * j + 1] + lens[2 * j + 1])
    requires forall k :: 0 <= k < |after| && !(offs[2 * j] <= k < offs[2 * j + 1] + lens[2 * j + 1]) ==>
      after[k] == before[k]
    ensures forall i :: 0 <= i <= j ==> PairMerged(after, data, offs, lens, i)
  {
    forall i | 0 <= i < j
      ensures PairMerged(after, data, offs, lens, i)
    {
      assert PairMerged(before, data, offs, lens, i);
      ContiguousOrdered(offs, lens, |data|, 2 * i + 1, 2 * j);
      RunFrame(before, after, data, offs[2 * i], offs[2 * i] + lens[2 * i] + lens[2 * i + 1]);
    }
  }

  /** After a round over an even number of runs, the merged pairs are the runs of the next round. */
  lemma RoundRuns(buf: seq<int>, data: seq<int>, offs: seq<nat>, lens: seq<nat>)
    requires |buf| == |data| && Contiguous(offs, lens, |data|) && |lens| % 2 == 0
    requires forall j :: 0 <= j < |lens| / 2 ==> PairMerged(buf, data, offs, lens, j)
    ensures Runs(buf, data, Evens(offs), PairSums(lens))
  {
    RoundContiguous(offs, lens, |data|);
    PairsAreRuns(buf, data, offs, lens);
  }

  /** Every merged pair is a run of the next round. */
  lemma PairsAreRuns(buf: seq<int>, data: seq<int>, offs: seq<nat>, lens: seq<nat>)
    requires |offs| == |lens| && |lens| % 2 == 0
    requires forall j :: 0 <= j < |lens| / 2 ==> PairMerged(buf, data, offs, lens, j)
    ensures forall j :: 0 <= j < |PairSums(lens)| ==>
      RunSorted(buf, data, Evens(offs)[j], Evens(offs)[j] + PairSums(lens)[j])
  {
    forall j | 0 <= j < |PairSums(lens)|
      ensures RunSorted(buf, data, Evens(offs)[j], Evens(offs)[j] + PairSums(lens)[j])
    {
      PairIsRun(buf, data, offs, lens, j);
    }
  }

  /** Merged pair j is run j of the next round. */
  lemma PairIsRun(buf: seq<int>, data: seq<int>, offs: seq<nat>, lens: seq<nat>, j: nat)
    requires 2 * j + 1 < |offs| == |lens| && PairMerged(buf, data, offs, lens, j)
    ensures j < |Evens(offs)| && j < |PairSums(lens)|
    ensures RunSorted(buf, data, Evens(offs)[j], Evens(offs)[j] + PairSums(lens)[j])
  {
    var lo, hi := offs[2 * j], offs[2 * j] + lens[2 * j] + lens[2 * j + 1];
    assert Evens(offs)[j] == lo;
    assert Evens(offs)[j] + PairSums(lens)[j] == hi;
  }

  /** `sublengths`: the length of each chunk, in chunk order. */
  method ChunkLengths(chunks: seq<seq<int>>) returns (lens: seq<nat>)
    ensures |lens| == |chunks| && forall k :: 0 <= k < |chunks| ==> lens[k] == |chunks[k]|
  {
    lens := [];
    for k := 0 to |chunks|
      invariant |lens| == k && forall i :: 0 <= i < k ==> lens[i] == |chunks[i]|
    {
      lens := lens + [|chunks[k]|];
    }
  }

  /** `suboffsets`: the exclusive running sums of the chunk lengths, starting at 0. */
  method ExclusiveSums(lens: seq<nat>) returns (offs: seq<nat>)
    ensures |offs| == |lens| && (|lens| > 0 ==> offs[0] == 0)
    ensures forall k :: 0 <= k < |lens| - 1 ==> offs[k + 1] == offs[k] + lens[k]
  {
    if lens == [] {
      return [];
    }
    offs := [0];
    var total := lens[0];
    for k := 1 to |lens|
      invariant |offs| == k && offs[0] == 0 && total == offs[k - 1] + lens[k - 1]
      invariant forall i :: 0 <= i < k - 1 ==> offs[i + 1] == offs[i] + lens[i]
    {
      offs := offs + [total];
      total := total + lens[k];
    }
  }

  /**
   * The lengths of the `array_split` pieces and their exclusive running sums lay the
   * pieces end to end over data: piece k is the run of data at `offs[k]` of length `lens[k]`.
   */
  lemma {:induction false} PieceLayout(data: seq<int>, n: nat, offs: seq<nat>, lens: seq<nat>, k: nat)
    requires n > 0 && |offs| == |lens| == n && k < n
    requires forall i :: 0 <= i < n ==> lens[i] == |ArraySplit.Pieces(data, n)[i]|
    requires offs[0] == 0 && forall i :: 0 <= i < n - 1 ==> offs[i + 1] == offs[i] + lens[i]
    ensures offs[k] == ArraySplit.DivPoint(|data|, n, k)
    ensures offs[k] + lens[k] == ArraySplit.DivPoint(|data|, n, k + 1) <= |data|
    ensures ArraySplit.Pieces(data, n)[k] == data[offs[k]..offs[k] + lens[k]]
  {
    ArraySplit.PieceAt(data, n, k);
    if k > 0 {
      PieceLayout(data, n, offs, lens, k - 1);
    }
  }

  /**
   * The chunks of `array_split` with `nchunks` sections, `sublengths` and `suboffsets`: the chunks
   * laid end to end over data, chunk k being the run at `offs[k]` of length `lens[k]`.
   */
  method ChunkLayout(data: seq<int>, nchunks: nat) returns (chunks: seq<seq<int>>, offs: seq<nat>, lens: seq<nat>)
    requires nchunks > 0
    ensures |chunks| == nchunks == |lens| && Contiguous(offs, lens, |data|)
    ensures forall k :: 0 <= k < nchunks ==> offs[k] + lens[k] <= |data| && chunks[k] == data[offs[k]..offs[k] + lens[k]]
  {
    var split := ArraySplit.Split(data, nchunks);
    chunks := split.value;
    lens := ChunkLengths(chunks);
    offs := ExclusiveSums(lens);
    forall k | 0 <= k < nchunks
      ensures offs[k] + lens[k] <= |data| && chunks[k] == data[offs[k]..offs[k] + lens[k]]
    {
      PieceLayout(data, nchunks, offs, lens, k);
    }
    PieceLayout(data, nchunks, offs, lens, nchunks - 1);
    ArraySplit.DivPointBounds(|data|, nchunks, nchunks);
  }

  /**
   * The local stage: every chunk is argsorted into the matching slice of `arg1`
   * (each pool task argsorts one chunk and stores the result in place in its slice of `arg1`).
   */
  method SortChunks(data: seq<int>, chunks: seq<seq<int>>, offs: seq<nat>, lens: seq<nat>, arg1: array<int>)
    requires arg1.Length == |data| && Contiguous(offs, lens, |data|) && |chunks| == |lens|
    requires forall k :: 0 <= k < |lens| ==> offs[k] + lens[k] <= |data| && chunks[k] == data[offs[k]..offs[k] + lens[k]]
    modifies arg1
    ensures Runs(arg1[..], data, offs, lens)
  {
    for k := 0 to |chunks|
      invariant forall i :: 0 <= i < k ==> RunSorted(arg1[..], data, offs[i], offs[i] + lens[i])
    {
      ghost var before := arg1[..];
      var run := LocalArgsort(chunks[k]);
      WriteRun(arg1, offs[k], run);
      assert arg1[..][offs[k]..offs[k] + lens[k]] == run;
      RunsKept(before, arg1[..], data, offs, lens, k, chunks[k]);
    }
  }

  /** Writing chunk k's argsort touches no earlier chunk, so chunks 0 .. k are all sorted. */
  lemma RunsKept(before: seq<int>, after: seq<int>, data: seq<int>, offs: seq<nat>, lens: seq<nat>, k: nat, chunk: seq<int>)
    requires Contiguous(offs, lens, |data|) && k < |lens| && |after| == |before| == |data|
    requires offs[k] + lens[k] <= |data| && chunk == data[offs[k]..offs[k] + lens[k]]
    requires forall i :: 0 <= i < k ==> RunSorted(before, data, offs[i], offs[i] + lens[i])
    requires after[offs[k]..offs[k] + lens[k]] == LocalArgsort(chunk)
    requires forall j :: 0 <= j < |after| && !(offs[k] <= j < offs[k] + lens[k]) ==> after[j] == before[j]
    ensures forall i :: 0 <= i <= k ==> RunSorted(after, data, offs[i], offs[i] + lens[i])
  {
    EarlierRunsKept(before, after, data, offs, lens, k);
    SortedChunkRun(after, data, offs[k], offs[k] + lens[k], chunk);
    RunsExtend(after, data, offs, lens, k);
  }

  lemma RunsExtend(buf: seq<int>, data: seq<int>, offs: seq<nat>, lens: seq<nat>, k: nat)
    requires k < |offs| == |lens|
    requires forall i :: 0 <= i < k ==> RunSorted(buf, data, offs[i], offs[i] + lens[i])
    requires RunSorted(buf, data, offs[k], offs[k] + lens[k])
    ensures forall i :: 0 <= i <= k ==> RunSorted(buf, data, offs[i], offs[i] + lens[i])
  {
    forall i | 0 <= i <= k
      ensures RunSorted(buf, data, offs[i], offs[i] + lens[i])
    {
      if i == k {
        assert offs[i] == offs[k] && lens[i] == lens[k];
      }
    }
  }

  /** The slice holding a chunk's argsort is a sorted run. */
  lemma SortedChunkRun(buf: seq<int>, data: seq<int>, lo: nat, hi: nat, chunk: seq<int>)
    requires lo <= hi <= |data| == |buf| && chunk == data[lo..hi] && buf[lo..hi] == LocalArgsort(chunk)
    ensures RunSorted(buf, data, lo, hi)
  {
  }

  /** The runs before chunk k lie below its slice, so writing that slice leaves them sorted. */
  lemma EarlierRunsKept(before: seq<int>, after: seq<int>, data: seq<int>, offs: seq<nat>, lens: seq<nat>, k: nat)
    requires Contiguous(offs, lens, |data|) && k < |lens| && |after| == |before| == |data|
    requires forall i :: 0 <= i < k ==> RunSorted(before, data, offs[i], offs[i] + lens[i])
    requires forall j :: 0 <= j < |after| && !(offs[k] <= j < offs[k] + lens[k]) ==> after[j] == before[j]
    ensures forall i :: 0 <= i < k ==> RunSorted(after, data, offs[i], offs[i] + lens[i])
  {
    forall i | 0 <= i < k
      ensures RunSorted(after, data, offs[i], offs[i] + lens[i])
    {
      ContiguousOrdered(offs, lens, |data|, i, k);
      RunFrame(before, after, data, offs[i], offs[i] + lens[i]);
    }
  }

  /**
   * `argsort(data)` with `cpu` the processor count: a single processor sorts directly;
   * otherwise the chunked sort and merge rounds run until one run remains.  Either way the
   * result is a permutation of the positions of data that sorts its keys.
   */
  method Argsort(data: seq<int>, cpu: nat) returns (r: seq<int>)
    requires cpu <= Pow2(64)
    ensures Argsorted(r, data)
  {
    if cpu <= 1 {
      return LocalArgsort(data);
    }
    var nchunks := RoundToPowerOfTwo(cpu) * 4;
    ChunkCountPowerOfTwo(cpu);
    var arg1, offs, lens := ChunkArgsorts(data, nchunks);
    var arg2 := new int[|data|];
    r := MergeTree(data, arg1, arg2, offs, lens);
  }

  /** The first pool: `arg1` holds, chunk by chunk, the argsort of each chunk of data. */
  method ChunkArgsorts(data: seq<int>, nchunks: nat) returns (arg1: array<int>, offs: seq<nat>, lens: seq<nat>)
    requires nchunks > 0
    ensures fresh(arg1) && arg1.Length == |data|
    ensures |lens| == nchunks && Runs(arg1[..], data, offs, lens)
  {
    arg1 := new int[|data|];
    var chunks;
    chunks, offs, lens := ChunkLayout(data, nchunks);
    SortChunks(data, chunks, offs, lens, arg1);
  }

  /**
   * The merge loop: while more than one run is left, merge the runs pairwise from one
   * buffer into the other, swap the buffers, keep the even offsets and sum the length
   * pairs.  With a power-of-two run count every round halves it, and the one run left
   * is an argsort of all of data.
   */
  method MergeTree(data: seq<int>, arg1: array<int>, arg2: array<int>, offs: seq<nat>, lens: seq<nat>)
    returns (r: seq<int>)
    requires arg1 != arg2 && arg1.Length == |data| && arg2.Length == |data|
    requires IsPowerOfTwo(|lens|) && Runs(arg1[..], data, offs, lens)
    modifies arg1, arg2
    ensures Argsorted(r, data)
  {
    var src, dst, offsets, lengths := arg1, arg2, offs, lens;
    while |lengths| > 1
      invariant {src, dst} == {arg1, arg2} && src != dst
      invariant src.Length == |data| && dst.Length == |data|
      invariant IsPowerOfTwo(|lengths|) && Runs(src[..], data, offsets, lengths)
      decreases |lengths|
    {
      offsets, lengths := MergeStep(data, src, dst, offsets, lengths);
      src, dst := dst, src;
    }
    SingleRun(src[..], data, offsets, lengths);
    r := src[..];
  }

  /**
   * One round before the buffer swap: merge the run pairs of src into dst; the next offsets
   * are `suboffsets[::2]` and the next lengths the pair sums, half as many runs.
   */
  method MergeStep(data: seq<int>, src: array<int>, dst: array<int>, offs: seq<nat>, lens: seq<nat>)
    returns (offs': seq<nat>, lens': seq<nat>)
    requires src != dst && src.Length == |data| && dst.Length == |data|
    requires IsPowerOfTwo(|lens|) && |lens| > 1 && Runs(src[..], data, offs, lens)
    modifies dst
    ensures offs' == Evens(offs) && lens' == PairSums(lens)
    ensures IsPowerOfTwo(|lens'|) && |lens'| < |lens| && Runs(dst[..], data, offs', lens')
  {
    MergeRound(data, src, dst, offs, lens);
    Halving(|lens|);
    RoundRuns(dst[..], data, offs, lens);
    offs', lens' := Evens(offs), PairSums(lens);
    assert |lens'| == |lens| / 2;
  }

  /** The one run left covers all of data, so the buffer is an argsort of data. */
  lemma SingleRun(buf: seq<int>, data: seq<int>, offs: seq<nat>, lens: seq<nat>)
    requires |lens| == 1 && Runs(buf, data, offs, lens)
    ensures Argsorted(buf, data)
  {
    assert RunSorted(buf, data, offs[0], offs[0] + lens[0]);
    assert buf[0..|data|] == buf && data[0..|data|] == data;
  }
}

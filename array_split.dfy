/**
 * `array_split` (src/__init__.py) with an integer section count: cut a sequence into
 * `sections` contiguous pieces whose sizes differ by at most one, the larger pieces
 * first.  The array is modelled as the sequence of its slices along the split axis.
 */
module ArraySplit {
  import opened Wrappers

  datatype SplitError = ValueError(message: string)

  function Min(a: nat, b: nat): (m: nat) {
    if a <= b then a else b
  }

  /** Size of section k: `divmod(total, n)` gives q and extras; the first extras sections get q + 1. */
  function SectionSize(total: nat, n: nat, k: nat): (size: nat)
    requires n > 0
  {
    if k < total % n then total / n + 1 else total / n
  }

  /** `div_points[k]`: the running sum of the first k section sizes (a leading 0, then `cumsum`). */
  function DivPoint(total: nat, n: nat, k: nat): (p: nat)
    requires n > 0
  {
    if k == 0 then 0 else DivPoint(total, n, k - 1) + SectionSize(total, n, k - 1)
  }

  /** Closed form of the running sum: k whole shares plus one extra for each of the first extras sections. */
  lemma {:induction false} DivPointClosed(total: nat, n: nat, k: nat)
    requires n > 0
    ensures DivPoint(total, n, k) == k * (total / n) + Min(k, total % n)
  {
    if k > 0 {
      DivPointClosed(total, n, k - 1);
      assert k * (total / n) == (k - 1) * (total / n) + total / n;
    }
  }

  /** Division points never decrease and the last one is the total length. */
  lemma DivPointBounds(total: nat, n: nat, k: nat)
    requires n > 0 && k <= n
    ensures DivPoint(total, n, k) <= total
    ensures k < n ==> DivPoint(total, n, k) <= DivPoint(total, n, k + 1)
    ensures DivPoint(total, n, n) == total
  {
    var q, r := total / n, total % n;
    assert DivPoint(total, n, n) == total by {
      DivPointClosed(total, n, n);
      assert Min(n, r) == r;
      DivMod(total, n);
    }
    assert DivPoint(total, n, k) <= total by {
      DivPointClosed(total, n, k);
      MulMonotone(k, n, q);
      DivMod(total, n);
    }
    assert k < n ==> DivPoint(total, n, k) <= DivPoint(total, n, k + 1) by {
      if k < n {
        assert DivPoint(total, n, k + 1) == DivPoint(total, n, k) + SectionSize(total, n, k);
      }
    }
  }

  lemma DivMod(a: nat, n: nat)
    requires n > 0
    ensures n * (a / n) + a % n == a
  {
  }

  lemma MulMonotone(a: nat, b: nat, c: nat)
    requires a <= b
    ensures a * c <= b * c
  {}

  /** Piece k of `n` sections: the slice between two consecutive division points. */
  function Piece<T>(ary: seq<T>, n: nat, k: nat): (s: seq<T>)
    requires 0 <= k < n
  {
    DivPointBounds(|ary|, n, k);
    DivPointBounds(|ary|, n, k + 1);
    ary[DivPoint(|ary|, n, k)..DivPoint(|ary|, n, k + 1)]
  }

  /** The list `array_split(ary, n)` returns for a positive integer n. */
  function Pieces<T>(ary: seq<T>, n: nat): (ps: seq<seq<T>>)
    requires n > 0
    ensures |ps| == n
  {
    seq(n, k requires 0 <= k < n => Piece(ary, n, k))
  }

  /** Concatenation of a list of sequences, in order. */
  function Flatten<T>(ss: seq<seq<T>>): (flat: seq<T>) {
    if ss == [] then [] else Flatten(ss[..|ss| - 1]) + ss[|ss| - 1]
  }

  /**
   * `array_split(ary, sections)`: ValueError when the section count is not positive,
   * otherwise the pieces between the cumulative division points.
   */
  method Split<T>(ary: seq<T>, sections: int) returns (r: Result<seq<seq<T>>, SplitError>)
    ensures r.Err? <==> sections <= 0
    ensures r.Err? ==> r.error == ValueError("number sections must be larger than 0.")
    ensures r.Ok? ==> r.value == Pieces(ary, sections)
  {
    if sections <= 0 {
      return Err(ValueError("number sections must be larger than 0."));
    }
    var divPoints := ComputeDivPoints(|ary|, sections);
    var subArys := SliceAll(ary, sections, divPoints);
    return Ok(subArys);
  }

  /** The list of section sizes with a leading 0, then its running sum. */
  method ComputeDivPoints(total: nat, n: nat) returns (divPoints: seq<nat>)
    requires n > 0
    ensures |divPoints| == n + 1
    ensures forall j :: 0 <= j <= n ==> divPoints[j] == DivPoint(total, n, j)
  {
    divPoints := [0];
    var k := 0;
    while k < n
      invariant 0 <= k <= n && |divPoints| == k + 1
      invariant forall j :: 0 <= j <= k ==> divPoints[j] == DivPoint(total, n, j)
    {
      NextDivPoint(divPoints, total, n, k);
      divPoints := divPoints + [divPoints[k] + SectionSize(total, n, k)];
      k := k + 1;
    }
  }

  lemma NextDivPoint(points: seq<nat>, total: nat, n: nat, k: nat)
    requires n > 0 && |points| == k + 1
    requires forall j :: 0 <= j <= k ==> points[j] == DivPoint(total, n, j)
    ensures forall j :: 0 <= j <= k + 1 ==>
      (points + [points[k] + SectionSize(total, n, k)])[j] == DivPoint(total, n, j)
  {
    var next := points + [points[k] + SectionSize(total, n, k)];
    forall j | 0 <= j <= k + 1
      ensures next[j] == DivPoint(total, n, j)
    {
      if j <= k {
        assert next[j] == points[j];
      }
    }
  }

  /** The loop that appends, for each section i, the slice between division points i and i + 1. */
  method SliceAll<T>(ary: seq<T>, n: nat, divPoints: seq<nat>) returns (subArys: seq<seq<T>>)
    requires n > 0 && |divPoints| == n + 1
    requires forall j :: 0 <= j <= n ==> divPoints[j] == DivPoint(|ary|, n, j)
    ensures subArys == Pieces(ary, n)
  {
    subArys := [];
    var i := 0;
    while i < n
      invariant 0 <= i <= n && |subArys| == i
      invariant forall j :: 0 <= j < i ==> subArys[j] == Piece(ary, n, j)
    {
      NextPiece(subArys, ary, n, i, divPoints[i], divPoints[i + 1]);
      subArys := subArys + [ary[divPoints[i]..divPoints[i + 1]]];
      i := i + 1;
    }
  }

  lemma NextPiece<T>(done: seq<seq<T>>, ary: seq<T>, n: nat, i: nat, lo: nat, hi: nat)
    requires i < n && |done| == i
    requires lo == DivPoint(|ary|, n, i) && hi == DivPoint(|ary|, n, i + 1)
    requires forall j :: 0 <= j < i ==> done[j] == Piece(ary, n, j)
    ensures lo <= hi <= |ary|
    ensures forall j :: 0 <= j < i + 1 ==> (done + [ary[lo..hi]])[j] == Piece(ary, n, j)
  {
    DivPointBounds(|ary|, n, i);
    DivPointBounds(|ary|, n, i + 1);
    var next := done + [ary[lo..hi]];
    forall j | 0 <= j < i + 1
      ensures next[j] == Piece(ary, n, j)
    {
      if j < i {
        assert next[j] == done[j];
      } else {
        assert next[j] == ary[lo..hi];
      }
    }
  }

  /** There are n pieces; the first `total % n` hold `total / n + 1` elements, the rest `total / n`. */
  lemma PieceSizes<T>(ary: seq<T>, n: nat, k: nat)
    requires 0 <= k < n
    ensures |Pieces(ary, n)| == n
    ensures |Pieces(ary, n)[k]| == if k < |ary| % n then |ary| / n + 1 else |ary| / n
  {
    DivPointBounds(|ary|, n, k);
    DivPointBounds(|ary|, n, k + 1);
  }

  /** The first k pieces, concatenated, are the prefix of ary up to division point k. */
  lemma {:induction false} PiecesPrefix<T>(ary: seq<T>, n: nat, k: nat)
    requires 0 < n && k <= n
    ensures DivPoint(|ary|, n, k) <= |ary|
    ensures Flatten(Pieces(ary, n)[..k]) == ary[..DivPoint(|ary|, n, k)]
  {
    if k > 0 {
      PiecesPrefix(ary, n, k - 1);
      PieceAt(ary, n, k - 1);
      FlattenSnoc(Pieces(ary, n), k);
      SliceJoin(ary, DivPoint(|ary|, n, k - 1), DivPoint(|ary|, n, k));
    }
  }

  lemma PieceAt<T>(ary: seq<T>, n: nat, k: nat)
    requires k < n
    ensures DivPoint(|ary|, n, k) <= DivPoint(|ary|, n, k + 1) <= |ary|
    ensures Pieces(ary, n)[k] == ary[DivPoint(|ary|, n, k)..DivPoint(|ary|, n, k + 1)]
  {
    DivPointBounds(|ary|, n, k);
    DivPointBounds(|ary|, n, k + 1);
  }

  lemma FlattenSnoc<T>(ss: seq<seq<T>>, k: nat)
    requires 0 < k <= |ss|
    ensures Flatten(ss[..k]) == Flatten(ss[..k - 1]) + ss[k - 1]
  {
    assert ss[..k][..k - 1] == ss[..k - 1];
  }

  lemma SliceJoin<T>(s: seq<T>, a: nat, b: nat)
    requires a <= b <= |s|
    ensures s[..a] + s[a..b] == s[..b]
  {
  }

  /** Concatenating the pieces in order gives back the input: nothing dropped, nothing repeated. */
  lemma PiecesConcat<T>(ary: seq<T>, n: nat)
    requires n > 0
    ensures Flatten(Pieces(ary, n)) == ary
  {
    PiecesPrefix(ary, n, n);
    DivPointBounds(|ary|, n, n);
    assert Pieces(ary, n)[..n] == Pieces(ary, n);
  }
}

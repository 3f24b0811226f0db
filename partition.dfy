/**
 * The argument partitioner: module-level `split`, `Pool.split` and `Pool.zipsplit`
 * (src/__init__.py).  Every argument is either broadcast (a tuple or a scalar, handed
 * unchanged to every chunk) or sliceable (cut with `array_split` along its first axis).
 * The infinite `repeat(item)` of a broadcast argument is modelled as the item repeated
 * once per chunk, and `zip` as a transpose that stops at the shortest input.
 */
module Partition {
  import opened Wrappers
  import ArraySplit

  /** One argument, after the tuple-or-scalar test. */
  datatype Arg<V> = Broadcast(value: V) | Sliceable(rows: seq<V>)

  /** What one chunk holds for one argument. */
  datatype Piece<V> = Whole(value: V) | Part(rows: seq<V>)

  datatype Error = ValueError(message: string) | IndexError

  const LengthMismatch := "elements to chop off are of different lenghts"
  const NoSections := "number sections must be larger than 0."

  /**
   * The source runs under Python 2, where dividing a numpy integer by an int floors
   * the quotient, and dividing by zero yields 0 (with a runtime warning, not an error).
   */
  function FloorDiv(a: int, b: int): (q: int)
    ensures b > 0 ==> q * b <= a < q * b + b
    ensures b < 0 ==> q * b + b < a <= q * b
    ensures b == 0 ==> q == 0
    ensures b > 0 && a >= 0 ==> q >= 0
  {
    if b == 0 then 0 else if b > 0 then a / b else (-a) / (-b)
  }

  /**
   * Chunk count: `nchunks` if given; otherwise `L / chunksize` with 0 raised to 1
   * when a chunk size is given; otherwise twice the CPU count.
   */
  function ChunkCount(len: nat, nchunks: Option<int>, chunksize: Option<int>, cpus: int): (n: int)
    ensures nchunks.Some? ==> n == nchunks.value
    ensures nchunks.None? && chunksize.None? ==> n == 2 * cpus
    ensures nchunks.None? && chunksize.Some? && chunksize.value > 0 ==> n >= 1
    ensures nchunks.None? && chunksize == Some(0) ==> n == 1
  {
    match nchunks
    case Some(n) => n
    case None =>
      match chunksize
      case None => cpus * 2
      case Some(c) => var q := FloorDiv(len, c); if q == 0 then 1 else q
  }

  /**
   * With only a positive chunk size c, a length below c gives one chunk; otherwise the
   * count is the number of whole chunks of size c that fit into the length.
   */
  lemma ChunkCountBySize(len: nat, c: int, cpus: int)
    requires c > 0
    ensures len < c ==> ChunkCount(len, None, Some(c), cpus) == 1
    ensures len >= c ==> var n := ChunkCount(len, None, Some(c), cpus);
      n * c <= len < (n + 1) * c
  {
    var q := FloorDiv(len, c);
    if q == 0 {
      assert len < c;
    } else {
      assert q >= 1;
    }
  }

  /** The lengths of the sliceable arguments, in argument order (the array `L`). */
  function Lengths<V>(args: seq<Arg<V>>): (lens: seq<nat>)
    ensures |lens| <= |args|
  {
    if args == [] then []
    else
      var last := args[|args| - 1];
      Lengths(args[..|args| - 1]) + if last.Sliceable? then [|last.rows|] else []
  }

  /** `numpy.diff(L).any()` is false: no two neighbouring lengths differ. */
  predicate NoDiff(lens: seq<nat>) {
    forall i :: 1 <= i < |lens| ==> lens[i - 1] == lens[i]
  }

  /** The chunks of one argument: n copies of a broadcast value, or the n pieces of `array_split`. */
  function Chunks<V>(arg: Arg<V>, n: nat): (cs: seq<Piece<V>>)
    requires n > 0
    ensures |cs| == n
  {
    match arg
    case Broadcast(v) => seq(n, k => Whole(v))
    case Sliceable(rows) =>
      var ps := ArraySplit.Pieces(rows, n);
      seq(n, k requires 0 <= k < n => Part(ps[k]))
  }

  /** The outcome of `split(list, nchunks, chunksize)`, stated declaratively. */
  function Expected<V>(args: seq<Arg<V>>, nchunks: Option<int>, chunksize: Option<int>, cpus: int)
    : (r: Result<seq<seq<Piece<V>>>, Error>)
    ensures r == Err(ValueError(LengthMismatch)) <==> !NoDiff(Lengths(args))
    ensures r == Err(IndexError) <==> NoDiff(Lengths(args)) && Lengths(args) == []
    ensures r.Ok? ==> |r.value| == |args| > 0 && forall a :: 0 <= a < |args| ==> |r.value[a]| == |r.value[0]| > 0
    ensures r.Ok? ==> Lengths(args) != [] && |r.value[0]| == ChunkCount(Lengths(args)[0], nchunks, chunksize, cpus)
  {
    var lens := Lengths(args);
    if !NoDiff(lens) then Err(ValueError(LengthMismatch))
    else if lens == [] then Err(IndexError)
    else
      var n := ChunkCount(lens[0], nchunks, chunksize, cpus);
      if n <= 0 then Err(ValueError(NoSections))
      else Ok(seq(|args|, a requires 0 <= a < |args| => Chunks(args[a], n)))
  }

  /**
   * Module-level `split`: collect the sliceable lengths, reject differing lengths,
   * take `L[0]` (an IndexError when nothing is sliceable), derive the chunk count,
   * then repeat or cut each argument in turn.
   */
  method Split<V>(args: seq<Arg<V>>, nchunks: Option<int>, chunksize: Option<int>, cpus: int)
    returns (r: Result<seq<seq<Piece<V>>>, Error>)
    ensures r == Expected(args, nchunks, chunksize, cpus)
  {
    var lens := SliceableLengths(args);
    var same := NoDiffCheck(lens);
    if !same {
      return Err(ValueError(LengthMismatch));
    }
    if lens == [] {
      return Err(IndexError);
    }
    LengthsFromSliceable(args, 0);
    var len := lens[0];
    var n: int;
    if nchunks.Some? {
      n := nchunks.value;
    } else if chunksize.None? {
      n := cpus * 2;
    } else {
      n := FloorDiv(len, chunksize.value);
      if n == 0 {
        n := 1;
      }
    }
    r := ChunkEach(args, n);
  }

  /** The loop that builds `newlist`, keeping the length of each sliceable argument. */
  method SliceableLengths<V>(args: seq<Arg<V>>) returns (lens: seq<nat>)
    ensures lens == Lengths(args)
  {
    lens := [];
    var i := 0;
    while i < |args|
      invariant 0 <= i <= |args| && lens == Lengths(args[..i])
    {
      assert args[..i + 1][..i] == args[..i];
      if args[i].Sliceable? {
        lens := lens + [|args[i].rows|];
      }
      i := i + 1;
    }
    assert args[..|args|] == args;
  }

  /** The no-difference test on `L`, as a scan over neighbouring lengths. */
  method NoDiffCheck(lens: seq<nat>) returns (same: bool)
    ensures same == NoDiff(lens)
  {
    var j := 1;
    while j < |lens|
      invariant 1 <= j && (j <= |lens| || lens == [])
      invariant forall k :: 1 <= k < j && k < |lens| ==> lens[k - 1] == lens[k]
    {
      if lens[j - 1] != lens[j] {
        return false;
      }
      j := j + 1;
    }
    return true;
  }

  /**
   * The result loop: `repeat(item)` for a broadcast argument, `array_split(item, n)`
   * for a sliceable one, whose ValueError ends the call when n is not positive.
   */
  method ChunkEach<V>(args: seq<Arg<V>>, n: int) returns (r: Result<seq<seq<Piece<V>>>, Error>)
    requires exists b :: 0 <= b < |args| && args[b].Sliceable?
    ensures n <= 0 ==> r == Err(ValueError(NoSections))
    ensures n > 0 ==> r == Ok(seq(|args|, b requires 0 <= b < |args| => Chunks(args[b], n)))
  {
    var result: seq<seq<Piece<V>>> := [];
    var a := 0;
    while a < |args|
      invariant 0 <= a <= |args| && |result| == a
      invariant n > 0 ==> forall b :: 0 <= b < a ==> result[b] == Chunks(args[b], n)
      invariant n <= 0 ==> forall b :: 0 <= b < a ==> args[b].Broadcast?
    {
      match args[a] {
        case Broadcast(v) =>
          if n > 0 {
            result := result + [Chunks(args[a], n)];
          } else {
            result := result + [[]];
          }
        case Sliceable(rows) =>
          var pieces := ArraySplit.Split(rows, n);
          if pieces.Err? {
            return Err(ValueError(pieces.error.message));
          }
          result := result + [seq(n, k requires 0 <= k < n => Part(pieces.value[k]))];
      }
      a := a + 1;
    }
    if n <= 0 {
      assert false;
    }
    assert result == seq(|args|, b requires 0 <= b < |args| => Chunks(args[b], n));
    return Ok(result);
  }

  /** The chunk count `Pool.split` hands on: the worker count when neither is given. */
  function PoolChunks(np: int, nchunks: Option<int>, chunksize: Option<int>): (n: Option<int>)
    ensures nchunks.None? && chunksize.None? ==> n == Some(np)
    ensures nchunks.Some? || chunksize.Some? ==> n == nchunks
  {
    if nchunks.None? && chunksize.None? then Some(np) else nchunks
  }

  /** `Pool.split`: with neither a chunk count nor a chunk size, one chunk per worker. */
  method PoolSplit<V>(np: int, args: seq<Arg<V>>, nchunks: Option<int>, chunksize: Option<int>)
    returns (r: Result<seq<seq<Piece<V>>>, Error>)
    ensures forall cpus :: r == Expected(args, PoolChunks(np, nchunks, chunksize), chunksize, cpus)
  {
    var n := nchunks;
    if nchunks.None? && chunksize.None? {
      n := Some(np);
    }
    // split() reads cpu_count() only when both are missing, which cannot happen here.
    r := Split(args, n, chunksize, np);
    forall cpus
      ensures r == Expected(args, PoolChunks(np, nchunks, chunksize), chunksize, cpus)
    {
      CpusUnused(args, n, chunksize, np, cpus);
    }
  }

  /** `zip(*columns)`: tuple k holds entry k of every column, as many tuples as the shortest column. */
  function Zip<X>(columns: seq<seq<X>>): (tuples: seq<seq<X>>)
    ensures columns == [] ==> tuples == []
    ensures forall a :: 0 <= a < |columns| ==> |tuples| <= |columns[a]|
    ensures columns != [] ==> exists a :: 0 <= a < |columns| && |tuples| == |columns[a]|
    ensures forall k :: 0 <= k < |tuples| ==> |tuples[k]| == |columns|
    ensures forall k, a :: 0 <= k < |tuples| && 0 <= a < |columns| ==> tuples[k][a] == columns[a][k]
  {
    if columns == [] then []
    else
      var m := Shortest(columns);
      seq(m, k requires 0 <= k < m => seq(|columns|, a requires 0 <= a < |columns| => columns[a][k]))
  }

  /** The length of the shortest of a non-empty list of sequences. */
  function Shortest<X>(columns: seq<seq<X>>): (m: nat)
    requires columns != []
    ensures forall a :: 0 <= a < |columns| ==> m <= |columns[a]|
    ensures exists a :: 0 <= a < |columns| && m == |columns[a]|
  {
    if |columns| == 1 then |columns[0]|
    else
      var rest := Shortest(columns[1..]);
      assert forall a :: 1 <= a < |columns| ==> columns[a] == columns[1..][a - 1];
      if |columns[0]| <= rest then |columns[0]| else rest
  }

  /** Zip applied to a successful split, an error passed through. */
  function Zipped<V>(e: Result<seq<seq<Piece<V>>>, Error>): (z: Result<seq<seq<Piece<V>>>, Error>) {
    match e
    case Ok(columns) => Ok(Zip(columns))
    case Err(error) => Err(error)
  }

  /** `Pool.zipsplit`: the chunks of `Pool.split` regrouped per chunk, ready for `starmap`. */
  method PoolZipSplit<V>(np: int, args: seq<Arg<V>>, nchunks: Option<int>, chunksize: Option<int>)
    returns (r: Result<seq<seq<Piece<V>>>, Error>)
    ensures forall cpus :: r == Zipped(Expected(args, PoolChunks(np, nchunks, chunksize), chunksize, cpus))
  {
    var columns := PoolSplit(np, args, nchunks, chunksize);
    if columns.Err? {
      return Err(columns.error);
    }
    return Ok(Zip(columns.value));
  }

  /**
   * After a successful split, zip loses nothing: there is one tuple per chunk, and tuple k
   * holds chunk k of every argument in argument order.
   */
  lemma ZipSplitTuples<V>(args: seq<Arg<V>>, nchunks: Option<int>, chunksize: Option<int>, cpus: int,
                          res: seq<seq<Piece<V>>>)
    requires Expected(args, nchunks, chunksize, cpus) == Ok(res)
    ensures |res| == |args| > 0
    ensures forall a :: 0 <= a < |args| ==> |Zip(res)| == |res[a]|
    ensures forall k, a :: 0 <= k < |Zip(res)| && 0 <= a < |args| ==> Zip(res)[k][a] == res[a][k]
  {
    SplitChunks(args, nchunks, chunksize, cpus, res, 0);
    forall a | 0 <= a < |args|
      ensures |res[a]| == |res[0]|
    {
      SplitChunks(args, nchunks, chunksize, cpus, res, a);
    }
    var z := Zip(res);
    var b :| 0 <= b < |res| && |z| == |res[b]|;
  }

  /** Every entry of `L` is the length of some sliceable argument. */
  lemma {:induction false} LengthsFromSliceable<V>(args: seq<Arg<V>>, i: nat)
    requires i < |Lengths(args)|
    ensures exists b :: 0 <= b < |args| && args[b].Sliceable? && |args[b].rows| == Lengths(args)[i]
  {
    var init := args[..|args| - 1];
    if i < |Lengths(init)| {
      LengthsFromSliceable(init, i);
      var b :| 0 <= b < |init| && init[b].Sliceable? && |init[b].rows| == Lengths(init)[i];
      assert args[b] == init[b];
    } else {
      assert args[|args| - 1].Sliceable?;
    }
  }

  /** The length of every sliceable argument appears in `L`. */
  lemma {:induction false} SliceableInLengths<V>(args: seq<Arg<V>>, b: nat)
    requires b < |args| && args[b].Sliceable?
    ensures exists i :: 0 <= i < |Lengths(args)| && Lengths(args)[i] == |args[b].rows|
  {
    var init := args[..|args| - 1];
    if b < |init| {
      SliceableInLengths(init, b);
      var i :| 0 <= i < |Lengths(init)| && Lengths(init)[i] == |init[b].rows|;
      assert Lengths(args)[i] == Lengths(init)[i];
    } else {
      assert Lengths(args)[|Lengths(args)| - 1] == |args[b].rows|;
    }
  }

  /** No neighbouring difference means every length equals the first. */
  lemma {:induction false} NoDiffFirst(lens: seq<nat>, i: nat)
    requires NoDiff(lens) && i < |lens|
    ensures lens[i] == lens[0]
  {
    if i > 0 {
      NoDiffFirst(lens, i - 1);
    }
  }

  /** `numpy.diff(L).any()` is false exactly when all lengths are equal. */
  lemma NoDiffAllEqual(lens: seq<nat>)
    ensures NoDiff(lens) <==> forall i, j :: 0 <= i < |lens| && 0 <= j < |lens| ==> lens[i] == lens[j]
  {
    if NoDiff(lens) {
      forall i, j | 0 <= i < |lens| && 0 <= j < |lens|
        ensures lens[i] == lens[j]
      {
        NoDiffFirst(lens, i);
        NoDiffFirst(lens, j);
      }
    }
  }

  /** All sliceable arguments of length len: then `L` holds nothing but len. */
  lemma AllLengthsEqual<V>(args: seq<Arg<V>>, len: nat)
    requires forall b :: 0 <= b < |args| && args[b].Sliceable? ==> |args[b].rows| == len
    ensures forall i :: 0 <= i < |Lengths(args)| ==> Lengths(args)[i] == len
  {
    forall i | 0 <= i < |Lengths(args)|
      ensures Lengths(args)[i] == len
    {
      LengthsFromSliceable(args, i);
    }
  }

  /**
   * The error cases of `split`: sliceable arguments of different lengths give ValueError;
   * with none sliceable, `L[0]` gives IndexError; when all share one length, the only
   * remaining error is a chunk count that is not positive.
   */
  lemma SplitErrors<V>(args: seq<Arg<V>>, nchunks: Option<int>, chunksize: Option<int>, cpus: int)
    ensures (exists a, b :: 0 <= a < |args| && 0 <= b < |args| && args[a].Sliceable? && args[b].Sliceable?
               && |args[a].rows| != |args[b].rows|)
            ==> Expected(args, nchunks, chunksize, cpus) == Err(ValueError(LengthMismatch))
    ensures (forall a :: 0 <= a < |args| ==> args[a].Broadcast?)
            ==> Expected(args, nchunks, chunksize, cpus) == Err(IndexError)
    ensures forall len: nat ::
              (forall b :: 0 <= b < |args| && args[b].Sliceable? ==> |args[b].rows| == len) &&
              (exists b :: 0 <= b < |args| && args[b].Sliceable?)
              ==> (Expected(args, nchunks, chunksize, cpus).Ok? <==> ChunkCount(len, nchunks, chunksize, cpus) > 0)
  {
    MismatchError(args, nchunks, chunksize, cpus);
    if forall a :: 0 <= a < |args| ==> args[a].Broadcast? {
      NoneSliceable(args, nchunks, chunksize, cpus);
    }
    forall len: nat |
      (forall b :: 0 <= b < |args| && args[b].Sliceable? ==> |args[b].rows| == len) &&
      (exists b :: 0 <= b < |args| && args[b].Sliceable?)
      ensures Expected(args, nchunks, chunksize, cpus).Ok? <==> ChunkCount(len, nchunks, chunksize, cpus) > 0
    {
      AgreedLength(args, nchunks, chunksize, cpus, len);
    }
  }

  lemma MismatchError<V>(args: seq<Arg<V>>, nchunks: Option<int>, chunksize: Option<int>, cpus: int)
    ensures (exists a, b :: 0 <= a < |args| && 0 <= b < |args| && args[a].Sliceable? && args[b].Sliceable?
               && |args[a].rows| != |args[b].rows|)
            ==> Expected(args, nchunks, chunksize, cpus) == Err(ValueError(LengthMismatch))
  {
    if exists a, b :: 0 <= a < |args| && 0 <= b < |args| && args[a].Sliceable? && args[b].Sliceable?
               && |args[a].rows| != |args[b].rows| {
      var a, b :| 0 <= a < |args| && 0 <= b < |args| && args[a].Sliceable? && args[b].Sliceable?
               && |args[a].rows| != |args[b].rows|;
      NoDiffAllEqual(Lengths(args));
      SliceableInLengths(args, a);
      SliceableInLengths(args, b);
    }
  }

  lemma NoneSliceable<V>(args: seq<Arg<V>>, nchunks: Option<int>, chunksize: Option<int>, cpus: int)
    requires forall a :: 0 <= a < |args| ==> args[a].Broadcast?
    ensures Expected(args, nchunks, chunksize, cpus) == Err(IndexError)
  {
    if Lengths(args) != [] {
      LengthsFromSliceable(args, 0);
    }
  }

  lemma AgreedLength<V>(args: seq<Arg<V>>, nchunks: Option<int>, chunksize: Option<int>, cpus: int, len: nat)
    requires forall b :: 0 <= b < |args| && args[b].Sliceable? ==> |args[b].rows| == len
    requires exists b :: 0 <= b < |args| && args[b].Sliceable?
    ensures Expected(args, nchunks, chunksize, cpus).Ok? <==> ChunkCount(len, nchunks, chunksize, cpus) > 0
  {
    NoDiffAllEqual(Lengths(args));
    AllLengthsEqual(args, len);
    var b :| 0 <= b < |args| && args[b].Sliceable?;
    SliceableInLengths(args, b);
  }

  /**
   * A successful `split` gives every argument the same number n > 0 of chunks, n being the
   * chunk count derived from the shared length `L[0]`; a broadcast
   * argument is the same value in every chunk; a sliceable argument is cut into n parts
   * of balanced sizes which, concatenated in order, give back its rows.
   */
  lemma SplitChunks<V>(args: seq<Arg<V>>, nchunks: Option<int>, chunksize: Option<int>, cpus: int,
                       res: seq<seq<Piece<V>>>, a: nat)
    requires Expected(args, nchunks, chunksize, cpus) == Ok(res) && a < |args|
    ensures |res| == |args| && |res[a]| == |res[0]| > 0
    ensures Lengths(args) != [] && |res[a]| == ChunkCount(Lengths(args)[0], nchunks, chunksize, cpus)
    ensures args[a].Broadcast? ==> forall k :: 0 <= k < |res[a]| ==> res[a][k] == Whole(args[a].value)
    ensures args[a].Sliceable? ==> forall k :: 0 <= k < |res[a]| ==>
      res[a][k].Part? &&
      |res[a][k].rows| == (if k < |args[a].rows| % |res[a]| then |args[a].rows| / |res[a]| + 1 else |args[a].rows| / |res[a]|)
    ensures args[a].Sliceable? ==>
      ArraySplit.Flatten(seq(|res[a]|, k requires 0 <= k < |res[a]| => res[a][k].rows)) == args[a].rows
  {
    var n := |res[a]|;
    assert res[a] == Chunks(args[a], n);
    if args[a].Sliceable? {
      var rows := args[a].rows;
      forall k | 0 <= k < n
        ensures res[a][k].Part? &&
          |res[a][k].rows| == (if k < |rows| % n then |rows| / n + 1 else |rows| / n)
      {
        ArraySplit.PieceSizes(rows, n, k);
      }
      ArraySplit.PiecesConcat(rows, n);
      assert seq(n, k requires 0 <= k < n => res[a][k].rows) == ArraySplit.Pieces(rows, n);
    }
  }

  /** The CPU count is consulted only when neither a chunk count nor a chunk size is given. */
  lemma CpusUnused<V>(args: seq<Arg<V>>, nchunks: Option<int>, chunksize: Option<int>, c1: int, c2: int)
    requires nchunks.Some? || chunksize.Some?
    ensures Expected(args, nchunks, chunksize, c1) == Expected(args, nchunks, chunksize, c2)
  {}
}

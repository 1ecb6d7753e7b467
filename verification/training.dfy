/** The data handling of the handwriting trainer: the in-place shuffle that
    applies one permutation to a group of arrays, the one-hot label and pixel
    feature encodings of a collected drawing, and the slicing of the
    collected drawings into alternating training and validation batches.
    The network itself is not modelled. */
module Training {
  import opened Results
  import opened Shuffles
  import Store

  // ---------------------------------------------------------------------
  // `shuffle(arrays)`
  // ---------------------------------------------------------------------

  /** Every array is at least as long as the first, whose length bounds the loop. */
  predicate LongEnough<T>(arrays: seq<seq<T>>)
  {
    forall k :: 0 <= k < |arrays| ==> |arrays[0]| <= |arrays[k]|
  }

  /** The inner loop: positions `i` and `j` exchanged in every array. */
  function SwapAll<T(==)>(arrays: seq<seq<T>>, i: nat, j: nat): (r: seq<seq<T>>)
    requires forall k :: 0 <= k < |arrays| ==> i < |arrays[k]| && j < |arrays[k]|
    ensures |r| == |arrays|
    ensures forall k :: 0 <= k < |arrays| ==> r[k] == Swap(arrays[k], i, j)
  {
    seq(|arrays|, k requires 0 <= k < |arrays| => Swap(arrays[k], i, j))
  }

  /** The outer loop from `i = top` down to `1`, one draw per step, swapping
      in all arrays at once. */
  function GroupShuffleDown<T(==)>(arrays: seq<seq<T>>, top: nat, draws: seq<real>): (r: seq<seq<T>>)
    requires forall k :: 0 <= k < |arrays| ==> top < |arrays[k]| || top == 0
    requires |draws| == top
    requires forall t :: 0 <= t < |draws| ==> IsUnitDraw(draws[t])
    ensures |r| == |arrays|
    decreases top
  {
    if top == 0 then arrays
    else GroupShuffleDown(SwapAll(arrays, top, SwapIndex(draws[0], top)), top - 1, draws[1..])
  }

  /** Interleaving the arrays changes nothing: each array ends up as if it
      had been shuffled alone with the same draws. */
  lemma {:induction false} GroupShuffleIsPerArray<T>(arrays: seq<seq<T>>, top: nat, draws: seq<real>)
    requires forall k :: 0 <= k < |arrays| ==> top < |arrays[k]| || top == 0
    requires |draws| == top
    requires forall t :: 0 <= t < |draws| ==> IsUnitDraw(draws[t])
    ensures forall k :: 0 <= k < |arrays| ==>
      GroupShuffleDown(arrays, top, draws)[k] == ShuffleDown(arrays[k], top, draws)
    decreases top
  {
    if top > 0 {
      var next := SwapAll(arrays, top, SwapIndex(draws[0], top));
      GroupShuffleIsPerArray(next, top - 1, draws[1..]);
    }
  }

  /** `shuffle(arrays)`. Reading `arrays[0].length` of an empty group throws. */
  function Shuffle<T(==)>(arrays: seq<seq<T>>, draws: seq<real>): (r: Result<seq<seq<T>>>)
    requires LongEnough(arrays)
    requires |arrays| > 0 ==> ValidDraws(draws, |arrays[0]|)
    ensures r.Err? <==> |arrays| == 0
    ensures r.Ok? ==> |r.value| == |arrays|
    ensures r.Ok? ==> forall k :: 0 <= k < |arrays| ==>
      r.value[k] == Durstenfeld(arrays[k], |arrays[0]|, draws)
  {
    if |arrays| == 0 then Err("Cannot read properties of undefined (reading 'length')")
    else
      var l := |arrays[0]|;
      if l == 0 then Ok(arrays)
      else
        GroupShuffleIsPerArray(arrays, l - 1, draws);
        Ok(GroupShuffleDown(arrays, l - 1, draws))
  }

  /** The shuffle moves the entry at position `RandomIndices(l, draws)[m]` of
      EVERY array to position `m`, where `l` is the length of the first array;
      positions from `l` on stay put. So each array is a rearrangement of
      itself, and entries that stood side by side in two arrays still do. */
  lemma ShuffleSharesPermutation<T>(arrays: seq<seq<T>>, draws: seq<real>)
    requires |arrays| > 0 && LongEnough(arrays)
    requires ValidDraws(draws, |arrays[0]|)
    ensures Shuffle(arrays, draws).Ok?
    ensures forall k :: 0 <= k < |arrays| ==>
      |Shuffle(arrays, draws).value[k]| == |arrays[k]|
      && multiset(Shuffle(arrays, draws).value[k]) == multiset(arrays[k])
    ensures forall k, m :: 0 <= k < |arrays| && 0 <= m < |arrays[0]| ==>
      Shuffle(arrays, draws).value[k][m] == arrays[k][RandomIndices(|arrays[0]|, draws)[m]]
    ensures forall k, m :: 0 <= k < |arrays| && |arrays[0]| <= m < |arrays[k]| ==>
      Shuffle(arrays, draws).value[k][m] == arrays[k][m]
  {
    var l := |arrays[0]|;
    var r := Shuffle(arrays, draws).value;
    forall k | 0 <= k < |arrays|
      ensures |r[k]| == |arrays[k]| && multiset(r[k]) == multiset(arrays[k])
      ensures forall m :: 0 <= m < l ==> r[k][m] == arrays[k][RandomIndices(l, draws)[m]]
      ensures forall m :: l <= m < |arrays[k]| ==> r[k][m] == arrays[k][m]
    {
      SharedPermutation(arrays[k], l, draws);
      if l > 0 {
        ShuffleMultiset(arrays[k], l - 1, draws);
      }
    }
  }

  /** Any relation between the entries at the same position of two arrays of
      the group holds after the shuffle if it held before. */
  lemma ShuffleKeepsAlignment<T>(arrays: seq<seq<T>>, draws: seq<real>, a: nat, b: nat, related: (T, T) -> bool)
    requires |arrays| > 0 && LongEnough(arrays)
    requires ValidDraws(draws, |arrays[0]|)
    requires a < |arrays| && b < |arrays|
    requires forall m :: 0 <= m < |arrays[0]| ==> related(arrays[a][m], arrays[b][m])
    ensures forall m :: 0 <= m < |arrays[0]| ==>
      related(Shuffle(arrays, draws).value[a][m], Shuffle(arrays, draws).value[b][m])
  {
    ShuffleSharesPermutation(arrays, draws);
    var l := |arrays[0]|;
    var p := RandomIndices(l, draws);
    forall m | 0 <= m < l
      ensures related(Shuffle(arrays, draws).value[a][m], Shuffle(arrays, draws).value[b][m])
    {
      assert p[m] < l;
      assert related(arrays[a][p[m]], arrays[b][p[m]]);
    }
  }

  /** The inner loop of `shuffle`: `[a[i], a[j]] = [a[j], a[i]]` for each array `a`. */
  method SwapInEvery<T(==)>(arrays: seq<seq<T>>, i: nat, j: nat) returns (next: seq<seq<T>>)
    requires forall k :: 0 <= k < |arrays| ==> i < |arrays[k]| && j < |arrays[k]|
    ensures next == SwapAll(arrays, i, j)
  {
    next := arrays;
    var k := 0;
    while k < |arrays|
      invariant 0 <= k <= |arrays| && |next| == |arrays|
      invariant forall q :: 0 <= q < k ==> next[q] == Swap(arrays[q], i, j)
      invariant forall q :: k <= q < |arrays| ==> next[q] == arrays[q]
    {
      var a := next[k];
      next := next[k := a[i := a[j]][j := a[i]]];
      k := k + 1;
    }
  }

  /** One step of the outer loop of `shuffle`: draw `j` and swap positions
      `i` and `j` in every array. What is left of the shuffle afterwards is
      what was left before, one step shorter. */
  method ShuffleStep<T(==)>(cur: seq<seq<T>>, i: nat, rest: seq<real>, ghost l: nat) returns (next: seq<seq<T>>)
    requires 0 < i < l && |rest| == i
    requires forall t :: 0 <= t < |rest| ==> IsUnitDraw(rest[t])
    requires forall k :: 0 <= k < |cur| ==> l <= |cur[k]|
    ensures |next| == |cur|
    ensures forall k :: 0 <= k < |next| ==> l <= |next[k]|
    ensures GroupShuffleDown(next, i - 1, rest[1..]) == GroupShuffleDown(cur, i, rest)
  {
    var j := SwapIndex(rest[0], i);
    next := SwapInEvery(cur, i, j);
  }

  /** The outer loop of `shuffle`, from `i = top` down to `1`. */
  method ShuffleLoop<T(==)>(arrays: seq<seq<T>>, top: nat, draws: seq<real>, ghost l: nat) returns (cur: seq<seq<T>>)
    requires top < l && |draws| == top
    requires forall t :: 0 <= t < |draws| ==> IsUnitDraw(draws[t])
    requires forall k :: 0 <= k < |arrays| ==> l <= |arrays[k]|
    ensures cur == GroupShuffleDown(arrays, top, draws)
  {
    cur := arrays;
    var i := top;
    var rest := draws;
    ghost var target := GroupShuffleDown(arrays, top, draws);
    while i > 0
      invariant i <= top && |rest| == i
      invariant forall t :: 0 <= t < |rest| ==> IsUnitDraw(rest[t])
      invariant forall k :: 0 <= k < |cur| ==> l <= |cur[k]|
      invariant GroupShuffleDown(cur, i, rest) == target
      decreases i
    {
      cur := ShuffleStep(cur, i, rest, l);
      rest := rest[1..];
      i := i - 1;
    }
    assert GroupShuffleDown(cur, 0, rest) == cur;
  }

  /** The loops of `shuffle`, swapping in place. */
  method ShuffleArrays<T(==)>(arrays: seq<seq<T>>, draws: seq<real>) returns (r: Result<seq<seq<T>>>)
    requires LongEnough(arrays)
    requires |arrays| > 0 ==> ValidDraws(draws, |arrays[0]|)
    ensures r == Shuffle(arrays, draws)
  {
    if |arrays| == 0 {
      return Err("Cannot read properties of undefined (reading 'length')");
    }
    var l := |arrays[0]|;
    if l == 0 {
      return Ok(arrays);
    }
    var cur := ShuffleLoop(arrays, l - 1, draws, l);
    return Ok(cur);
  }

  // ---------------------------------------------------------------------
  // `storeDataToOneHotLabel`
  // ---------------------------------------------------------------------

  const TypesOfCharacters: nat := 10

  /** `storeDataToOneHotLabel`: ten zeros with a one at the drawn digit. */
  function OneHot(digit: int): (v: seq<int>)
    requires 0 <= digit < TypesOfCharacters
    ensures |v| == TypesOfCharacters
    ensures v[digit] == 1
    ensures forall i :: 0 <= i < |v| && i != digit ==> v[i] == 0
  {
    seq(TypesOfCharacters, i requires 0 <= i < TypesOfCharacters => if i == digit then 1 else 0)
  }

  /** Position of the first `x` in `v`, or `|v|` if there is none. */
  function FirstIndexOf(v: seq<int>, x: int): (i: nat)
    ensures i <= |v|
    ensures i < |v| ==> v[i] == x
    ensures forall j :: 0 <= j < i ==> v[j] != x
  {
    if |v| == 0 then 0
    else if v[0] == x then 0
    else 1 + FirstIndexOf(v[1..], x)
  }

  function Sum(v: seq<int>): int
  {
    if |v| == 0 then 0 else v[0] + Sum(v[1..])
  }

  lemma {:induction false} SumZeros(v: seq<int>)
    requires forall i :: 0 <= i < |v| ==> v[i] == 0
    ensures Sum(v) == 0
  {
    if |v| > 0 {
      SumZeros(v[1..]);
    }
  }

  /** A sequence that is zero except for a single one sums to one. */
  lemma {:induction false} SumIndicator(v: seq<int>, d: nat)
    requires d < |v| && v[d] == 1
    requires forall i :: 0 <= i < |v| && i != d ==> v[i] == 0
    ensures Sum(v) == 1
  {
    if d == 0 {
      SumZeros(v[1..]);
    } else {
      SumIndicator(v[1..], d - 1);
    }
  }

  /** The label is a probability vector that puts all weight on the drawn
      digit, and the digit is recovered as the position of its one. */
  lemma OneHotDecodes(digit: int)
    requires 0 <= digit < TypesOfCharacters
    ensures FirstIndexOf(OneHot(digit), 1) == digit
    ensures Sum(OneHot(digit)) == 1
  {
    SumIndicator(OneHot(digit), digit);
  }

  // ---------------------------------------------------------------------
  // `storeDataToFeature`
  // ---------------------------------------------------------------------

  /** The RGBA buffer of a canvas holds four channels per pixel. */
  predicate WellFormed(img: Store.ImageData)
  {
    |img.data| == 4 * img.width * img.height
  }

  /** `(dx + dy * width) * 4`: the offset of the first channel of pixel `(dx, dy)`. */
  function PixelIndex(width: nat, dx: nat, dy: nat): nat
  {
    (dx + dy * width) * 4
  }

  /** All four channels of every pixel lie inside the buffer. */
  lemma PixelIndexInBounds(width: nat, height: nat, dx: nat, dy: nat)
    requires dx < width && dy < height
    ensures PixelIndex(width, dx, dy) + 3 < 4 * width * height
  {
    assert (height - 1 - dy) * width >= 0;
    assert dy * width <= (height - 1) * width;
    assert dx + dy * width <= width * height - 1;
  }

  lemma AllPixelsInBounds(width: nat, height: nat)
    ensures forall dy, dx :: 0 <= dy < height && 0 <= dx < width ==>
      PixelIndex(width, dx, dy) < 4 * width * height
  {
    forall dy, dx | 0 <= dy < height && 0 <= dx < width
      ensures PixelIndex(width, dx, dy) < 4 * width * height
    {
      PixelIndexInBounds(width, height, dx, dy);
    }
  }

  lemma DivModUnique(a: int, m: int, q: int, r: int)
    requires m > 0 && 0 <= r < m
    requires a == q * m + r
    ensures a / m == q && a % m == r
  {
    var d := q - a / m;
    assert d * m == a % m - r;
  }

  /** Distinct pixels read distinct channels: the offset determines the
      pixel, and every first-channel offset in the buffer belongs to one. */
  lemma PixelIndexDecodes(width: nat, height: nat, i: nat)
    requires width > 0
    requires i < 4 * width * height && i % 4 == 0
    ensures i / 4 % width < width && i / 4 / width < height
    ensures PixelIndex(width, i / 4 % width, i / 4 / width) == i
  {
    var p := i / 4;
    assert i == 4 * p;
    var dx, dy := p % width, p / width;
    assert p == dy * width + dx;
  }

  lemma PixelIndexInjective(width: nat, dx: nat, dy: nat, dx': nat, dy': nat)
    requires dx < width && dx' < width
    requires PixelIndex(width, dx, dy) == PixelIndex(width, dx', dy')
    ensures dx == dx' && dy == dy'
  {
    var p := dx + dy * width;
    DivModUnique(p, width, dy, dx);
    DivModUnique(p, width, dy', dx');
  }

  /** `storeDataToFeature`: `height` rows of `width` one-element cells,
      each the first channel of its pixel scaled to the unit interval. */
  function Feature(img: Store.ImageData): (f: seq<seq<seq<real>>>)
    requires WellFormed(img)
    ensures |f| == img.height
    ensures forall dy :: 0 <= dy < img.height ==> |f[dy]| == img.width
    ensures forall dy, dx :: 0 <= dy < img.height && 0 <= dx < img.width ==>
      PixelIndex(img.width, dx, dy) < |img.data|
      && f[dy][dx] == [img.data[PixelIndex(img.width, dx, dy)] as real / 255.0]
  {
    AllPixelsInBounds(img.width, img.height);
    seq(img.height, dy requires 0 <= dy < img.height =>
      seq(img.width, dx requires 0 <= dx < img.width =>
        [img.data[PixelIndex(img.width, dx, dy)] as real / 255.0]))
  }

  /** The loops of `storeDataToFeature`. */
  method StoreDataToFeature(img: Store.ImageData) returns (feature: seq<seq<seq<real>>>)
    requires WellFormed(img)
    ensures feature == Feature(img)
  {
    AllPixelsInBounds(img.width, img.height);
    var f := Feature(img);
    feature := [];
    var dy := 0;
    while dy < img.height
      invariant 0 <= dy <= img.height
      invariant feature == f[..dy]
    {
      var row: seq<seq<real>> := [];
      var dx := 0;
      while dx < img.width
        invariant 0 <= dx <= img.width
        invariant row == f[dy][..dx]
      {
        var index := (dx + dy * img.width) * 4;
        assert index == PixelIndex(img.width, dx, dy);
        PixelIndexInBounds(img.width, img.height, dx, dy);
        row := row + [[img.data[index] as real / 255.0]];
        dx := dx + 1;
      }
      assert row == f[dy];
      assert f[..dy + 1] == f[..dy] + [f[dy]];
      feature := feature + [row];
      dy := dy + 1;
    }
  }

  /** Canvas channels are bytes, so every feature value lies in [0, 1]. */
  lemma FeatureInUnitRange(img: Store.ImageData)
    requires WellFormed(img)
    requires forall i :: 0 <= i < |img.data| ==> 0 <= img.data[i] <= 255
    ensures forall dy, dx :: 0 <= dy < img.height && 0 <= dx < img.width ==>
      0.0 <= Feature(img)[dy][dx][0] <= 1.0
  {
  }

  /** Only the first channel is read: images that agree there have the same
      feature, whatever their green, blue and alpha channels hold. */
  lemma FeatureReadsFirstChannel(img: Store.ImageData, img': Store.ImageData)
    requires WellFormed(img) && WellFormed(img')
    requires img.width == img'.width && img.height == img'.height
    requires forall i :: 0 <= i < |img.data| && i % 4 == 0 ==> img.data[i] == img'.data[i]
    ensures Feature(img) == Feature(img')
  {
    var f, f' := Feature(img), Feature(img');
    forall dy | 0 <= dy < img.height
      ensures f[dy] == f'[dy]
    {
      forall dx | 0 <= dx < img.width
        ensures f[dy][dx] == f'[dy][dx]
      {
        var i := PixelIndex(img.width, dx, dy);
        assert i % 4 == 0;
      }
    }
  }

  // ---------------------------------------------------------------------
  // Batch slicing in the training loop
  // ---------------------------------------------------------------------

  const BatchSize: nat := 10

  /** `Math.floor(data.length / BATCH_SIZE / 2)`, on reals as the source
      computes it: the number of whole training-plus-validation pairs. */
  function Iterations(len: nat): (n: nat)
    ensures n == len / (2 * BatchSize)
  {
    var x := (len as real / BatchSize as real) / 2.0;
    var q := len / (2 * BatchSize);
    assert x == len as real / 20.0;
    assert len == 20 * q + len % 20;
    assert q as real <= x < (q + 1) as real;
    x.Floor
  }

  /** Position `p` is in training batch `i`: `[2iB, 2iB + B)`. */
  predicate InTraining(i: nat, p: nat)
  {
    2 * i * BatchSize <= p < 2 * i * BatchSize + BatchSize
  }

  /** Position `p` is in validation batch `i`: `[2iB + B, 2iB + 2B)`. */
  predicate InValidation(i: nat, p: nat)
  {
    2 * i * BatchSize + BatchSize <= p < 2 * i * BatchSize + 2 * BatchSize
  }

  /** The slices lie within the data and never share a position: no drawing
      is both trained on and validated against, nor used in two batches. */
  lemma BatchSlicesDisjoint(len: nat, i: nat, i': nat, p: nat)
    requires i < Iterations(len) && i' < Iterations(len)
    ensures InTraining(i, p) || InValidation(i, p) ==> p < len
    ensures !(InTraining(i, p) && InValidation(i', p))
    ensures InTraining(i, p) && InTraining(i', p) ==> i == i'
    ensures InValidation(i, p) && InValidation(i', p) ==> i == i'
  {
    assert 20 * Iterations(len) <= len;
  }

  /** `data.slice(2iB, 2iB + B)`. */
  function TrainingBatch<T>(data: seq<T>, i: nat): (b: seq<T>)
    requires i < Iterations(|data|)
    ensures |b| == BatchSize
    ensures forall m :: 0 <= m < BatchSize ==> b[m] == data[2 * i * BatchSize + m]
  {
    data[2 * i * BatchSize .. 2 * i * BatchSize + BatchSize]
  }

  /** `data.slice(2iB + B, 2iB + 2B)`. */
  function ValidationBatch<T>(data: seq<T>, i: nat): (b: seq<T>)
    requires i < Iterations(|data|)
    ensures |b| == BatchSize
    ensures forall m :: 0 <= m < BatchSize ==> b[m] == data[2 * i * BatchSize + BatchSize + m]
  {
    data[2 * i * BatchSize + BatchSize .. 2 * i * BatchSize + 2 * BatchSize]
  }

  /** `xsArray`: the training batches in order. */
  function TrainingBatches<T>(data: seq<T>): (bs: seq<seq<T>>)
    ensures |bs| == Iterations(|data|)
    ensures forall i :: 0 <= i < |bs| ==> bs[i] == TrainingBatch(data, i)
  {
    seq(Iterations(|data|), i requires 0 <= i < Iterations(|data|) => TrainingBatch(data, i))
  }

  /** `acc.concat(v)` folded over `batches` from the left. */
  function Flatten<T>(batches: seq<seq<T>>): seq<T>
  {
    if |batches| == 0 then [] else Flatten(batches[..|batches| - 1]) + batches[|batches| - 1]
  }

  /** `xv`: the first `n` validation batches, concatenated. */
  function Validation<T>(data: seq<T>, n: nat): (v: seq<T>)
    requires n <= Iterations(|data|)
    ensures |v| == n * BatchSize
  {
    if n == 0 then [] else Validation(data, n - 1) + ValidationBatch(data, n - 1)
  }

  /** The collection loop of the training function. */
  method CollectBatches<T>(data: seq<T>) returns (xsArray: seq<seq<T>>, xv: seq<T>)
    ensures xsArray == TrainingBatches(data)
    ensures xv == Validation(data, Iterations(|data|))
  {
    var iterations := Iterations(|data|);
    xsArray := [];
    xv := [];
    var i := 0;
    while i < iterations
      invariant 0 <= i <= iterations
      invariant xsArray == TrainingBatches(data)[..i]
      invariant xv == Validation(data, i)
    {
      var xsStartIndex := 2 * i * BatchSize;
      var xsEndIndex := xsStartIndex + BatchSize;
      var xvStartIndex := xsEndIndex;
      var xvEndIndex := xsEndIndex + BatchSize;
      xsArray := xsArray + [data[xsStartIndex..xsEndIndex]];
      xv := xv + data[xvStartIndex..xvEndIndex];
      i := i + 1;
    }
  }

  /** The first `n` training batches together with the first `n` validation
      batches are exactly the first `2nB` drawings: nothing is duplicated and
      nothing in that prefix is skipped. */
  lemma {:induction false} BatchesPartitionPrefix<T>(data: seq<T>, n: nat)
    requires n <= Iterations(|data|)
    ensures 2 * n * BatchSize <= |data|
    ensures multiset(Flatten(TrainingBatches(data)[..n])) + multiset(Validation(data, n))
      == multiset(data[..2 * n * BatchSize])
  {
    assert 20 * Iterations(|data|) <= |data|;
    if n > 0 {
      BatchesPartitionPrefix(data, n - 1);
      var bs := TrainingBatches(data);
      var before := Flatten(bs[..n - 1]);
      var train := TrainingBatch(data, n - 1);
      var valid := ValidationBatch(data, n - 1);
      FlattenPrefix(bs, n);
      PairSplits(data, n - 1);
      MultisetOfParts(before, train, Validation(data, n - 1), valid, data[..2 * (n - 1) * BatchSize]);
    }
  }

  lemma FlattenPrefix<T>(bs: seq<seq<T>>, n: nat)
    requires 0 < n <= |bs|
    ensures Flatten(bs[..n]) == Flatten(bs[..n - 1]) + bs[n - 1]
  {
    assert bs[..n][..n - 1] == bs[..n - 1];
  }

  /** The `2(i + 1)B`-prefix is the `2iB`-prefix followed by training batch
      `i` and validation batch `i`. */
  lemma PairSplits<T>(data: seq<T>, i: nat)
    requires i < Iterations(|data|)
    ensures data[..2 * (i + 1) * BatchSize]
      == data[..2 * i * BatchSize] + TrainingBatch(data, i) + ValidationBatch(data, i)
  {
    assert 20 * Iterations(|data|) <= |data|;
  }

  lemma MultisetOfParts<T>(before: seq<T>, train: seq<T>, prior: seq<T>, valid: seq<T>, prefix: seq<T>)
    requires multiset(before) + multiset(prior) == multiset(prefix)
    ensures multiset(before + train) + multiset(prior + valid) == multiset(prefix + train + valid)
  {
  }

  /** Batches of equal size `B` are found again in their concatenation at
      offsets `0, B, 2B, ...` - the slices the epoch loop takes. */
  lemma {:induction false} FlattenSlices<T>(batches: seq<seq<T>>, i: nat)
    requires forall k :: 0 <= k < |batches| ==> |batches[k]| == BatchSize
    requires i < |batches|
    ensures |Flatten(batches)| == |batches| * BatchSize
    ensures Flatten(batches)[i * BatchSize .. i * BatchSize + BatchSize] == batches[i]
    decreases |batches|
  {
    var init := batches[..|batches| - 1];
    if i < |batches| - 1 {
      FlattenSlices(init, i);
      assert Flatten(batches) == Flatten(init) + batches[|batches| - 1];
    } else if |batches| > 1 {
      FlattenSlices(init, 0);
      assert Flatten(batches) == Flatten(init) + batches[|batches| - 1];
    } else {
      assert init == [];
      assert Flatten(batches) == [] + batches[0];
    }
  }

  /** Every batch of the list holds `B` entries. */
  predicate FullBatches<T>(batches: seq<seq<T>>)
  {
    forall k :: 0 <= k < |batches| ==> |batches[k]| == BatchSize
  }

  /** `shuffle([xsArray])` rearranges the list of batches and leaves each
      batch whole, so the next epoch again starts from full batches. */
  lemma EpochKeepsBatches<T>(batches: seq<seq<T>>, draws: seq<real>)
    requires FullBatches(batches) && ValidDraws(draws, |batches|)
    ensures Shuffle([batches], draws).Ok?
    ensures var shuffled := Shuffle([batches], draws).value[0];
      |shuffled| == |batches| && FullBatches(shuffled) && multiset(shuffled) == multiset(batches)
  {
    ShuffleSharesPermutation([batches], draws);
    var shuffled := Shuffle([batches], draws).value[0];
    var p := RandomIndices(|batches|, draws);
    forall k | 0 <= k < |batches|
      ensures |shuffled[k]| == BatchSize
    {
      assert shuffled[k] == batches[p[k]] && p[k] < |batches|;
    }
  }

  /** The order of `xsArray` after one `shuffle([xsArray])` per entry of
      `epochDraws`, the first epoch first. */
  function Epochs<T(==)>(batches: seq<seq<T>>, epochDraws: seq<seq<real>>): (r: seq<seq<T>>)
    requires FullBatches(batches)
    requires forall e :: 0 <= e < |epochDraws| ==> ValidDraws(epochDraws[e], |batches|)
    ensures |r| == |batches| && FullBatches(r) && multiset(r) == multiset(batches)
    decreases |epochDraws|
  {
    if |epochDraws| == 0 then batches
    else
      var before := Epochs(batches, epochDraws[..|epochDraws| - 1]);
      EpochKeepsBatches(before, epochDraws[|epochDraws| - 1]);
      Shuffle([before], epochDraws[|epochDraws| - 1]).value[0]
  }

  /** One epoch on any list of full batches: after `shuffle([xsArray])`, the
      `i`-th slice of the concatenation is the batch the shuffle moved to
      position `i`. */
  lemma EpochBatch<T>(batches: seq<seq<T>>, draws: seq<real>, i: nat)
    requires FullBatches(batches) && ValidDraws(draws, |batches|)
    requires i < |batches|
    ensures var xs := Flatten(Shuffle([batches], draws).value[0]);
      |xs| == |batches| * BatchSize
      && xs[i * BatchSize .. i * BatchSize + BatchSize] == batches[RandomIndices(|batches|, draws)[i]]
  {
    ShuffleSharesPermutation([batches], draws);
    EpochKeepsBatches(batches, draws);
    FlattenSlices(Shuffle([batches], draws).value[0], i);
  }

  /** In epoch `e` of the loop, slice `i` of `xs` is the batch at position
      `RandomIndices(n, draws)[i]` of the order the earlier epochs left, and
      that is always one of the training batches. */
  lemma EpochsBatch<T>(data: seq<T>, epochDraws: seq<seq<real>>, e: nat, i: nat)
    requires forall e' :: 0 <= e' < |epochDraws| ==> ValidDraws(epochDraws[e'], Iterations(|data|))
    requires e < |epochDraws| && i < Iterations(|data|)
    ensures var before := Epochs(TrainingBatches(data), epochDraws[..e]);
      var xs := Flatten(Epochs(TrainingBatches(data), epochDraws[..e + 1]));
      && |xs| == Iterations(|data|) * BatchSize
      && xs[i * BatchSize .. i * BatchSize + BatchSize]
        == before[RandomIndices(Iterations(|data|), epochDraws[e])[i]]
      && (exists j :: 0 <= j < Iterations(|data|) &&
            xs[i * BatchSize .. i * BatchSize + BatchSize] == TrainingBatch(data, j))
  {
    var batches := TrainingBatches(data);
    var n := Iterations(|data|);
    var ds := epochDraws[..e + 1];
    assert ds[..e] == epochDraws[..e];
    var before := Epochs(batches, epochDraws[..e]);
    EpochBatch(before, epochDraws[e], i);
    var p := RandomIndices(n, epochDraws[e]);
    var slice := before[p[i]];
    assert slice in multiset(before);
    assert slice in batches;
    var j :| 0 <= j < n && batches[j] == slice;
    assert slice == TrainingBatch(data, j);
  }

  // ---------------------------------------------------------------------
  // Pairing features with labels
  // ---------------------------------------------------------------------

  /** An entry of `xsBatch` or `ysBatch`; the source mixes both in one
      untyped group of arrays. */
  datatype Sample = Pixels(feature: seq<seq<seq<real>>>) | OneHotLabel(oneHot: seq<int>)

  /** Every drawing of `batch` can be encoded: a well-formed canvas and a digit. */
  predicate Encodable(batch: seq<Store.StoreData>)
  {
    forall m :: 0 <= m < |batch| ==> WellFormed(batch[m].image) && 0 <= batch[m].digit < TypesOfCharacters
  }

  /** `xs.map(storeDataToFeature)`. */
  function Features(batch: seq<Store.StoreData>): (xs: seq<Sample>)
    requires Encodable(batch)
    ensures |xs| == |batch|
    ensures forall m :: 0 <= m < |batch| ==> xs[m] == Pixels(Feature(batch[m].image))
  {
    seq(|batch|, m requires 0 <= m < |batch| => Pixels(Feature(batch[m].image)))
  }

  /** `xs.map(storeDataToOneHotLabel)`. */
  function Labels(batch: seq<Store.StoreData>): (ys: seq<Sample>)
    requires Encodable(batch)
    ensures |ys| == |batch|
    ensures forall m :: 0 <= m < |batch| ==> ys[m] == OneHotLabel(OneHot(batch[m].digit))
  {
    seq(|batch|, m requires 0 <= m < |batch| => OneHotLabel(OneHot(batch[m].digit)))
  }

  /** `shuffle([xsBatch, ysBatch])` before `model.fit`: after the shuffle the
      `m`-th feature and the `m`-th label still come from the same drawing. */
  lemma FitBatchAligned(batch: seq<Store.StoreData>, draws: seq<real>)
    requires Encodable(batch)
    requires ValidDraws(draws, |batch|)
    ensures Shuffle([Features(batch), Labels(batch)], draws).Ok?
    ensures forall m :: 0 <= m < |batch| ==>
      var q := RandomIndices(|batch|, draws)[m];
      && Shuffle([Features(batch), Labels(batch)], draws).value[0][m] == Pixels(Feature(batch[q].image))
      && Shuffle([Features(batch), Labels(batch)], draws).value[1][m] == OneHotLabel(OneHot(batch[q].digit))
  {
    var group := [Features(batch), Labels(batch)];
    ShuffleSharesPermutation(group, draws);
    var p := RandomIndices(|batch|, draws);
    forall m | 0 <= m < |batch|
      ensures p[m] < |batch|
    {
    }
  }
}

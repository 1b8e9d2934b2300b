/// `copy_resize_image` of main.cpp: the per-tile resample driver (`worker`) and the
/// sequential form of its dispatch.  The SSE blend `bilerp_bgra` and its reads of
/// the four source corners are the `kernel` parameter: it receives the source index
/// of the top-left corner and the two weights the driver passes, and yields a pixel.
module Resize {
  import opened Stepper
  import opened Dispatch
  import opened Image

  /// The arguments of one blend: the flattened source index of the top-left corner
  /// (the other corners are at +1, +w1 and +w1+1) and the row and column weights.
  datatype Sample = Sample(corner: nat, tab: real, t12: real)

  /// The closed-form sample for destination index `k` of an image `w2` wide: its
  /// column and row are mapped through `Translate` with the axis ratios.
  function SampleAt(k: nat, w1: nat, w2: nat, xratio: real, yratio: real): (s: Sample)
    requires w2 > 0 && xratio >= 0.0 && yratio >= 0.0
    ensures 0.0 <= s.tab < 1.0 && 0.0 <= s.t12 < 1.0
  {
    var ys := Translate(k / w2, yratio);
    var xs := Translate(k % w2, xratio);
    Sample(Index(xs.integral, ys.integral, w1), ys.fractional, xs.fractional)
  }

  /// The indices `offset, offset + 1, ..., offset + count - 1`, in that order.
  function Run(offset: nat, count: nat): (r: seq<nat>)
  {
    seq(count, i => offset + i)
  }

  /// The driver's loop state at destination index `idxDst`: `x` is that index's
  /// column (`idxDst % w2`) and `row` its row; the row stepper `(ys, yt)` and the
  /// column stepper `(xs, xt)` hold the closed forms of that row and column; and
  /// `idxSrc` is the flattened source index of `(xs, ys)`.  The column integral
  /// `xs` is not a variable of the driver, which keeps it folded into `idxSrc`.
  ghost predicate Positioned(idxDst: nat, x: nat, row: nat, ys: nat, yt: real, xs: nat, xt: real,
                             idxSrc: nat, w1: nat, w2: nat, xratio: real, yratio: real)
  {
    xratio >= 0.0 && yratio >= 0.0 &&
    x < w2 && idxDst == Index(x, row, w2) && x == idxDst % w2 &&
    Split(ys, yt) == Translate(row, yratio) &&
    Split(xs, xt) == Translate(x, xratio) &&
    idxSrc == Index(xs, ys, w1)
  }

  /// The driver's seed: the column and row of `offset`, mapped in closed form.
  lemma PositionedAtSeed(offset: nat, w1: nat, w2: nat, xratio: real, yratio: real)
    requires w2 > 0 && xratio >= 0.0 && yratio >= 0.0
    ensures var ySeed, xSeed := Translate(offset / w2, yratio), Translate(offset % w2, xratio);
            Positioned(offset, offset % w2, offset / w2, ySeed.integral, ySeed.fractional,
                       xSeed.integral, xSeed.fractional, ySeed.integral * w1 + xSeed.integral,
                       w1, w2, xratio, yratio)
  {
    IndexDecompose(offset, w2);
  }

  /// At a positioned index the driver's blend arguments are the closed-form sample.
  lemma PositionedSample(idxDst: nat, x: nat, row: nat, ys: nat, yt: real, xs: nat, xt: real,
                         idxSrc: nat, w1: nat, w2: nat, xratio: real, yratio: real)
    requires Positioned(idxDst, x, row, ys, yt, xs, xt, idxSrc, w1, w2, xratio, yratio)
    ensures SampleAt(idxDst, w1, w2, xratio, yratio) == Sample(idxSrc, yt, xt)
  {
    IndexInverse(x, row, w2);
  }

  /// Inside a row: carrying the column stepper through the source index positions
  /// the driver at the next destination index.
  lemma PositionedNextColumn(idxDst: nat, x: nat, row: nat, ys: nat, yt: real, xs: nat, xt: real,
                             idxSrc: nat, w1: nat, w2: nat, xratio: real, yratio: real, column: Split)
    requires Positioned(idxDst, x, row, ys, yt, xs, xt, idxSrc, w1, w2, xratio, yratio)
    requires Normal(column) && column.integral >= idxSrc
    requires Value(column) == Value(Split(idxSrc, xt)) + xratio
    requires x + 1 < w2
    ensures Positioned(idxDst + 1, x + 1, row, ys, yt, xs + (column.integral - idxSrc), column.fractional,
                       column.integral, w1, w2, xratio, yratio)
  {
    SteppingMatchesTranslate(x, xratio, Split(xs + (column.integral - idxSrc), column.fractional));
    IndexInverse(x + 1, row, w2);
  }

  /// At the end of a row: the column restarts at 0 and the row stepper, carried
  /// once, positions the driver at the first index of the next row.
  lemma PositionedNextRow(idxDst: nat, x: nat, row: nat, ys: nat, yt: real, xs: nat, xt: real,
                          idxSrc: nat, w1: nat, w2: nat, xratio: real, yratio: real, rowSplit: Split)
    requires Positioned(idxDst, x, row, ys, yt, xs, xt, idxSrc, w1, w2, xratio, yratio)
    requires Normal(rowSplit) && Value(rowSplit) == Value(Split(ys, yt)) + yratio
    requires x + 1 == w2
    ensures Positioned(idxDst + 1, 0, row + 1, rowSplit.integral, rowSplit.fractional, 0, 0.0,
                       rowSplit.integral * w1, w1, w2, xratio, yratio)
  {
    SteppingMatchesTranslate(row, yratio, rowSplit);
    assert Index(0, row + 1, w2) == idxDst + 1 by {
      assert (row + 1) * w2 == row * w2 + w2;
    }
    IndexInverse(0, row + 1, w2);
  }

  /// Writing one more index extends the run.
  lemma RunExtend(offset: nat, count: nat)
    ensures Run(offset, count) + [offset + count] == Run(offset, count + 1)
  {
  }

  /// `worker(offset, iters)`: writes destination pixels `offset` to
  /// `offset + iters - 1` in increasing order, each exactly once, and no other.
  /// Each written pixel is the blend of its closed-form sample, although the driver
  /// reaches it by stepping the column position and carrying into the row; at every
  /// loop head `x == idxDst % w2` (inside `Positioned`).
  /// `written` records the destination indices in the order they are written.
  method Worker(dst: BgraImage, w1: nat, w2: nat, xratio: real, yratio: real,
                kernel: Sample -> Pixel, offset: nat, iters: nat)
    returns (ghost written: seq<nat>)
    requires w2 > 0 && xratio >= 0.0 && yratio >= 0.0
    requires offset + iters <= |dst.data|
    modifies dst`data
    ensures |dst.data| == old(|dst.data|)
    ensures forall k :: 0 <= k < |dst.data| ==>
              dst.data[k] == if offset <= k < offset + iters
                             then kernel(SampleAt(k, w1, w2, xratio, yratio))
                             else old(dst.data[k])
    ensures written == Run(offset, iters)
  {
    var x: nat := offset % w2;
    ghost var row: nat := offset / w2;
    var ySeed := Translate(offset / w2, yratio);
    var xSeed := Translate(x, xratio);
    var ys: nat, yt := ySeed.integral, ySeed.fractional;
    var xt := xSeed.fractional;
    ghost var xs: nat := xSeed.integral;
    var idxDst := offset;
    var idxSrc: nat := ys * w1 + xSeed.integral;
    var remaining: nat := iters;
    PositionedAtSeed(offset, w1, w2, xratio, yratio);
    written := [];
    while remaining > 0
      invariant offset <= idxDst && idxDst + remaining == offset + iters
      invariant Positioned(idxDst, x, row, ys, yt, xs, xt, idxSrc, w1, w2, xratio, yratio)
      invariant |dst.data| == old(|dst.data|)
      invariant forall k :: 0 <= k < |dst.data| ==>
                  dst.data[k] == if offset <= k < idxDst
                                 then kernel(SampleAt(k, w1, w2, xratio, yratio))
                                 else old(dst.data[k])
      invariant written == Run(offset, idxDst - offset)
    {
      ghost var x0, xs0, xt0, idxSrc0 := x, xs, xt, idxSrc;
      PositionedSample(idxDst, x, row, ys, yt, xs, xt, idxSrc, w1, w2, xratio, yratio);
      dst.data := dst.data[idxDst := kernel(Sample(idxSrc, yt, xt))];
      written := written + [idxDst];

      var column := IncSplit(Split(idxSrc, xt), xratio);
      idxSrc, xt := column.integral, column.fractional;
      xs := xs0 + (idxSrc - idxSrc0);
      x := x + 1;
      if x < w2 {
        PositionedNextColumn(idxDst, x0, row, ys, yt, xs0, xt0, idxSrc0, w1, w2, xratio, yratio, column);
      } else {
        x, xt := 0, 0.0;
        var rowSplit := IncSplit(Split(ys, yt), yratio);
        PositionedNextRow(idxDst, x0, row, ys, yt, xs0, xt0, idxSrc0, w1, w2, xratio, yratio, rowSplit);
        ys, yt := rowSplit.integral, rowSplit.fractional;
        row, xs := row + 1, 0;
        idxSrc := ys * w1;
      }
      idxDst, remaining := idxDst + 1, remaining - 1;
    }
  }

  /// `copy_resize_image` with the thread dispatch run sequentially: the destination
  /// is sized to `w2 * h2`; a source with a zero dimension leaves it at that;
  /// otherwise every destination pixel becomes the blend of its own closed-form
  /// sample, whatever the worker count.  The tiles are handed out in order, tile
  /// `i` taking thread slot `i` and running to completion there.
  method CopyResize(dst: BgraImage, src: BgraImage, hardware: nat,
                    xratio: real, yratio: real, kernel: Sample -> Pixel)
    requires dst != src
    requires dst.width < U32 && dst.height < U32
    requires xratio >= 0.0 && yratio >= 0.0
    modifies dst`data
    ensures dst.Valid()
    ensures src.width == 0 || src.height == 0 ==>
              dst.data == Resized(old(dst.data), dst.width * dst.height)
    ensures src.width > 0 && src.height > 0 ==>
              forall k :: 0 <= k < |dst.data| ==>
                dst.width > 0 && dst.data[k] == kernel(SampleAt(k, src.width, dst.width, xratio, yratio))
  {
    var w1, h1, w2, h2 := src.width, src.height, dst.width, dst.height;
    dst.data := Resized(dst.data, w2 * h2);
    if w1 == 0 || h1 == 0 {
      return;
    }
    var total := |dst.data|;
    assert total > 0 ==> w2 > 0 by {
      if w2 == 0 {
        assert w2 * h2 == 0;
      }
    }
    var n := WorkerCount(hardware);
    var tiles := SplitWork(total, n);
    var threads := new Tile[ThreadSlots](_ => Tile(0, 0));
    var i := 0;
    ghost var done := 0;
    while i < |tiles|
      invariant 0 <= i <= |tiles| && |dst.data| == total
      invariant i < |tiles| ==> tiles[i].offset == done
      invariant i == |tiles| ==> done == total
      invariant forall k :: 0 <= k < done ==> k < total && dst.data[k] == kernel(SampleAt(k, w1, w2, xratio, yratio))
    {
      threads[i] := tiles[i];
      if i + 1 < |tiles| {
        PartitionOrdered(tiles, 0, total, i, |tiles| - 1);
      }
      ghost var written := Worker(dst, w1, w2, xratio, yratio, kernel, tiles[i].offset, tiles[i].count);
      done := tiles[i].offset + tiles[i].count;
      i := i + 1;
    }
  }
}

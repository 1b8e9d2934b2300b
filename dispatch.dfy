/// The static work partitioning of `copy_resize_image` (main.cpp): the flattened
/// destination range [0, N) is cut into contiguous tiles, one per worker thread.
/// The threads themselves are not modelled; tiles are produced as a list.
module Dispatch {

  /// Length of the `std::thread threads[16]` array that receives one thread per tile.
  const ThreadSlots: nat := 16

  /// `divide_round_up`: the ceiling of x / y.
  function DivideRoundUp(x: nat, y: nat): (q: nat)
    requires y > 0
    ensures q * y >= x
    ensures q > 0 ==> (q - 1) * y < x
  {
    (x + y - 1) / y
  }

  lemma {:induction false} MultiplyMonotone(a: nat, b: nat, y: nat)
    requires a <= b
    ensures a * y <= b * y
  {
    if a < b {
      MultiplyMonotone(a, b - 1, y);
      assert b * y == (b - 1) * y + y;
    }
  }

  /// `DivideRoundUp(x, y)` is the least q with q * y >= x.
  lemma DivideRoundUpIsLeast(x: nat, y: nat, q: nat)
    requires y > 0 && q * y >= x
    ensures DivideRoundUp(x, y) <= q
  {
    var c := DivideRoundUp(x, y);
    if q < c {
      MultiplyMonotone(q, c - 1, y);
    }
  }

  /// Taking `y` off a quantity above `y` takes one off its rounded-up quotient.
  lemma DivideRoundUpStep(x: nat, y: nat)
    requires y > 0 && x > y
    ensures DivideRoundUp(x, y) == DivideRoundUp(x - y, y) + 1
  {
    var q, q' := DivideRoundUp(x, y), DivideRoundUp(x - y, y);
    assert (q' + 1) * y == q' * y + y;
    DivideRoundUpIsLeast(x, y, q' + 1);
    assert q > 0;
    assert (q - 1) * y == q * y - y;
    DivideRoundUpIsLeast(x - y, y, q - 1);
  }

  /// A tile of `count` destination pixels starting at flattened index `offset`.
  datatype Tile = Tile(offset: nat, count: nat)

  predicate InTile(i: nat, t: Tile)
  {
    t.offset <= i < t.offset + t.count
  }

  /// The tiles partition [start, end): each is non-empty, the first starts at
  /// `start`, each starts where the previous one ends, and the last ends at `end`.
  predicate Partition(tiles: seq<Tile>, start: nat, end: nat)
  {
    (forall k :: 0 <= k < |tiles| ==> tiles[k].count > 0) &&
    (forall k :: 0 < k < |tiles| ==> tiles[k].offset == tiles[k - 1].offset + tiles[k - 1].count) &&
    if tiles == [] then start == end
    else tiles[0].offset == start && tiles[|tiles| - 1].offset + tiles[|tiles| - 1].count == end
  }

  /// In a partition every tile ends no later than any later tile starts.
  lemma {:induction false} PartitionOrdered(tiles: seq<Tile>, start: nat, end: nat, k: nat, l: nat)
    requires Partition(tiles, start, end) && k < l < |tiles|
    ensures tiles[k].offset + tiles[k].count <= tiles[l].offset
  {
    if k + 1 < l {
      PartitionOrdered(tiles, start, end, k, l - 1);
    }
  }

  /// Dropping the last tile of a partition of [start, end) leaves a partition of
  /// [start, start of the last tile).
  lemma PartitionInit(tiles: seq<Tile>, start: nat, end: nat)
    requires Partition(tiles, start, end) && |tiles| > 0
    ensures Partition(tiles[..|tiles| - 1], start, tiles[|tiles| - 1].offset)
  {
  }

  /// A non-empty tile at `start` followed by a partition of the rest is a partition.
  lemma PartitionCons(t: Tile, rest: seq<Tile>, start: nat, end: nat)
    requires t.offset == start && t.count > 0 && Partition(rest, start + t.count, end)
    ensures Partition([t] + rest, start, end)
  {
  }

  /// The tiles of a partition of [start, end) cover every index in that range and
  /// no other index, and no index lies in two tiles.
  lemma {:induction false} CoveredExactlyOnce(tiles: seq<Tile>, start: nat, end: nat, i: nat)
    requires Partition(tiles, start, end)
    ensures start <= i < end <==> exists k :: 0 <= k < |tiles| && InTile(i, tiles[k])
    ensures forall k, l :: 0 <= k < l < |tiles| ==> !(InTile(i, tiles[k]) && InTile(i, tiles[l]))
    decreases |tiles|
  {
    forall k, l | 0 <= k < l < |tiles|
      ensures !(InTile(i, tiles[k]) && InTile(i, tiles[l]))
    {
      PartitionOrdered(tiles, start, end, k, l);
    }
    if tiles != [] {
      var last := |tiles| - 1;
      var init := tiles[..last];
      PartitionInit(tiles, start, end);
      CoveredExactlyOnce(init, start, tiles[last].offset, i);
      if start <= i < end {
        if i >= tiles[last].offset {
          assert InTile(i, tiles[last]);
        } else {
          var k :| 0 <= k < |init| && InTile(i, init[k]);
          assert InTile(i, tiles[k]);
        }
      } else {
        forall k | 0 <= k < |tiles|
          ensures !InTile(i, tiles[k])
        {
          if k < last {
            PartitionOrdered(tiles, start, end, k, last);
          }
          if k > 0 {
            PartitionOrdered(tiles, start, end, 0, k);
          }
        }
      }
    }
  }

  /// The tiles the splitting loop emits from `offset` on: `size` pixels each, the
  /// last one cut short at `total`.
  function Chunks(offset: nat, total: nat, size: nat): (tiles: seq<Tile>)
    requires size > 0 || offset >= total
    decreases total - offset
  {
    if offset >= total then []
    else
      var end := if total < offset + size then total else offset + size;
      [Tile(offset, end - offset)] + Chunks(end, total, size)
  }

  /// The chunks from `offset` partition [offset, total).
  lemma {:induction false} ChunksPartition(offset: nat, total: nat, size: nat)
    requires size > 0 && offset <= total
    ensures Partition(Chunks(offset, total, size), offset, total)
    decreases total - offset
  {
    if offset < total {
      var end := if total < offset + size then total else offset + size;
      var rest := Chunks(end, total, size);
      assert Chunks(offset, total, size) == [Tile(offset, end - offset)] + rest;
      ChunksPartition(end, total, size);
      PartitionCons(Tile(offset, end - offset), rest, offset, total);
    }
  }

  /// Each chunk holds at most `size` pixels, and all but the last exactly `size`.
  lemma {:induction false} ChunksSizes(offset: nat, total: nat, size: nat)
    requires size > 0
    ensures forall k :: 0 <= k < |Chunks(offset, total, size)| ==> Chunks(offset, total, size)[k].count <= size
    ensures forall k :: 0 <= k < |Chunks(offset, total, size)| - 1 ==> Chunks(offset, total, size)[k].count == size
    decreases total - offset
  {
    if offset < total {
      var end := if total < offset + size then total else offset + size;
      var rest := Chunks(end, total, size);
      var chunks := Chunks(offset, total, size);
      assert chunks == [Tile(offset, end - offset)] + rest;
      ChunksSizes(end, total, size);
      assert end < total ==> rest != [];
      forall k | 0 < k < |chunks|
        ensures chunks[k] == rest[k - 1]
      {
      }
    }
  }

  /// There are `DivideRoundUp(total - offset, size)` chunks from `offset`.
  lemma {:induction false} ChunksCount(offset: nat, total: nat, size: nat)
    requires size > 0 && offset <= total
    ensures |Chunks(offset, total, size)| == DivideRoundUp(total - offset, size)
    decreases total - offset
  {
    var q := DivideRoundUp(total - offset, size);
    if offset == total {
      DivideRoundUpIsLeast(0, size, 0);
    } else if total <= offset + size {
      DivideRoundUpIsLeast(total - offset, size, 1);
    } else {
      ChunksCount(offset + size, total, size);
      DivideRoundUpStep(total - offset, size);
    }
  }

  /// Number of tiles for `total` pixels and `n` workers: the number of chunks of
  /// `DivideRoundUp(total, n)` pixels needed to reach `total`.
  function TileCount(total: nat, n: nat): (count: nat)
    requires n > 0
  {
    var size := DivideRoundUp(total, n);
    if size == 0 then 0 else DivideRoundUp(total, size)
  }

  /// At most `n` tiles are produced for `n` workers.
  lemma TileCountAtMost(total: nat, n: nat)
    requires n > 0
    ensures TileCount(total, n) <= n
  {
    var size := DivideRoundUp(total, n);
    if size > 0 {
      var c := DivideRoundUp(total, size);
      if c > n {
        MultiplyMonotone(n, c - 1, size);
      }
    }
  }

  /// The tiles for `n` workers partition [0, total) into tiles of
  /// `DivideRoundUp(total, n)` pixels, all full but the last.
  lemma ChunksShape(total: nat, size: nat)
    requires total > 0 ==> size > 0
    ensures Partition(Chunks(0, total, size), 0, total)
    ensures total == 0 ==> Chunks(0, total, size) == []
    ensures forall k :: 0 <= k < |Chunks(0, total, size)| ==> Chunks(0, total, size)[k].count <= size
    ensures forall k :: 0 <= k < |Chunks(0, total, size)| - 1 ==> Chunks(0, total, size)[k].count == size
  {
    if total > 0 {
      ChunksPartition(0, total, size);
      ChunksSizes(0, total, size);
    }
  }

  /// There are `TileCount(total, n)` tiles for `n` workers, at most `n`.
  lemma ChunksNumber(total: nat, n: nat)
    requires n > 0
    ensures |Chunks(0, total, DivideRoundUp(total, n))| == TileCount(total, n) <= n
  {
    var size := DivideRoundUp(total, n);
    if total > 0 {
      ChunksCount(0, total, size);
    }
    TileCountAtMost(total, n);
  }

  /// The tile-splitting loop: tiles of `DivideRoundUp(total, n)` pixels from 0
  /// upwards, the last one cut short at `total`.
  method SplitWork(total: nat, n: nat) returns (tiles: seq<Tile>)
    requires n > 0
    ensures tiles == Chunks(0, total, DivideRoundUp(total, n))
    ensures Partition(tiles, 0, total)
    ensures total == 0 ==> tiles == []
    ensures forall k :: 0 <= k < |tiles| ==> tiles[k].count <= DivideRoundUp(total, n)
    ensures forall k :: 0 <= k < |tiles| - 1 ==> tiles[k].count == DivideRoundUp(total, n)
    ensures |tiles| == TileCount(total, n) <= n
  {
    var splitSize := DivideRoundUp(total, n);
    var workOffset, i := 0, 0;
    tiles := [];
    while workOffset < total
      invariant workOffset <= total && i == |tiles|
      invariant splitSize > 0 || workOffset >= total
      invariant tiles + Chunks(workOffset, total, splitSize) == Chunks(0, total, splitSize)
      decreases total - workOffset
    {
      var workEnd := if total < workOffset + splitSize then total else workOffset + splitSize;
      assert Chunks(workOffset, total, splitSize)
          == [Tile(workOffset, workEnd - workOffset)] + Chunks(workEnd, total, splitSize);
      tiles := tiles + [Tile(workOffset, workEnd - workOffset)];
      workOffset := workEnd;
      i := i + 1;
    }
    assert Chunks(workOffset, total, splitSize) == [];
    assert tiles == Chunks(0, total, splitSize);
    ChunksShape(total, splitSize);
    ChunksNumber(total, n);
  }

  /// As written, one thread is launched into `threads[i]` per tile, and with more
  /// than 16 hardware threads there are more tiles than slots: 17 workers over
  /// 17 pixels give 17 tiles.
  lemma TileCountExceedsSlots()
    ensures TileCount(17, 17) == 17 > ThreadSlots
  {
  }

  /// The worker count the dispatcher evidently intends: the hardware concurrency
  /// clamped to at least one worker and at most one per thread slot.
  function WorkerCount(hardware: nat): (n: nat)
    ensures 1 <= n <= ThreadSlots
    ensures 1 <= hardware <= ThreadSlots ==> n == hardware
  {
    if hardware == 0 then 1 else if hardware > ThreadSlots then ThreadSlots else hardware
  }

  /// With the clamped worker count, every tile has a thread slot.
  lemma TilesFitSlots(total: nat, hardware: nat)
    ensures TileCount(total, WorkerCount(hardware)) <= ThreadSlots
  {
    TileCountAtMost(total, WorkerCount(hardware));
  }
}

/**
 * The chunk arithmetic of a file transfer: how long the first byte request
 * is, and which request follows a successful write.
 */
module Transfer {
  import opened JavaTypes

  /** The largest block ever requested, whatever the configuration says. */
  const MaxBlock: Int64 := 8192

  datatype Chunk = Chunk(position: Int64, length: Int64)

  /** The configured block size, capped at `MaxBlock`. */
  function BlockSize(configured: Int64): (b: Int64)
    ensures b <= MaxBlock && b <= configured
    ensures b == MaxBlock || b == configured
  {
    Min(configured, MaxBlock)
  }

  /** A whole block when at least a block remains, otherwise what remains. */
  function ChunkLength(remaining: Int64, block: Int64): (len: Int64)
    ensures len <= block && len <= remaining
    ensures len == block || len == remaining
  {
    if remaining >= block then block else remaining
  }

  /** The byte request sent when a file loader is ready: from position zero. */
  function FirstChunk(fileSize: Int64, configured: Int64): (c: Chunk)
    ensures c.position == 0
    ensures 0 <= fileSize && 0 < configured ==> 0 <= c.length <= fileSize
    ensures 0 < fileSize && 0 < configured ==> 0 < c.length
  {
    Chunk(0, ChunkLength(fileSize, BlockSize(configured)))
  }

  /**
   * After `(position, length)` has been written: the next request starts
   * where that one ended, if any of the file remains. Both sums are Java
   * `long` arithmetic.
   */
  function NextChunk(fileSize: Int64, position: Int64, length: Int64, configured: Int64): (r: Option<Chunk>)
    ensures 0 <= position && 0 <= length && position + length <= fileSize
            ==> (r.Some? <==> position + length < fileSize)
    ensures 0 <= position && 0 <= length && position + length <= fileSize && r.Some? && 0 < configured
            ==> r.value.position == position + length
                && 0 < r.value.length
                && r.value.length == Min(BlockSize(configured), fileSize - (position + length))
  {
    var next := WrapLong(position + length);
    var remaining := WrapLong(fileSize - next);
    if remaining > 0 then Some(Chunk(next, ChunkLength(remaining, BlockSize(configured)))) else None
  }

  /** A chunk lying inside a file of the given size. */
  predicate Inside(c: Chunk, fileSize: Int64)
  {
    0 <= c.position && 0 <= c.length && c.position + c.length <= fileSize
  }

  /** The requests that follow `c` when every write succeeds. */
  function After(fileSize: Int64, configured: Int64, c: Chunk): seq<Chunk>
    requires 0 < configured && Inside(c, fileSize)
    decreases fileSize - (c.position + c.length)
  {
    match NextChunk(fileSize, c.position, c.length, configured)
    case None => []
    case Some(n) => [n] + After(fileSize, configured, n)
  }

  /** Every byte request a receiver sends for one file when every write succeeds. */
  function Schedule(fileSize: Int64, configured: Int64): seq<Chunk>
    requires 0 <= fileSize && 0 < configured
  {
    var first := FirstChunk(fileSize, configured);
    [first] + After(fileSize, configured, first)
  }

  /** Contiguous chunks, each a whole block or whatever remains of the file. */
  predicate Tiles(s: seq<Chunk>, fileSize: Int64, block: int)
  {
    && (forall i | 0 <= i < |s| - 1 :: s[i + 1].position == s[i].position + s[i].length)
    && (forall i | 0 <= i < |s| :: s[i].length == Min(block, fileSize - s[i].position))
    && (|s| > 0 ==> s[|s| - 1].position + s[|s| - 1].length == fileSize)
  }

  /** Unfolding `After` once. */
  lemma AfterUnfold(fileSize: Int64, configured: Int64, c: Chunk)
    requires 0 < configured && Inside(c, fileSize)
    ensures var a := After(fileSize, configured, c);
            var n := NextChunk(fileSize, c.position, c.length, configured);
            && (n.None? ==> a == [] && c.position + c.length == fileSize)
            && (n.Some? ==> Inside(n.value, fileSize) && a == [n.value] + After(fileSize, configured, n.value))
  {
  }

  lemma {:induction false} AfterContiguous(fileSize: Int64, configured: Int64, c: Chunk)
    requires 0 < configured && Inside(c, fileSize)
    ensures var a := After(fileSize, configured, c);
            && (|a| > 0 ==> a[0].position == c.position + c.length)
            && (forall i | 0 <= i < |a| - 1 :: a[i + 1].position == a[i].position + a[i].length)
    decreases fileSize - (c.position + c.length)
  {
    AfterUnfold(fileSize, configured, c);
    var n := NextChunk(fileSize, c.position, c.length, configured);
    if n.Some? {
      AfterContiguous(fileSize, configured, n.value);
      var rest := After(fileSize, configured, n.value);
      var a := [n.value] + rest;
      forall i | 0 <= i < |a| - 1
        ensures a[i + 1].position == a[i].position + a[i].length
      {
        if i > 0 {
          assert a[i] == rest[i - 1] && a[i + 1] == rest[i];
        }
      }
    }
  }

  lemma {:induction false} AfterBlocks(fileSize: Int64, configured: Int64, c: Chunk)
    requires 0 < configured && Inside(c, fileSize)
    ensures var a := After(fileSize, configured, c);
            forall i | 0 <= i < |a| ::
              && 0 < a[i].length
              && a[i].length == Min(BlockSize(configured), fileSize - a[i].position)
    decreases fileSize - (c.position + c.length)
  {
    AfterUnfold(fileSize, configured, c);
    var n := NextChunk(fileSize, c.position, c.length, configured);
    if n.Some? {
      AfterBlocks(fileSize, configured, n.value);
      var rest := After(fileSize, configured, n.value);
      var a := [n.value] + rest;
      forall i | 0 <= i < |a|
        ensures 0 < a[i].length && a[i].length == Min(BlockSize(configured), fileSize - a[i].position)
      {
        if i > 0 {
          assert a[i] == rest[i - 1];
        }
      }
    }
  }

  lemma {:induction false} AfterEnds(fileSize: Int64, configured: Int64, c: Chunk)
    requires 0 < configured && Inside(c, fileSize)
    ensures var a := After(fileSize, configured, c);
            && (|a| == 0 <==> c.position + c.length == fileSize)
            && (|a| > 0 ==> a[|a| - 1].position + a[|a| - 1].length == fileSize)
    decreases fileSize - (c.position + c.length)
  {
    AfterUnfold(fileSize, configured, c);
    var n := NextChunk(fileSize, c.position, c.length, configured);
    if n.Some? {
      AfterEnds(fileSize, configured, n.value);
      var rest := After(fileSize, configured, n.value);
      if |rest| > 0 {
        assert ([n.value] + rest)[|rest|] == rest[|rest| - 1];
      }
    }
  }

  /** `k` pieces of size `b` are the fewest that cover `r`. */
  predicate CeilingCount(k: int, r: int, b: int)
  {
    (k - 1) * b < r <= k * b
  }

  lemma CeilingStep(k: int, r: int, b: int)
    requires 0 < b < r && CeilingCount(k, r - b, b)
    ensures CeilingCount(k + 1, r, b)
  {
    assert (k + 1) * b == k * b + b;
    assert (k - 1) * b + b == k * b;
  }

  lemma {:induction false} AfterCount(fileSize: Int64, configured: Int64, c: Chunk)
    requires 0 < configured && Inside(c, fileSize)
    requires c.position + c.length < fileSize
    ensures CeilingCount(|After(fileSize, configured, c)|, fileSize - (c.position + c.length), BlockSize(configured))
    decreases fileSize - (c.position + c.length)
  {
    AfterUnfold(fileSize, configured, c);
    var n := NextChunk(fileSize, c.position, c.length, configured).value;
    var b := BlockSize(configured);
    var r := fileSize - (c.position + c.length);
    if r > b {
      AfterCount(fileSize, configured, n);
      CeilingStep(|After(fileSize, configured, n)|, r, b);
    } else {
      AfterEnds(fileSize, configured, n);
    }
  }

  lemma ScheduleCount(fileSize: Int64, configured: Int64)
    requires 0 < fileSize && 0 < configured
    ensures CeilingCount(|Schedule(fileSize, configured)|, fileSize, BlockSize(configured))
  {
    var b := BlockSize(configured);
    var first := FirstChunk(fileSize, configured);
    var rest := After(fileSize, configured, first);
    assert |Schedule(fileSize, configured)| == 1 + |rest|;
    if fileSize > b {
      AfterCount(fileSize, configured, first);
      CeilingStep(|rest|, fileSize, b);
    } else {
      AfterEnds(fileSize, configured, first);
      assert |rest| == 0;
      assert CeilingCount(1, fileSize, b);
    }
  }

  /** `Schedule` is the first chunk followed by what comes after it. */
  lemma ScheduleUnfold(fileSize: Int64, configured: Int64)
    requires 0 <= fileSize && 0 < configured
    ensures var s := Schedule(fileSize, configured);
            var rest := After(fileSize, configured, FirstChunk(fileSize, configured));
            && |s| == 1 + |rest|
            && s[0] == FirstChunk(fileSize, configured)
            && (forall i | 1 <= i < |s| :: s[i] == rest[i - 1])
  {
  }

  lemma ScheduleContiguous(fileSize: Int64, configured: Int64)
    requires 0 <= fileSize && 0 < configured
    ensures var s := Schedule(fileSize, configured);
            forall i | 0 <= i < |s| - 1 :: s[i + 1].position == s[i].position + s[i].length
  {
    var first := FirstChunk(fileSize, configured);
    AfterContiguous(fileSize, configured, first);
    ScheduleUnfold(fileSize, configured);
    var rest := After(fileSize, configured, first);
    var s := Schedule(fileSize, configured);
    forall i | 0 <= i < |s| - 1
      ensures s[i + 1].position == s[i].position + s[i].length
    {
      if i > 0 {
        assert s[i] == rest[i - 1] && s[i + 1] == rest[i];
      }
    }
  }

  lemma ScheduleBlocks(fileSize: Int64, configured: Int64)
    requires 0 <= fileSize && 0 < configured
    ensures var s := Schedule(fileSize, configured);
            forall i | 0 <= i < |s| ::
              && s[i].length == Min(BlockSize(configured), fileSize - s[i].position)
              && (fileSize > 0 ==> 0 < s[i].length)
  {
    var first := FirstChunk(fileSize, configured);
    AfterBlocks(fileSize, configured, first);
    ScheduleUnfold(fileSize, configured);
  }

  lemma ScheduleEnds(fileSize: Int64, configured: Int64)
    requires 0 <= fileSize && 0 < configured
    ensures var s := Schedule(fileSize, configured);
            && s[|s| - 1].position + s[|s| - 1].length == fileSize
            && (fileSize == 0 ==> s == [Chunk(0, 0)])
  {
    var first := FirstChunk(fileSize, configured);
    AfterEnds(fileSize, configured, first);
    ScheduleUnfold(fileSize, configured);
    var rest := After(fileSize, configured, first);
    if fileSize == 0 {
      assert first == Chunk(0, 0);
      assert |rest| == 0;
    }
  }

  /**
   * The requests for a file tile it: the first starts at zero, each starts
   * where the previous ended, each is a whole block or what remains, the
   * last ends at the file's size, and a non-empty file takes the fewest
   * requests of that block size that cover it. An empty file still gets one
   * request, of length zero.
   */
  lemma ScheduleTiles(fileSize: Int64, configured: Int64)
    requires 0 <= fileSize && 0 < configured
    ensures var s := Schedule(fileSize, configured);
            && s[0].position == 0
            && Tiles(s, fileSize, BlockSize(configured))
            && (fileSize == 0 ==> s == [Chunk(0, 0)])
            && (fileSize > 0 ==> CeilingCount(|s|, fileSize, BlockSize(configured)))
            && (fileSize > 0 ==> forall i | 0 <= i < |s| :: 0 < s[i].length)
  {
    ScheduleUnfold(fileSize, configured);
    ScheduleContiguous(fileSize, configured);
    ScheduleBlocks(fileSize, configured);
    ScheduleEnds(fileSize, configured);
    if fileSize > 0 {
      ScheduleCount(fileSize, configured);
    }
  }

  /**
   * Each request after `c` is exactly what `NextChunk` computes from the
   * one before it, and the last one leaves nothing to request.
   */
  lemma {:induction false} AfterSteps(fileSize: Int64, configured: Int64, c: Chunk)
    requires 0 < configured && Inside(c, fileSize)
    ensures var a := After(fileSize, configured, c);
            && NextChunk(fileSize, c.position, c.length, configured) == (if |a| > 0 then Some(a[0]) else None)
            && (forall i | 0 <= i < |a| - 1 :: NextChunk(fileSize, a[i].position, a[i].length, configured) == Some(a[i + 1]))
            && (|a| > 0 ==> NextChunk(fileSize, a[|a| - 1].position, a[|a| - 1].length, configured).None?)
    decreases fileSize - (c.position + c.length)
  {
    AfterUnfold(fileSize, configured, c);
    var n := NextChunk(fileSize, c.position, c.length, configured);
    if n.Some? {
      AfterSteps(fileSize, configured, n.value);
      var rest := After(fileSize, configured, n.value);
      var a := [n.value] + rest;
      forall i | 0 <= i < |a| - 1
        ensures NextChunk(fileSize, a[i].position, a[i].length, configured) == Some(a[i + 1])
      {
        if i > 0 {
          assert a[i] == rest[i - 1] && a[i + 1] == rest[i];
        }
      }
      if |rest| > 0 {
        assert a[|a| - 1] == rest[|rest| - 1];
      }
    }
  }

  /**
   * Replaying `NextChunk` from the first request walks the schedule: it
   * yields each following request in turn and stops after the last.
   */
  lemma ScheduleSteps(fileSize: Int64, configured: Int64)
    requires 0 <= fileSize && 0 < configured
    ensures var s := Schedule(fileSize, configured);
            && (forall i | 0 <= i < |s| - 1 :: NextChunk(fileSize, s[i].position, s[i].length, configured) == Some(s[i + 1]))
            && NextChunk(fileSize, s[|s| - 1].position, s[|s| - 1].length, configured).None?
  {
    var first := FirstChunk(fileSize, configured);
    AfterSteps(fileSize, configured, first);
    ScheduleUnfold(fileSize, configured);
    var rest := After(fileSize, configured, first);
    var s := Schedule(fileSize, configured);
    forall i | 0 <= i < |s| - 1
      ensures NextChunk(fileSize, s[i].position, s[i].length, configured) == Some(s[i + 1])
    {
      if i > 0 {
        assert s[i] == rest[i - 1] && s[i + 1] == rest[i];
      }
    }
    if |rest| > 0 {
      assert s[|s| - 1] == rest[|rest| - 1];
    }
  }
}

/** `diffRowTo`: patching one row to another (kit/Delta.hpp). */
module RowDiff {
  import opened Pixels
  import opened Seqs
  import opened RowCodec
  import opened Buffers
  import opened BitmapRows
  import opened DeltaFormat

  // ---------- what a patched row is made of ----------

  function Len(op: Op): nat
    requires op.Patch?
  {
    |op.bytes| / 4
  }

  predicate Covers(op: Op, i: nat) {
    op.Patch? && op.col <= i < op.col + Len(op)
  }

  /** A run of row y: current pixels, at most 254 of them, the first of which differs. */
  predicate Run(op: Op, y: nat, a: seq<Pixel>, b: seq<Pixel>, mode: TileMode) {
    |a| == |b| && op.Patch? && op.row == y &&
    1 <= Len(op) <= 254 && op.col + Len(op) <= |b| &&
    op.bytes == SentBytes(b[op.col..op.col + Len(op)], mode) &&
    a[op.col] != b[op.col]
  }

  ghost predicate SameBetween(a: seq<Pixel>, b: seq<Pixel>, lo: nat, hi: nat) {
    lo <= hi <= |a| && |a| == |b| && SameWrapped(a, b, lo, hi, WRAPS)
  }

  ghost predicate SameWrapped(a: seq<Pixel>, b: seq<Pixel>, lo: nat, hi: nat, wraps: nat)
    requires lo <= hi <= |a| && |a| == |b|
  {
    if wraps > 0 then SameWrapped(a, b, lo, hi, wraps - 1) else a[lo..hi] == b[lo..hi]
  }

  lemma {:induction false} OpenSame(a: seq<Pixel>, b: seq<Pixel>, lo: nat, hi: nat, wraps: nat)
    requires lo <= hi <= |a| && |a| == |b|
    ensures SameWrapped(a, b, lo, hi, wraps) <==> a[lo..hi] == b[lo..hi]
  {
    if wraps > 0 {
      OpenSame(a, b, lo, hi, wraps - 1);
    }
  }

  lemma {:induction false} SameNone(a: seq<Pixel>, b: seq<Pixel>, lo: nat)
    requires lo <= |a| == |b|
    ensures SameBetween(a, b, lo, lo)
  {
    OpenSame(a, b, lo, lo, WRAPS);
  }

  lemma {:induction false} SameOneMore(a: seq<Pixel>, b: seq<Pixel>, lo: nat, hi: nat)
    requires SameBetween(a, b, lo, hi) && hi < |a| && a[hi] == b[hi]
    ensures SameBetween(a, b, lo, hi + 1)
  {
    OpenSame(a, b, lo, hi, WRAPS);
    OpenSame(a, b, lo, hi + 1, WRAPS);
    assert a[lo..hi + 1] == a[lo..hi] + [a[hi]] && b[lo..hi + 1] == b[lo..hi] + [b[hi]];
  }

  lemma {:induction false} SameJoin(a: seq<Pixel>, b: seq<Pixel>, lo: nat, mid: nat, hi: nat)
    requires SameBetween(a, b, lo, mid) && SameBetween(a, b, mid, hi)
    ensures SameBetween(a, b, lo, hi)
  {
    OpenSame(a, b, lo, mid, WRAPS);
    OpenSame(a, b, mid, hi, WRAPS);
    OpenSame(a, b, lo, hi, WRAPS);
    assert a[lo..hi] == a[lo..mid] + a[mid..hi] && b[lo..hi] == b[lo..mid] + b[mid..hi];
  }

  lemma {:induction false} SameAt(a: seq<Pixel>, b: seq<Pixel>, lo: nat, hi: nat, i: nat)
    requires SameBetween(a, b, lo, hi) && lo <= i < hi
    ensures a[i] == b[i]
  {
    OpenSame(a, b, lo, hi, WRAPS);
    assert a[i] == a[lo..hi][i - lo] && b[i] == b[lo..hi][i - lo];
  }

  /** Where a run ends: an equal pixel is taken along only as one of the first three, and nothing
      but the limit or the end of the row cuts the run off before. */
  ghost predicate RunEnds(a: seq<Pixel>, b: seq<Pixel>, x: nat, n: nat) {
    && |a| == |b| && x + n <= |a|
    && (forall i :: x + 3 <= i < x + n ==> a[i] != b[i])
    && (x + n < |a| && n < 254 ==> n >= 3 && a[x + n] == b[x + n])
  }

  ghost predicate EndsWrapped(a: seq<Pixel>, b: seq<Pixel>, x: nat, n: nat, wraps: nat) {
    if wraps > 0 then EndsWrapped(a, b, x, n, wraps - 1) else RunEnds(a, b, x, n)
  }

  lemma {:induction false} OpenEnds(a: seq<Pixel>, b: seq<Pixel>, x: nat, n: nat, wraps: nat)
    ensures EndsWrapped(a, b, x, n, wraps) <==> RunEnds(a, b, x, n)
  {
    if wraps > 0 {
      OpenEnds(a, b, x, n, wraps - 1);
    }
  }

  /** Runs of row y one after the other below column x, with nothing but equal pixels
      between them. */
  ghost predicate RowRuns(ops: seq<Op>, y: nat, a: seq<Pixel>, b: seq<Pixel>, mode: TileMode, x: nat) {
    if ops == [] then SameBetween(a, b, 0, x) else
      var op := ops[|ops| - 1];
      Run(op, y, a, b, mode) && EndsWrapped(a, b, op.col, Len(op), WRAPS) && SameBetween(a, b, op.col + Len(op), x) &&
      RowRuns(ops[..|ops| - 1], y, a, b, mode, op.col)
  }

  lemma {:induction false} RowRunsSame(ops: seq<Op>, y: nat, a: seq<Pixel>, b: seq<Pixel>, mode: TileMode, x: nat,
                                       x': nat)
    requires RowRuns(ops, y, a, b, mode, x) && SameBetween(a, b, x, x')
    ensures RowRuns(ops, y, a, b, mode, x')
  {
    if ops == [] {
      SameJoin(a, b, 0, x, x');
    } else {
      var op := ops[|ops| - 1];
      SameJoin(a, b, op.col + Len(op), x, x');
    }
  }

  lemma {:induction false} RowRunsSnoc(ops: seq<Op>, op: Op, y: nat, a: seq<Pixel>, b: seq<Pixel>, mode: TileMode,
                                       x: nat)
    requires RowRuns(ops, y, a, b, mode, x) && Run(op, y, a, b, mode) && op.col == x && RunEnds(a, b, x, Len(op))
    ensures RowRuns(ops + [op], y, a, b, mode, x + Len(op))
  {
    Parts(ops, [op]);
    OpenEnds(a, b, x, Len(op), WRAPS);
    SameNone(a, b, x + Len(op));
  }

  /** Each run ends where the merging rule says. */
  lemma {:induction false} RowRunsEnd(ops: seq<Op>, y: nat, a: seq<Pixel>, b: seq<Pixel>, mode: TileMode, x: nat,
                                      k: nat)
    requires RowRuns(ops, y, a, b, mode, x) && k < |ops|
    ensures ops[k].Patch? && RunEnds(a, b, ops[k].col, Len(ops[k]))
  {
    var op := ops[|ops| - 1];
    OpenEnds(a, b, op.col, Len(op), WRAPS);
    if k < |ops| - 1 {
      RowRunsEnd(ops[..|ops| - 1], y, a, b, mode, op.col, k);
    }
  }

  /** The runs are inside the row ... */
  lemma {:induction false} RowRunsInside(ops: seq<Op>, y: nat, a: seq<Pixel>, b: seq<Pixel>, mode: TileMode, x: nat)
    requires RowRuns(ops, y, a, b, mode, x)
    ensures x <= |a| == |b|
    ensures forall k :: 0 <= k < |ops| ==> Run(ops[k], y, a, b, mode) && ops[k].col + Len(ops[k]) <= x
  {
    if ops != [] {
      var front, op := ops[..|ops| - 1], ops[|ops| - 1];
      RowRunsInside(front, y, a, b, mode, op.col);
      assert forall k :: 0 <= k < |front| ==> front[k] == ops[k];
    }
  }

  /** ... disjoint and increasing ... */
  lemma {:induction false} RowRunsIncreasing(ops: seq<Op>, y: nat, a: seq<Pixel>, b: seq<Pixel>, mode: TileMode,
      x: nat, j: nat, k: nat)
    requires RowRuns(ops, y, a, b, mode, x) && j < k < |ops|
    ensures ops[j].Patch? && ops[k].Patch? && ops[j].col + Len(ops[j]) <= ops[k].col
  {
    var front, op := ops[..|ops| - 1], ops[|ops| - 1];
    if k < |front| {
      RowRunsIncreasing(front, y, a, b, mode, op.col, j, k);
    } else {
      RowRunsInside(front, y, a, b, mode, op.col);
      assert front[j] == ops[j];
    }
  }

  /** ... and cover every difference. */
  lemma {:induction false} RowRunsCover(ops: seq<Op>, y: nat, a: seq<Pixel>, b: seq<Pixel>, mode: TileMode,
      x: nat, i: nat)
    requires RowRuns(ops, y, a, b, mode, x) && i < x <= |a| == |b| && a[i] != b[i]
    ensures exists k :: 0 <= k < |ops| && Covers(ops[k], i)
  {
    if ops == [] {
      SameAt(a, b, 0, x, i);
    } else {
      var front, op := ops[..|ops| - 1], ops[|ops| - 1];
      if i < op.col {
        RowRunsCover(front, y, a, b, mode, op.col, i);
        var k :| 0 <= k < |front| && Covers(front[k], i);
        assert Covers(ops[k], i);
      } else if i < op.col + Len(op) {
        assert Covers(ops[|ops| - 1], i);
      } else {
        SameAt(a, b, op.col + Len(op), x, i);
      }
    }
  }

  // ---------- what the runs do to the row ----------

  function Merge(a: seq<Pixel>, b: seq<Pixel>, x: nat): seq<Pixel>
    requires |a| == |b| && x <= |a|
  {
    b[..x] + a[x..]
  }

  lemma {:induction false} SpliceMiddle(x: seq<Byte>, y: seq<Byte>, z: seq<Byte>, y': seq<Byte>)
    requires |y| == |y'|
    ensures Splice(x + y + z, |x|, y') == x + y' + z
  {
  }

  lemma {:induction false} SentSplice(a: seq<Pixel>, b: seq<Pixel>, x: nat, n: nat, mode: TileMode)
    requires |a| == |b| && x + n <= |a|
    ensures Splice(SentBytes(Merge(a, b, x), mode), 4 * x, SentBytes(b[x..x + n], mode))
         == SentBytes(Merge(a, b, x + n), mode)
  {
    var left, old_, run, right := b[..x], a[x..x + n], b[x..x + n], a[x + n..];
    assert Merge(a, b, x) == left + old_ + right;
    assert Merge(a, b, x + n) == left + run + right;
    SentConcat(left + old_, right, mode);
    SentConcat(left, old_, mode);
    SentConcat(left + run, right, mode);
    SentConcat(left, run, mode);
    SpliceMiddle(SentBytes(left, mode), SentBytes(old_, mode), SentBytes(right, mode), SentBytes(run, mode));
  }

  lemma {:induction false} MergeSame(a: seq<Pixel>, b: seq<Pixel>, x: nat, x': nat)
    requires SameBetween(a, b, x, x')
    ensures Merge(a, b, x) == Merge(a, b, x')
  {
    OpenSame(a, b, x, x', WRAPS);
    assert Merge(a, b, x) == b[..x] + a[x..x'] + a[x'..];
    assert Merge(a, b, x') == b[..x] + b[x..x'] + a[x'..];
  }

  lemma {:induction false} MergeNone(a: seq<Pixel>, b: seq<Pixel>, x: nat)
    requires SameBetween(a, b, 0, x)
    ensures Merge(a, b, x) == a
  {
    MergeSame(a, b, 0, x);
    assert Merge(a, b, 0) == a;
  }

  lemma {:induction false} RunApplies(front: seq<Op>, op: Op, y: nat, a: seq<Pixel>, b: seq<Pixel>, mode: TileMode,
      old_: Image, img: Image)
    requires Run(op, y, a, b, mode) && y < |img|
    requires RunOps(front, old_, img) == img[y := SentBytes(Merge(a, b, op.col), mode)]
    ensures RunOps(front + [op], old_, img) == img[y := SentBytes(Merge(a, b, op.col + Len(op)), mode)]
  {
    RunOpsSnoc(front, op, old_, img);
    SentSplice(a, b, op.col, Len(op), mode);
    UpdateTwice(img, y, SentBytes(Merge(a, b, op.col), mode), SentBytes(Merge(a, b, op.col + Len(op)), mode));
  }

  lemma {:induction false} RowRunsLast(ops: seq<Op>, y: nat, a: seq<Pixel>, b: seq<Pixel>, mode: TileMode, x: nat)
    requires RowRuns(ops, y, a, b, mode, x) && ops != []
    ensures var op := ops[|ops| - 1];
            Run(op, y, a, b, mode) && op.col + Len(op) <= x <= |a| == |b| &&
            RowRuns(ops[..|ops| - 1], y, a, b, mode, op.col) && Merge(a, b, op.col + Len(op)) == Merge(a, b, x)
  {
    var op := ops[|ops| - 1];
    MergeSame(a, b, op.col + Len(op), x);
  }

  /** Applied to the old row, the runs below x make everything below x current. */
  lemma {:induction false} RowRunsApply(ops: seq<Op>, y: nat, a: seq<Pixel>, b: seq<Pixel>, mode: TileMode, x: nat,
      old_: Image, img: Image)
    requires RowRuns(ops, y, a, b, mode, x) && y < |img| && img[y] == SentBytes(a, mode)
    ensures x <= |a| == |b|
    ensures RunOps(ops, old_, img) == img[y := SentBytes(Merge(a, b, x), mode)]
  {
    if ops == [] {
      MergeNone(a, b, x);
      SameUpdate(img, y, SentBytes(a, mode));
    } else {
      RowRunsLast(ops, y, a, b, mode, x);
      var front, op := ops[..|ops| - 1], ops[|ops| - 1];
      RowRunsApply(front, y, a, b, mode, op.col, old_, img);
      RunApplies(front, op, y, a, b, mode, old_, img);
      FrontLast(ops);
    }
  }

  // ---------- the method ----------

  /** Two iterators over rows of the same width, both on pixel x. */
  ghost predicate SideBySide(oldPixels: PixIterator, curPixels: PixIterator, a: seq<Pixel>, b: seq<Pixel>, x: nat)
    reads oldPixels, curPixels
  {
    oldPixels != curPixels && oldPixels.px == a && curPixels.px == b &&
    x <= |a| == |b| <= MASKED && oldPixels.At(x + 1) && curPixels.At(x + 1)
  }

  /** Moves both iterators on. */
  method StepBoth(oldPixels: PixIterator, curPixels: PixIterator, ghost x: nat,
                  ghost a: seq<Pixel>, ghost b: seq<Pixel>)
    requires SideBySide(oldPixels, curPixels, a, b, x) && x < |a|
    modifies oldPixels, curPixels
    ensures SideBySide(oldPixels, curPixels, a, b, x + 1)
  {
    oldPixels.Next(x + 1);
    curPixels.Next(x + 1);
  }

  /** Skips the pixels the rows share from column x on. */
  method SkipSame(oldPixels: PixIterator, curPixels: PixIterator, x: nat, width: nat,
                  ghost a: seq<Pixel>, ghost b: seq<Pixel>)
    returns (same: nat)
    requires SideBySide(oldPixels, curPixels, a, b, x) && width == |a|
    modifies oldPixels, curPixels
    ensures SideBySide(oldPixels, curPixels, a, b, x + same)
    ensures SameBetween(a, b, x, x + same)
    ensures x + same < width ==> a[x + same] != b[x + same]
  {
    same := 0;
    SameNone(a, b, x);
    while same + x < width
      invariant SideBySide(oldPixels, curPixels, a, b, x + same)
      invariant SameBetween(a, b, x, x + same)
    {
      var p := oldPixels.GetPixel(x + same);
      var q := curPixels.GetPixel(x + same);
      if p != q {
        break;
      }
      SameOneMore(a, b, x, x + same);
      StepBoth(oldPixels, curPixels, x + same, a, b);
      same := same + 1;
    }
  }

  /** A run of the row from column x on. */
  ghost predicate Collected(b: seq<Pixel>, x: nat, run: seq<Pixel>) {
    x + |run| <= |b| && CollectedWrapped(b, x, run, WRAPS)
  }

  ghost predicate CollectedWrapped(b: seq<Pixel>, x: nat, run: seq<Pixel>, wraps: nat)
    requires x + |run| <= |b|
  {
    if wraps > 0 then CollectedWrapped(b, x, run, wraps - 1) else run == b[x..x + |run|]
  }

  lemma {:induction false} OpenCollected(b: seq<Pixel>, x: nat, run: seq<Pixel>, wraps: nat)
    requires x + |run| <= |b|
    ensures CollectedWrapped(b, x, run, wraps) <==> run == b[x..x + |run|]
  {
    if wraps > 0 {
      OpenCollected(b, x, run, wraps - 1);
    }
  }

  lemma {:induction false} CollectedNone(b: seq<Pixel>, x: nat)
    requires x <= |b|
    ensures Collected(b, x, [])
  {
    OpenCollected(b, x, [], WRAPS);
  }

  lemma {:induction false} CollectedSnoc(b: seq<Pixel>, x: nat, run: seq<Pixel>)
    requires Collected(b, x, run) && x + |run| < |b|
    ensures Collected(b, x, run + [b[x + |run|]])
  {
    OpenCollected(b, x, run, WRAPS);
    OpenCollected(b, x, run + [b[x + |run|]], WRAPS);
    SliceSnoc(b, x, x + |run|);
  }

  /** Collects a run of current pixels from column x on: at least three where the row has
      them, then up to the next shared pixel. */
  method CollectDiff(oldPixels: PixIterator, curPixels: PixIterator, x: nat, width: nat,
                     ghost a: seq<Pixel>, ghost b: seq<Pixel>)
    returns (scratch: seq<Pixel>)
    requires SideBySide(oldPixels, curPixels, a, b, x) && width == |a|
    modifies oldPixels, curPixels
    ensures SideBySide(oldPixels, curPixels, a, b, x + |scratch|)
    ensures |scratch| <= 254 && (x < width ==> scratch != [])
    ensures Collected(b, x, scratch) && RunEnds(a, b, x, |scratch|)
  {
    scratch := [];
    CollectedNone(b, x);
    var diff: nat := 0;
    while diff + x < width && diff < 254
      invariant diff == |scratch| <= 254
      invariant SideBySide(oldPixels, curPixels, a, b, x + diff)
      invariant Collected(b, x, scratch)
      invariant forall i :: x + 3 <= i < x + diff ==> a[i] != b[i]
    {
      var p := oldPixels.GetPixel(x + diff);
      var q := curPixels.GetPixel(x + diff);
      if p == q && diff >= 3 {
        break;
      }
      CollectedSnoc(b, x, scratch);
      scratch := scratch + [q];
      StepBoth(oldPixels, curPixels, x + diff, a, b);
      diff := diff + 1;
    }
  }

  /** Appends one patch operation. */
  method EmitPatch(output: ByteBuffer, curY: nat, x: nat, run: seq<Pixel>, mode: TileMode)
    requires curY < 256 && x < 256 && |run| < 256
    modifies output
    ensures output.bytes == old(output.bytes) + OpBytes(Patch(curY, x, SentBytes(run, mode)))
  {
    PushFour(output, PATCH, U8(curY), U8(x), U8(|run|));
    ghost var header := [PATCH, curY, x, |run|];
    AppendRow(output, run, mode);
    Assoc(old(output.bytes), header, SentBytes(run, mode));
  }

  /** What a partly patched row has produced: its operations and their bytes. */
  ghost predicate Emitted(ops: seq<Op>, y: nat, a: seq<Pixel>, b: seq<Pixel>, mode: TileMode, x: nat,
                          bytes: seq<Byte>) {
    RunsWrapped(ops, y, a, b, mode, x, WRAPS) && BytesWrapped(ops, bytes, WRAPS)
  }

  ghost predicate RunsWrapped(ops: seq<Op>, y: nat, a: seq<Pixel>, b: seq<Pixel>, mode: TileMode, x: nat, wraps: nat) {
    if wraps > 0 then RunsWrapped(ops, y, a, b, mode, x, wraps - 1) else RowRuns(ops, y, a, b, mode, x)
  }

  ghost predicate BytesWrapped(ops: seq<Op>, bytes: seq<Byte>, wraps: nat) {
    if wraps > 0 then BytesWrapped(ops, bytes, wraps - 1) else AllFit(ops) && bytes == Serialize(ops)
  }

  lemma {:induction false} OpenRuns(ops: seq<Op>, y: nat, a: seq<Pixel>, b: seq<Pixel>, mode: TileMode, x: nat,
                                    wraps: nat)
    ensures RunsWrapped(ops, y, a, b, mode, x, wraps) <==> RowRuns(ops, y, a, b, mode, x)
  {
    if wraps > 0 {
      OpenRuns(ops, y, a, b, mode, x, wraps - 1);
    }
  }

  lemma {:induction false} OpenBytes(ops: seq<Op>, bytes: seq<Byte>, wraps: nat)
    ensures BytesWrapped(ops, bytes, wraps) <==> AllFit(ops) && bytes == Serialize(ops)
  {
    if wraps > 0 {
      OpenBytes(ops, bytes, wraps - 1);
    }
  }

  lemma {:induction false} EmittedNone(y: nat, a: seq<Pixel>, b: seq<Pixel>, mode: TileMode)
    requires |a| == |b|
    ensures Emitted([], y, a, b, mode, 0, [])
  {
    SameNone(a, b, 0);
    OpenRuns([], y, a, b, mode, 0, WRAPS);
    OpenBytes([], [], WRAPS);
  }

  lemma {:induction false} EmittedSame(ops: seq<Op>, y: nat, a: seq<Pixel>, b: seq<Pixel>, mode: TileMode, x: nat,
                                       x': nat, bytes: seq<Byte>)
    requires Emitted(ops, y, a, b, mode, x, bytes) && SameBetween(a, b, x, x')
    ensures Emitted(ops, y, a, b, mode, x', bytes)
  {
    OpenRuns(ops, y, a, b, mode, x, WRAPS);
    OpenRuns(ops, y, a, b, mode, x', WRAPS);
    RowRunsSame(ops, y, a, b, mode, x, x');
  }

  lemma {:induction false} NewRun(op: Op, y: nat, a: seq<Pixel>, b: seq<Pixel>, mode: TileMode, x: nat, n: nat)
    requires |a| == |b| <= 256 && y < 256 && 1 <= n <= 254 && x + n <= |a| && a[x] != b[x]
    requires op == Patch(y, x, SentBytes(b[x..x + n], mode))
    ensures Fits(op) && Run(op, y, a, b, mode) && Len(op) == n
  {
  }

  lemma {:induction false} RunsSnoc(ops: seq<Op>, op: Op, y: nat, a: seq<Pixel>, b: seq<Pixel>, mode: TileMode, x: nat)
    requires RunsWrapped(ops, y, a, b, mode, x, WRAPS) && Run(op, y, a, b, mode) && op.col == x
    requires RunEnds(a, b, x, Len(op))
    ensures RunsWrapped(ops + [op], y, a, b, mode, x + Len(op), WRAPS)
  {
    OpenRuns(ops, y, a, b, mode, x, WRAPS);
    RowRunsSnoc(ops, op, y, a, b, mode, x);
    OpenRuns(ops + [op], y, a, b, mode, x + Len(op), WRAPS);
  }

  lemma {:induction false} BytesSnoc(ops: seq<Op>, op: Op, bytes: seq<Byte>)
    requires BytesWrapped(ops, bytes, WRAPS) && Fits(op)
    ensures BytesWrapped(ops + [op], bytes + OpBytes(op), WRAPS)
  {
    OpenBytes(ops, bytes, WRAPS);
    SerializeSnoc(ops, op);
    OpenBytes(ops + [op], bytes + OpBytes(op), WRAPS);
  }

  lemma {:induction false} EmittedRun(ops: seq<Op>, y: nat, a: seq<Pixel>, b: seq<Pixel>, mode: TileMode, x: nat,
      run: seq<Pixel>, bytes: seq<Byte>, op: Op)
    requires Emitted(ops, y, a, b, mode, x, bytes) && Collected(b, x, run)
    requires |a| == |b| <= 256 && y < 256 && 1 <= |run| <= 254 && a[x] != b[x] && RunEnds(a, b, x, |run|)
    requires op == Patch(y, x, SentBytes(run, mode))
    ensures Fits(op) && Emitted(ops + [op], y, a, b, mode, x + |run|, bytes + OpBytes(op))
  {
    OpenCollected(b, x, run, WRAPS);
    NewRun(op, y, a, b, mode, x, |run|);
    RunsSnoc(ops, op, y, a, b, mode, x);
    BytesSnoc(ops, op, bytes);
  }

  /** The second half of a turn: the run that starts at column x0, if any. */
  method EmitRun(oldPixels: PixIterator, curPixels: PixIterator, x0: nat, width: nat, curY: nat,
                 output: ByteBuffer, mode: TileMode, ghost a: seq<Pixel>, ghost b: seq<Pixel>,
                 ghost ops0: seq<Op>, ghost emitted: seq<Byte>)
    returns (x: nat, ghost ops: seq<Op>, ghost more: seq<Byte>)
    requires SideBySide(oldPixels, curPixels, a, b, x0) && width == |a| && curY < 256
    requires x0 < width ==> a[x0] != b[x0]
    requires Emitted(ops0, curY, a, b, mode, x0, emitted)
    modifies oldPixels, curPixels, output
    ensures x0 < x || x == width
    ensures SideBySide(oldPixels, curPixels, a, b, x)
    ensures Emitted(ops, curY, a, b, mode, x, emitted + more)
    ensures output.bytes == old(output.bytes) + more
  {
    var run := CollectDiff(oldPixels, curPixels, x0, width, a, b);
    x := x0 + |run|;
    if |run| > 0 {
      ghost var op := Patch(curY, x0, SentBytes(run, mode));
      EmittedRun(ops0, curY, a, b, mode, x0, run, emitted, op);
      EmitPatch(output, curY, x0, run, mode);
      ops, more := ops0 + [op], OpBytes(op);
    } else {
      ops, more := ops0, [];
      EmptyTail(emitted);
      EmptyTail(old(output.bytes));
    }
  }

  /** One turn of the outer loop: from column x0 to the end of the next run. */
  method DiffRun(oldPixels: PixIterator, curPixels: PixIterator, x0: nat, width: nat, curY: nat,
                 output: ByteBuffer, mode: TileMode, ghost a: seq<Pixel>, ghost b: seq<Pixel>,
                 ghost ops0: seq<Op>, ghost emitted: seq<Byte>)
    returns (x: nat, ghost ops: seq<Op>, ghost more: seq<Byte>)
    requires SideBySide(oldPixels, curPixels, a, b, x0) && width == |a|
    requires x0 < width && curY < 256 && Emitted(ops0, curY, a, b, mode, x0, emitted)
    modifies oldPixels, curPixels, output
    ensures x0 < x && SideBySide(oldPixels, curPixels, a, b, x)
    ensures Emitted(ops, curY, a, b, mode, x, emitted + more)
    ensures output.bytes == old(output.bytes) + more
  {
    var same := SkipSame(oldPixels, curPixels, x0, width, a, b);
    EmittedSame(ops0, curY, a, b, mode, x0, x0 + same, emitted);
    x, ops, more := EmitRun(oldPixels, curPixels, x0 + same, width, curY, output, mode, a, b, ops0, emitted);
  }

  /** Reads both rows side by side; writes one patch for each run of differing pixels. */
  method DiffRowTo(prevRow: DeltaBitmapRow, curRow: DeltaBitmapRow, width: nat, curY: nat,
                   output: ByteBuffer, mode: TileMode, ghost a: seq<Pixel>, ghost b: seq<Pixel>)
    returns (ghost ops: seq<Op>)
    requires prevRow.Encodes(a) && curRow.Encodes(b) && |a| == |b| == width <= 256 && curY < 256
    modifies output
    ensures RowRuns(ops, curY, a, b, mode, width) && AllFit(ops)
    ensures output.bytes == old(output.bytes) + Serialize(ops)
  {
    ops := [];
    ghost var emitted: seq<Byte> := [];
    EmittedNone(curY, a, b, mode);
    var oldPixels := new PixIterator(prevRow, a);
    var curPixels := new PixIterator(curRow, b);
    var x: nat := 0;
    while x < width
      invariant SideBySide(oldPixels, curPixels, a, b, x)
      invariant Emitted(ops, curY, a, b, mode, x, emitted)
      invariant output.bytes == old(output.bytes) + emitted
    {
      ghost var more: seq<Byte>;
      x, ops, more := DiffRun(oldPixels, curPixels, x, width, curY, output, mode, a, b, ops, emitted);
      Assoc(old(output.bytes), emitted, more);
      emitted := emitted + more;
    }
    OpenRuns(ops, curY, a, b, mode, width, WRAPS);
    OpenBytes(ops, emitted, WRAPS);
  }
}

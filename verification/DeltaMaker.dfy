/** `makeDelta`: the program that turns the previous tile into the current one (kit/Delta.hpp). */
module DeltaMaker {
  import opened Numbers
  import opened Pixels
  import opened Seqs
  import opened RowCodec
  import opened Buffers
  import opened BitmapRows
  import opened DeltaFormat
  import opened RowDiff
  import opened Tiles

  // ---------- what a program is made of ----------

  predicate NoneEqual(rows: Rows, row: seq<Pixel>) {
    forall r :: 0 <= r < |rows| ==> rows[r] != row
  }

  /** A copy names previous rows equal to the current rows it writes; a patch is for a row no
      previous row equals. Both only ever write rows that changed. */
  ghost predicate OpOk(op: Op, p: Rows, c: Rows, mode: TileMode) {
    |p| == |c| &&
    match op
    case Copy(count, src, dest) =>
      1 <= count && src + count <= |p| && dest + count <= |c| &&
      forall y :: dest <= y < dest + count ==> c[y] == p[src + (y - dest)] && c[y] != p[y]
    case Patch(row, _, _) =>
      row < |c| && Run(op, row, p[row], c[row], mode) && NoneEqual(p, c[row])
  }

  ghost predicate OpsOk(ops: seq<Op>, p: Rows, c: Rows, mode: TileMode) {
    forall k :: 0 <= k < |ops| ==> OpOk(ops[k], p, c, mode)
  }

  /** Every operation of a program stays inside the tile. */
  lemma {:induction false} OpsOkInBounds(ops: seq<Op>, p: Rows, c: Rows, mode: TileMode, width: nat)
    requires OpsOk(ops, p, c, mode) && AllWide(c, width)
    ensures AllInBounds(ops, 4 * width, |c|)
  {
    forall k | 0 <= k < |ops| ensures InBounds(ops[k], 4 * width, |c|) {
      assert OpOk(ops[k], p, c, mode);
    }
  }

  /** The current tile down to row y, the previous one from there. */
  function Mixed(p: Rows, c: Rows, y: nat): Rows
    requires |p| == |c| && y <= |p|
  {
    c[..y] + p[y..]
  }

  /** The operations so far make every row above y current. */
  ghost predicate Progress(ops: seq<Op>, p: Rows, c: Rows, mode: TileMode, y: nat) {
    |p| == |c| && y <= |p| && OpsOk(ops, p, c, mode) &&
    RunOps(ops, ImageOf(p, mode), ImageOf(p, mode)) == ImageOf(Mixed(p, c, y), mode) &&
    (ops == [] ==> Mixed(p, c, y) == p)
  }

  lemma {:induction false} MixedStep(p: Rows, c: Rows, y: nat)
    requires |p| == |c| && y < |p|
    ensures Mixed(p, c, y)[y] == p[y] && Mixed(p, c, y + 1) == Mixed(p, c, y)[y := c[y]]
  {
  }

  /** An equal row needs no operation. */
  lemma {:induction false} ProgressSame(ops: seq<Op>, p: Rows, c: Rows, mode: TileMode, y: nat)
    requires Progress(ops, p, c, mode, y) && y < |p| && p[y] == c[y]
    ensures Progress(ops, p, c, mode, y + 1)
  {
    MixedStep(p, c, y);
    SameUpdate(Mixed(p, c, y), y, c[y]);
  }

  /** Operations that write row y only, and write it as it should be. */
  lemma {:induction false} ProgressRow(ops: seq<Op>, ops': seq<Op>, p: Rows, c: Rows, mode: TileMode, y: nat)
    requires Progress(ops, p, c, mode, y) && y < |p| && ops' != [] && OpsOk(ops', p, c, mode)
    requires RunOps(ops', ImageOf(p, mode), ImageOf(p, mode))
          == RunOps(ops, ImageOf(p, mode), ImageOf(p, mode))[y := SentBytes(c[y], mode)]
    ensures Progress(ops', p, c, mode, y + 1)
  {
    MixedStep(p, c, y);
    ImageUpdate(Mixed(p, c, y), mode, y, c[y]);
  }

  lemma {:induction false} OpsOkSnoc(ops: seq<Op>, op: Op, p: Rows, c: Rows, mode: TileMode)
    requires OpsOk(ops, p, c, mode) && OpOk(op, p, c, mode)
    ensures OpsOk(ops + [op], p, c, mode)
  {
  }

  lemma {:induction false} CopyOneRow(old_: Image, img: Image, src: nat, y: nat)
    requires src < |old_| && y < |img|
    ensures CopyRows(old_, img, 1, src, y) == img[y := old_[src]]
  {
  }

  lemma {:induction false} CopyOneMore(old_: Image, img: Image, count: nat, src: nat, dest: nat)
    requires src + count < |old_| && dest + count < |img|
    ensures CopyRows(old_, img, count + 1, src, dest)
         == CopyRows(old_, img, count, src, dest)[dest + count := old_[src + count]]
  {
  }

  /** A new copy of one row. */
  lemma {:induction false} ProgressCopy(ops: seq<Op>, p: Rows, c: Rows, mode: TileMode, y: nat, src: nat)
    requires Progress(ops, p, c, mode, y) && y < |p| && src < |p| && p[src] == c[y] && p[y] != c[y]
    ensures Progress(ops + [Copy(1, src, y)], p, c, mode, y + 1)
  {
    var op, old_ := Copy(1, src, y), ImageOf(p, mode);
    RunOpsSnoc(ops, op, old_, old_);
    CopyOneRow(old_, RunOps(ops, old_, old_), src, y);
    ImageAt(p, mode, src);
    OpsOkSnoc(ops, op, p, c, mode);
    ProgressRow(ops, ops + [op], p, c, mode, y);
  }

  /** What the grown copy does to the image. */
  lemma {:induction false} GrownRuns(front: seq<Op>, op: Op, p: Rows, img: Image, mode: TileMode)
    requires op.Copy? && op.src + op.count < |p| && op.dest + op.count < |img|
    ensures RunOps(front + [op.(count := op.count + 1)], ImageOf(p, mode), img)
         == RunOps(front + [op], ImageOf(p, mode), img)[op.dest + op.count := SentBytes(p[op.src + op.count], mode)]
  {
    var more, old_ := op.(count := op.count + 1), ImageOf(p, mode);
    RunOpsSnoc(front, op, old_, img);
    RunOpsSnoc(front, more, old_, img);
    CopyOneMore(old_, RunOps(front, old_, img), op.count, op.src, op.dest);
    ImageAt(p, mode, op.src + op.count);
  }

  /** The last copy grows by one row. */
  lemma {:induction false} ProgressGrow(front: seq<Op>, op: Op, p: Rows, c: Rows, mode: TileMode, y: nat)
    requires Progress(front + [op], p, c, mode, y) && y < |p|
    requires op.Copy? && op.dest + op.count == y && op.src + op.count < |p|
    requires p[op.src + op.count] == c[y] && p[y] != c[y]
    ensures Progress(front + [op.(count := op.count + 1)], p, c, mode, y + 1)
  {
    GrownRuns(front, op, p, ImageOf(p, mode), mode);
    GrownOk(front, op, p, c, mode, y);
    ProgressRow(front + [op], front + [op.(count := op.count + 1)], p, c, mode, y);
  }

  lemma {:induction false} GrownOk(front: seq<Op>, op: Op, p: Rows, c: Rows, mode: TileMode, y: nat)
    requires OpsOk(front + [op], p, c, mode) && |p| == |c| && y < |p|
    requires op.Copy? && op.dest + op.count == y && op.src + op.count < |p|
    requires p[op.src + op.count] == c[y] && p[y] != c[y]
    ensures OpsOk(front + [op.(count := op.count + 1)], p, c, mode)
  {
    assert OpOk((front + [op])[|front|], p, c, mode);
    assert OpOk(op.(count := op.count + 1), p, c, mode);
    forall k | 0 <= k < |front| ensures OpOk(front[k], p, c, mode) {
      assert OpOk((front + [op])[k], p, c, mode);
    }
  }

  /** A row of its own. */
  lemma {:induction false} ProgressPatch(ops: seq<Op>, rowOps: seq<Op>, p: Rows, c: Rows, mode: TileMode, y: nat)
    requires Progress(ops, p, c, mode, y) && y < |p| && |p[y]| == |c[y]|
    requires RowRuns(rowOps, y, p[y], c[y], mode, |p[y]|) && NoneEqual(p, c[y])
    ensures Progress(ops + rowOps, p, c, mode, y + 1) && rowOps != []
  {
    var old_ := ImageOf(p, mode);
    RunOpsConcat(ops, rowOps, old_, old_);
    MixedStep(p, c, y);
    ImageAt(Mixed(p, c, y), mode, y);
    RowRunsApply(rowOps, y, p[y], c[y], mode, |p[y]|, old_, RunOps(ops, old_, old_));
    MergeAll(p[y], c[y]);
    PatchesOk(ops, rowOps, p, c, mode, y);
    ProgressRow(ops, ops + rowOps, p, c, mode, y);
  }

  lemma {:induction false} MergeAll(a: seq<Pixel>, b: seq<Pixel>)
    requires |a| == |b|
    ensures Merge(a, b, |a|) == b
  {
  }

  lemma {:induction false} PatchesOk(ops: seq<Op>, rowOps: seq<Op>, p: Rows, c: Rows, mode: TileMode, y: nat)
    requires OpsOk(ops, p, c, mode) && |p| == |c| && y < |p|
    requires RowRuns(rowOps, y, p[y], c[y], mode, |p[y]|) && NoneEqual(p, c[y])
    ensures OpsOk(ops + rowOps, p, c, mode) && rowOps != []
  {
    RowRunsInside(rowOps, y, p[y], c[y], mode, |p[y]|);
    if rowOps == [] {
      MergeNone(p[y], c[y], |p[y]|);
      MergeAll(p[y], c[y]);
      assert false;
    }
    forall k | 0 <= k < |rowOps| ensures OpOk(rowOps[k], p, c, mode) {
      assert Run(rowOps[k], y, p[y], c[y], mode);
    }
  }

  // ---------- the hunt for an equal row ----------

  /** The row probed in turn yn of the hunt for row y. */
  function Probe(y: nat, lastMatchOffset: nat, yn: nat, height: nat): nat
    requires height > 0
  {
    ((y + lastMatchOffset + yn) % SIZE_T) % height
  }

  /** The offset was taken when row y0 matched previous row m0, in wrapping arithmetic. */
  ghost predicate OffsetFrom(lastMatchOffset: nat, m0: nat, y0: nat) {
    m0 < 256 && y0 < 256 && lastMatchOffset == (m0 - y0) % SIZE_T
  }

  /** The row k places behind a base, going round a tile. */
  function Around(base: nat, k: nat, height: nat): nat
    requires height > 0
  {
    (base + k) % height
  }

  /** The wrap-around of the subtraction and of the addition cancel out. */
  lemma {:induction false} ProbeUnwrapped(y: nat, lastMatchOffset: nat, yn: nat, height: nat, m0: nat, y0: nat)
    requires OffsetFrom(lastMatchOffset, m0, y0) && y0 <= y < 256 && yn < height <= 256
    ensures Probe(y, lastMatchOffset, yn, height) == Around(m0 + (y - y0), yn, height)
  {
    var sum := m0 + (y - y0) + yn;
    assert y + lastMatchOffset + yn == sum || y + lastMatchOffset + yn == sum + SIZE_T;
  }

  /** A remainder is what is left once the right multiple is taken away. */
  lemma {:induction false} Remainder(x: nat, h: nat, j: nat, r: nat)
    requires x == j * h + r && r < h
    ensures x % h == r
  {
    var q := x / h;
    assert x == q * h + x % h;
    if q < j {
      MulMonotone(q + 1, j, h);
    } else if q > j {
      MulMonotone(j + 1, q, h);
    }
  }

  /** Probing `height` rows one after the other visits every row. */
  lemma {:induction false} ProbesVisit(base: nat, h: nat, r: nat)
    requires r < h
    ensures exists k :: 0 <= k < h && Around(base, k, h) == r
  {
    var q, b := base / h, base % h;
    assert base == q * h + b;
    if r >= b {
      Remainder(base + (r - b), h, q, r);
      assert Around(base, r - b, h) == r;
    } else {
      var k := r - b + h;
      assert base + k == (q + 1) * h + r;
      Remainder(base + k, h, q + 1, r);
      assert Around(base, k, h) == r;
    }
  }

  /** Looks for a previous row equal to the current one, starting where the last one was. */
  method HuntRow(prevRows: seq<DeltaBitmapRow>, curRow: DeltaBitmapRow, y: nat, lastMatchOffset: nat,
                 ghost p: Rows, ghost row: seq<Pixel>, ghost m0: nat, ghost y0: nat)
    returns (matched: bool, match_: nat)
    requires RowsEncode(prevRows, p) && curRow.Encodes(row) && AllWide(p, |row|)
    requires y < |p| <= 256 && y0 <= y && OffsetFrom(lastMatchOffset, m0, y0)
    ensures matched ==> match_ < |p| && p[match_] == row
    ensures matched ==> FoundFrom(m0 + (y - y0), match_, p, row)
    ensures !matched ==> NoneEqual(p, row)
  {
    var height := |prevRows|;
    ghost var base, at: nat := m0 + (y - y0), 0;
    matched, match_ := false, 0;
    var yn: nat := 0;
    while yn < height && !matched
      invariant yn <= height
      invariant matched ==> match_ < height && p[match_] == row
      invariant matched ==> at < height && match_ == Around(base, at, height)
      invariant matched ==> forall k :: 0 <= k < at ==> p[Around(base, k, height)] != row
      invariant !matched ==> forall k :: 0 <= k < yn ==> p[Around(base, k, height)] != row
    {
      match_, at := Probe(y, lastMatchOffset, yn, height), yn;
      ProbeUnwrapped(y, lastMatchOffset, yn, height, m0, y0);
      matched := prevRows[match_].Identical(curRow, p[match_], row);
      yn := yn + 1;
    }
    if matched {
      assert IsFirst(base, at, match_, p, row);
    } else {
      forall r | 0 <= r < |p| ensures p[r] != row {
        ProbesVisit(base, height, r);
      }
    }
  }

  /** The match is the first there is, going round the tile from a base. */
  ghost predicate IsFirst(base: nat, at: nat, match_: nat, p: Rows, row: seq<Pixel>)
    requires p != []
  {
    match_ == (base + at) % |p| && forall k :: 0 <= k < at ==> p[Around(base, k, |p|)] != row
  }

  ghost predicate FoundFrom(base: nat, match_: nat, p: Rows, row: seq<Pixel>)
    requires p != []
  {
    exists at :: 0 <= at < |p| && IsFirst(base, at, match_, p, row)
  }

  /** The first row of a copy is the first match from where the last copy was taken. */
  ghost predicate FoundFirst(m0: nat, y0: nat, copy: Op, p: Rows, c: Rows)
    requires copy.Copy?
  {
    y0 <= copy.dest < |c| == |p| && FoundFrom(m0 + (copy.dest - y0), copy.src, p, c[copy.dest])
  }

  /** The source and the destination of the last copy; 0 when there is none. */
  function LastCopy(ops: seq<Op>): (nat, nat) {
    if ops == [] then (0, 0)
    else if ops[|ops| - 1].Copy? then (ops[|ops| - 1].src, ops[|ops| - 1].dest)
    else LastCopy(ops[..|ops| - 1])
  }

  /** So it is for every copy of a program. */
  ghost predicate AllFoundFirst(ops: seq<Op>, p: Rows, c: Rows) {
    ops == [] ||
    var front, op := ops[..|ops| - 1], ops[|ops| - 1];
    AllFoundFirst(front, p, c) && (op.Copy? ==> FoundFirst(LastCopy(front).0, LastCopy(front).1, op, p, c))
  }

  ghost predicate Hunted(ops: seq<Op>, m0: nat, y0: nat, p: Rows, c: Rows, wraps: nat) {
    if wraps > 0 then Hunted(ops, m0, y0, p, c, wraps - 1)
    else AllFoundFirst(ops, p, c) && LastCopy(ops) == (m0, y0)
  }

  lemma {:induction false} OpenHunted(ops: seq<Op>, m0: nat, y0: nat, p: Rows, c: Rows, wraps: nat)
    ensures Hunted(ops, m0, y0, p, c, wraps) <==> AllFoundFirst(ops, p, c) && LastCopy(ops) == (m0, y0)
  {
    if wraps > 0 {
      OpenHunted(ops, m0, y0, p, c, wraps - 1);
    }
  }

  lemma {:induction false} FoundPatches(ops: seq<Op>, patches: seq<Op>, p: Rows, c: Rows)
    requires AllFoundFirst(ops, p, c) && forall k :: 0 <= k < |patches| ==> patches[k].Patch?
    ensures AllFoundFirst(ops + patches, p, c) && LastCopy(ops + patches) == LastCopy(ops)
  {
    if patches == [] {
      EmptyTail(ops);
    } else {
      FoundPatches(ops, patches[..|patches| - 1], p, c);
      FrontOfConcat(ops, patches);
    }
  }

  lemma {:induction false} HuntedPatches(ops: seq<Op>, patches: seq<Op>, m0: nat, y0: nat, p: Rows, c: Rows)
    requires Hunted(ops, m0, y0, p, c, WRAPS) && forall k :: 0 <= k < |patches| ==> patches[k].Patch?
    ensures Hunted(ops + patches, m0, y0, p, c, WRAPS)
  {
    OpenHunted(ops, m0, y0, p, c, WRAPS);
    OpenHunted(ops + patches, m0, y0, p, c, WRAPS);
    FoundPatches(ops, patches, p, c);
  }

  lemma {:induction false} HuntedNew(ops: seq<Op>, match_: nat, y: nat, m0: nat, y0: nat, p: Rows, c: Rows)
    requires Hunted(ops, m0, y0, p, c, WRAPS) && y0 <= y < |c| == |p|
    requires FoundFrom(m0 + (y - y0), match_, p, c[y])
    ensures Hunted(ops + [Copy(1, match_, y)], match_, y, p, c, WRAPS)
  {
    OpenHunted(ops, m0, y0, p, c, WRAPS);
    OpenHunted(ops + [Copy(1, match_, y)], match_, y, p, c, WRAPS);
    Parts(ops, [Copy(1, match_, y)]);
    assert FoundFirst(m0, y0, Copy(1, match_, y), p, c);
  }

  lemma {:induction false} HuntedLonger(ops: seq<Op>, copy: Op, m0: nat, y0: nat, p: Rows, c: Rows)
    requires Hunted(ops, m0, y0, p, c, WRAPS) && ops != [] && ops[|ops| - 1].Copy?
    requires copy == ops[|ops| - 1].(count := ops[|ops| - 1].count + 1)
    ensures Hunted(ops[..|ops| - 1] + [copy], m0, y0, p, c, WRAPS)
  {
    var front, ops' := ops[..|ops| - 1], ops[..|ops| - 1] + [copy];
    OpenHunted(ops, m0, y0, p, c, WRAPS);
    OpenHunted(ops', m0, y0, p, c, WRAPS);
    Parts(front, [copy]);
    assert ops'[..|ops'| - 1] == front && ops'[|ops'| - 1] == copy;
    assert FoundFirst(LastCopy(front).0, LastCopy(front).1, ops[|ops| - 1], p, c);
    assert FoundFirst(LastCopy(front).0, LastCopy(front).1, copy, p, c);
  }

  // ---------- emitting copies ----------

  ghost predicate ProgressWrapped(ops: seq<Op>, p: Rows, c: Rows, mode: TileMode, y: nat, wraps: nat) {
    if wraps > 0 then ProgressWrapped(ops, p, c, mode, y, wraps - 1) else Progress(ops, p, c, mode, y)
  }

  lemma {:induction false} OpenProgress(ops: seq<Op>, p: Rows, c: Rows, mode: TileMode, y: nat, wraps: nat)
    ensures ProgressWrapped(ops, p, c, mode, y, wraps) <==> Progress(ops, p, c, mode, y)
  {
    if wraps > 0 {
      OpenProgress(ops, p, c, mode, y, wraps - 1);
    }
  }

  /** The bytes behind `lastCopy` are the fields of a copy. */
  ghost predicate CopyAt(bytes: seq<Byte>, lastCopy: nat, copy: Op) {
    copy.Copy? && lastCopy + 2 < |bytes| &&
    bytes[lastCopy] == copy.count && bytes[lastCopy + 1] == copy.src && bytes[lastCopy + 2] == copy.dest
  }

  ghost predicate LastIs(ops: seq<Op>, copy: Op, lastCopy: nat) {
    ops != [] && ops[|ops| - 1] == copy && AllFit(ops[..|ops| - 1]) &&
    lastCopy == |Serialize(ops[..|ops| - 1])| + 1
  }

  /** `lastCopy` points into the last copy; only the very last operation can end at row y. */
  ghost predicate CopyState(ops: seq<Op>, bytes: seq<Byte>, lastCopy: nat, copy: Op, y: nat) {
    && (lastCopy > 0 ==>
          CopyAt(bytes, lastCopy, copy) && copy.dest + copy.count <= y &&
          (copy.dest + copy.count == y ==> LastIs(ops, copy, lastCopy)))
    && (ops != [] && ops[|ops| - 1].Copy? ==> lastCopy > 0 && copy == ops[|ops| - 1])
  }

  // ---------- copies grow as far as they can ----------

  /** The second copy goes on where the first ends, and the first was free to grow: the row behind the
      row it would have read next is still inside the tile. */
  predicate CouldJoin(first: Op, second: Op, height: nat) {
    && first.Copy? && second.Copy?
    && second.src == first.src + first.count && second.dest == first.dest + first.count
    && first.src + first.count + 1 < height
  }

  /** No two consecutive copies could have been one. */
  ghost predicate CopiesGrown(ops: seq<Op>, height: nat) {
    forall k :: 0 < k < |ops| ==> !CouldJoin(ops[k - 1], ops[k], height)
  }

  ghost predicate GrownWrapped(ops: seq<Op>, height: nat, wraps: nat) {
    if wraps > 0 then GrownWrapped(ops, height, wraps - 1) else CopiesGrown(ops, height)
  }

  lemma {:induction false} OpenGrown(ops: seq<Op>, height: nat, wraps: nat)
    ensures GrownWrapped(ops, height, wraps) <==> CopiesGrown(ops, height)
  {
    if wraps > 0 {
      OpenGrown(ops, height, wraps - 1);
    }
  }

  lemma {:induction false} GrownNew(ops: seq<Op>, copy: Op, height: nat)
    requires GrownWrapped(ops, height, WRAPS) && (ops != [] ==> !CouldJoin(ops[|ops| - 1], copy, height))
    ensures GrownWrapped(ops + [copy], height, WRAPS)
  {
    OpenGrown(ops, height, WRAPS);
    OpenGrown(ops + [copy], height, WRAPS);
    forall k | 0 < k < |ops| + 1 ensures !CouldJoin((ops + [copy])[k - 1], (ops + [copy])[k], height) {
      if k < |ops| {
        assert !CouldJoin(ops[k - 1], ops[k], height);
      }
    }
  }

  lemma {:induction false} GrownLonger(ops: seq<Op>, copy: Op, height: nat)
    requires GrownWrapped(ops, height, WRAPS) && ops != [] && ops[|ops| - 1].Copy?
    requires copy == ops[|ops| - 1].(count := ops[|ops| - 1].count + 1)
    ensures GrownWrapped(ops[..|ops| - 1] + [copy], height, WRAPS)
  {
    var ops' := ops[..|ops| - 1] + [copy];
    OpenGrown(ops, height, WRAPS);
    OpenGrown(ops', height, WRAPS);
    forall k | 0 < k < |ops'| ensures !CouldJoin(ops'[k - 1], ops'[k], height) {
      assert !CouldJoin(ops[k - 1], ops[k], height);
    }
  }

  lemma {:induction false} GrownPatches(ops: seq<Op>, patches: seq<Op>, height: nat)
    requires GrownWrapped(ops, height, WRAPS) && forall k :: 0 <= k < |patches| ==> patches[k].Patch?
    ensures GrownWrapped(ops + patches, height, WRAPS)
  {
    var ops' := ops + patches;
    OpenGrown(ops, height, WRAPS);
    OpenGrown(ops', height, WRAPS);
    forall k | 0 < k < |ops'| ensures !CouldJoin(ops'[k - 1], ops'[k], height) {
      if k < |ops| {
        assert !CouldJoin(ops[k - 1], ops[k], height);
      } else {
        assert ops'[k] == patches[k - |ops|];
      }
    }
  }

  lemma {:induction false} GrownBytes(front: seq<Op>, op: Op)
    requires AllFit(front) && Fits(op) && op.Copy? && op.count + 1 < 256
    ensures var more := op.(count := op.count + 1);
            AllFit(front + [op]) && AllFit(front + [more]) &&
            |Serialize(front + [op])| == |Serialize(front)| + 4 &&
            Serialize(front + [op])[|Serialize(front)| + 1 := op.count + 1] == Serialize(front + [more])
  {
    var more := op.(count := op.count + 1);
    SerializeSnoc(front, op);
    SerializeSnoc(front, more);
    UpdateTail(Serialize(front), OpBytes(op), 1, op.count + 1);
    assert OpBytes(op)[1 := op.count + 1] == OpBytes(more);
  }

  /** Extends the last copy in place. */
  method GrowCopy(output: ByteBuffer, lastCopy: nat, ghost ops: seq<Op>, ghost copy: Op)
    returns (ghost ops': seq<Op>, ghost copy': Op)
    requires BytesWrapped(ops, output.bytes, WRAPS) && lastCopy > 0
    requires CopyAt(output.bytes, lastCopy, copy) && LastIs(ops, copy, lastCopy) && copy.count + 1 < 256
    modifies output
    ensures copy' == copy.(count := copy.count + 1) && ops' == ops[..|ops| - 1] + [copy']
    ensures BytesWrapped(ops', output.bytes, WRAPS)
    ensures CopyAt(output.bytes, lastCopy, copy') && LastIs(ops', copy', lastCopy)
  {
    ghost var front := ops[..|ops| - 1];
    copy' := copy.(count := copy.count + 1);
    ops' := front + [copy'];
    OpenBytes(ops, output.bytes, WRAPS);
    FrontLast(ops);
    GrownBytes(front, copy);
    output.Set(lastCopy, output.bytes[lastCopy] + 1);
    OpenBytes(ops', output.bytes, WRAPS);
    Parts(front, [copy']);
  }

  /** Starts a new copy of one row. */
  method NewCopy(output: ByteBuffer, match_: nat, y: nat, ghost ops: seq<Op>)
    returns (lastCopy: nat, ghost copy: Op)
    requires BytesWrapped(ops, output.bytes, WRAPS) && match_ < 256 && y < 256
    modifies output
    ensures copy == Copy(1, match_, y) && lastCopy > 0
    ensures BytesWrapped(ops + [copy], output.bytes, WRAPS)
    ensures CopyAt(output.bytes, lastCopy, copy) && LastIs(ops + [copy], copy, lastCopy)
  {
    copy := Copy(1, match_, y);
    OpenBytes(ops, output.bytes, WRAPS);
    BytesSnoc(ops, copy, output.bytes);
    lastCopy := |output.bytes| + 1;
    PushFour(output, COPY, 1, U8(match_), U8(y));
    Parts(ops, [copy]);
  }

  /** The proof's view of a program in the making: its operations, the last copy, and the
      match the current offset was taken from. */
  datatype Making = Making(ops: seq<Op>, copy: Op, m0: nat, y0: nat)

  ghost predicate Good(g: Making, bytes: seq<Byte>, lastMatchOffset: nat, lastCopy: nat,
      p: Rows, c: Rows, mode: TileMode, y: nat)
  {
    BytesWrapped(g.ops, bytes, WRAPS) && ProgressWrapped(g.ops, p, c, mode, y, WRAPS) &&
    CopyState(g.ops, bytes, lastCopy, g.copy, y) &&
    OffsetFrom(lastMatchOffset, g.m0, g.y0) && g.y0 <= y && GrownWrapped(g.ops, |p|, WRAPS) &&
    Hunted(g.ops, g.m0, g.y0, p, c, WRAPS)
  }

  lemma {:induction false} WrappedSame(ops: seq<Op>, p: Rows, c: Rows, mode: TileMode, y: nat)
    requires ProgressWrapped(ops, p, c, mode, y, WRAPS) && y < |p| == |c| && p[y] == c[y]
    ensures ProgressWrapped(ops, p, c, mode, y + 1, WRAPS)
  {
    OpenProgress(ops, p, c, mode, y, WRAPS);
    ProgressSame(ops, p, c, mode, y);
    OpenProgress(ops, p, c, mode, y + 1, WRAPS);
  }

  lemma {:induction false} WrappedCopy(ops: seq<Op>, p: Rows, c: Rows, mode: TileMode, y: nat, src: nat)
    requires ProgressWrapped(ops, p, c, mode, y, WRAPS)
    requires y < |p| == |c| && src < |p| && p[src] == c[y] && p[y] != c[y]
    ensures ProgressWrapped(ops + [Copy(1, src, y)], p, c, mode, y + 1, WRAPS)
  {
    OpenProgress(ops, p, c, mode, y, WRAPS);
    ProgressCopy(ops, p, c, mode, y, src);
    OpenProgress(ops + [Copy(1, src, y)], p, c, mode, y + 1, WRAPS);
  }

  lemma {:induction false} WrappedGrow(ops: seq<Op>, copy: Op, p: Rows, c: Rows, mode: TileMode, y: nat)
    requires ProgressWrapped(ops, p, c, mode, y, WRAPS) && ops != [] && ops[|ops| - 1] == copy && copy.Copy?
    requires y < |p| == |c| && copy.dest + copy.count == y && copy.src + copy.count < |p|
    requires p[copy.src + copy.count] == c[y] && p[y] != c[y]
    ensures ProgressWrapped(ops[..|ops| - 1] + [copy.(count := copy.count + 1)], p, c, mode, y + 1, WRAPS)
  {
    var front := ops[..|ops| - 1];
    FrontLast(ops);
    OpenProgress(ops, p, c, mode, y, WRAPS);
    ProgressGrow(front, copy, p, c, mode, y);
    OpenProgress(front + [copy.(count := copy.count + 1)], p, c, mode, y + 1, WRAPS);
  }

  lemma {:induction false} WrappedPatch(ops: seq<Op>, rowOps: seq<Op>, p: Rows, c: Rows, mode: TileMode, y: nat)
    requires ProgressWrapped(ops, p, c, mode, y, WRAPS) && y < |p| == |c| && |p[y]| == |c[y]|
    requires RowRuns(rowOps, y, p[y], c[y], mode, |p[y]|) && NoneEqual(p, c[y])
    ensures ProgressWrapped(ops + rowOps, p, c, mode, y + 1, WRAPS)
    ensures rowOps != [] && forall k :: 0 <= k < |rowOps| ==> rowOps[k].Patch?
  {
    RowRunsInside(rowOps, y, p[y], c[y], mode, |p[y]|);
    forall k | 0 <= k < |rowOps| ensures rowOps[k].Patch? {
      assert Run(rowOps[k], y, p[y], c[y], mode);
    }
    OpenProgress(ops, p, c, mode, y, WRAPS);
    ProgressPatch(ops, rowOps, p, c, mode, y);
    OpenProgress(ops + rowOps, p, c, mode, y + 1, WRAPS);
  }

  lemma {:induction false} BytesConcat(ops: seq<Op>, more: seq<Op>, bytes: seq<Byte>)
    requires BytesWrapped(ops, bytes, WRAPS) && AllFit(more)
    ensures BytesWrapped(ops + more, bytes + Serialize(more), WRAPS)
  {
    OpenBytes(ops, bytes, WRAPS);
    SerializeConcat(ops, more);
    OpenBytes(ops + more, bytes + Serialize(more), WRAPS);
  }

  /** Row y is a copy of row `match_`: the last copy grows, or a new one starts. */
  method EmitCopy(output: ByteBuffer, lastMatchOffset: nat, lastCopy: nat, match_: nat, y: nat, height: nat,
                  ghost g: Making, ghost p: Rows, ghost c: Rows, ghost mode: TileMode)
    returns (lastMatchOffset': nat, lastCopy': nat, ghost g': Making)
    requires Good(g, output.bytes, lastMatchOffset, lastCopy, p, c, mode, y)
    requires |p| == |c| == height <= 256 && y < height && match_ < height && p[match_] == c[y] && p[y] != c[y]
    requires FoundFrom(g.m0 + (y - g.y0), match_, p, c[y])
    modifies output
    ensures Good(g', output.bytes, lastMatchOffset', lastCopy', p, c, mode, y + 1)
  {
    var grow := false;
    if lastCopy > 0 {
      var cnt := output.bytes[lastCopy];
      grow := output.bytes[lastCopy + 1] + cnt == match_ && output.bytes[lastCopy + 2] + cnt == y &&
              output.bytes[lastCopy + 1] + cnt + 1 < height;
    }
    if grow {
      WrappedGrow(g.ops, g.copy, p, c, mode, y);
      GrownLonger(g.ops, g.copy.(count := g.copy.count + 1), |p|);
      HuntedLonger(g.ops, g.copy.(count := g.copy.count + 1), g.m0, g.y0, p, c);
      ghost var ops', copy' := GrowCopy(output, lastCopy, g.ops, g.copy);
      lastMatchOffset', lastCopy', g' := lastMatchOffset, lastCopy, Making(ops', copy', g.m0, g.y0);
    } else {
      WrappedCopy(g.ops, p, c, mode, y, match_);
      ghost var copy;
      GrownNew(g.ops, Copy(1, match_, y), |p|);
      HuntedNew(g.ops, match_, y, g.m0, g.y0, p, c);
      lastCopy', copy := NewCopy(output, match_, y, g.ops);
      lastMatchOffset', g' := (match_ - y) % SIZE_T, Making(g.ops + [copy], copy, match_, y);
    }
  }

  /** Row y equals no previous row: it is patched. */
  method EmitPatches(prevRow: DeltaBitmapRow, curRow: DeltaBitmapRow, width: nat, output: ByteBuffer,
                     ghost lastMatchOffset: nat, ghost lastCopy: nat, y: nat,
                     ghost g: Making, ghost p: Rows, ghost c: Rows, mode: TileMode)
    returns (ghost g': Making)
    requires Good(g, output.bytes, lastMatchOffset, lastCopy, p, c, mode, y)
    requires |p| == |c| <= 256 && y < |p| && |p[y]| == |c[y]| == width <= 256
    requires prevRow.Encodes(p[y]) && curRow.Encodes(c[y]) && NoneEqual(p, c[y])
    modifies output
    ensures Good(g', output.bytes, lastMatchOffset, lastCopy, p, c, mode, y + 1)
  {
    ghost var rowOps := DiffRowTo(prevRow, curRow, width, y, output, mode, p[y], c[y]);
    WrappedPatch(g.ops, rowOps, p, c, mode, y);
    BytesConcat(g.ops, rowOps, old(output.bytes));
    GrownPatches(g.ops, rowOps, |p|);
    HuntedPatches(g.ops, rowOps, g.m0, g.y0, p, c);
    g' := g.(ops := g.ops + rowOps);
  }

  /** One turn of the loop over the rows. */
  method DeltaRow(prevRows: seq<DeltaBitmapRow>, curRow: DeltaBitmapRow, width: nat, output: ByteBuffer, mode: TileMode,
                  y: nat, lastMatchOffset: nat, lastCopy: nat, ghost g: Making, ghost p: Rows, ghost c: Rows)
    returns (lastMatchOffset': nat, lastCopy': nat, ghost g': Making)
    requires Good(g, output.bytes, lastMatchOffset, lastCopy, p, c, mode, y)
    requires RowsEncode(prevRows, p) && |p| == |c| <= 256 && y < |p| && curRow.Encodes(c[y])
    requires AllWide(p, width) && |c[y]| == width <= 256
    modifies output
    ensures Good(g', output.bytes, lastMatchOffset', lastCopy', p, c, mode, y + 1)
  {
    lastMatchOffset', lastCopy', g' := lastMatchOffset, lastCopy, g;
    var same := prevRows[y].Identical(curRow, p[y], c[y]);
    if same {
      WrappedSame(g.ops, p, c, mode, y);
      return;
    }
    var matched, match_ := HuntRow(prevRows, curRow, y, lastMatchOffset, p, c[y], g.m0, g.y0);
    if matched {
      lastMatchOffset', lastCopy', g' := EmitCopy(output, lastMatchOffset, lastCopy, match_, y, |prevRows|, g, p, c,
                                                  mode);
      return;
    }
    g' := EmitPatches(prevRows[y], curRow, width, output, lastMatchOffset, lastCopy, y, g, p, c, mode);
  }

  lemma {:induction false} GoodStart(p: Rows, c: Rows, mode: TileMode)
    requires |p| == |c|
    ensures Good(Making([], Copy(0, 0, 0), 0, 0), [], 0, 0, p, c, mode, 0)
  {
    OpenBytes([], [], WRAPS);
    assert Mixed(p, c, 0) == p;
    OpenProgress([], p, c, mode, 0, WRAPS);
    OpenGrown([], |p|, WRAPS);
    OpenHunted([], 0, 0, p, c, WRAPS);
  }

  /** The loop over the rows of two tiles of the same size. */
  method DeltaRows(prevRows: seq<DeltaBitmapRow>, curRows: seq<DeltaBitmapRow>, width: nat, output: ByteBuffer,
                   mode: TileMode, ghost p: Rows, ghost c: Rows)
    returns (ghost ops: seq<Op>)
    requires RowsEncode(prevRows, p) && RowsEncode(curRows, c) && |p| == |c| <= 256
    requires AllWide(p, width) && AllWide(c, width) && width <= 256 && output.bytes == []
    modifies output
    ensures AllFit(ops) && output.bytes == Serialize(ops)
    ensures Progress(ops, p, c, mode, |p|) && CopiesGrown(ops, |p|) && AllFoundFirst(ops, p, c)
  {
    var lastMatchOffset: nat, lastCopy: nat := 0, 0;
    ghost var g := Making([], Copy(0, 0, 0), 0, 0);
    GoodStart(p, c, mode);
    var y: nat := 0;
    while y < |prevRows|
      invariant y <= |p| && Good(g, output.bytes, lastMatchOffset, lastCopy, p, c, mode, y)
    {
      lastMatchOffset, lastCopy, g :=
        DeltaRow(prevRows, curRows[y], width, output, mode, y, lastMatchOffset, lastCopy, g, p, c);
      y := y + 1;
    }
    ops := g.ops;
    OpenBytes(ops, output.bytes, WRAPS);
    OpenProgress(ops, p, c, mode, y, WRAPS);
    OpenGrown(ops, |p|, WRAPS);
    OpenHunted(ops, g.m0, g.y0, p, c, WRAPS);
  }

  // ---------- the finished delta ----------

  /** A program from one tile to another. */
  ghost predicate IsDelta(ops: seq<Op>, p: Rows, c: Rows, mode: TileMode) {
    AllFit(ops) && OpsOk(ops, p, c, mode) &&
    RunOps(ops, ImageOf(p, mode), ImageOf(p, mode)) == ImageOf(c, mode) &&
    (ops == [] <==> p == c)
  }

  lemma {:induction false} ProgressDone(ops: seq<Op>, p: Rows, c: Rows, mode: TileMode)
    requires Progress(ops, p, c, mode, |p|) && AllFit(ops)
    ensures IsDelta(ops, p, c, mode)
  {
    assert Mixed(p, c, |p|) == c;
    if ops != [] {
      assert OpOk(ops[0], p, c, mode);
      match ops[0]
      case Copy(count, src, dest) => assert c[dest] != p[dest];
      case Patch(row, col, bytes) => assert c[row] != p[row];
    }
  }

  /** What follows the `D`: nothing for an unchanged tile, else the operations and the terminator. */
  function DeltaBytes(ops: seq<Op>): seq<Byte>
    requires AllFit(ops)
  {
    if ops == [] then [] else Serialize(ops) + [TERMINATE]
  }

  const DELTA: Byte := 68
  const KEYFRAME: Byte := 90

  /** `makeDelta`: appends a delta, unless the sizes differ. */
  method MakeDelta(prev: DeltaData, cur: DeltaData, outStream: ByteBuffer, mode: TileMode)
    returns (ok: bool, ghost ops: seq<Op>)
    requires prev.Valid() && cur.Valid()
    requires prev.SameSize(cur.tile) ==> prev.height <= 256 && prev.width <= 256
    modifies outStream
    ensures ok <==> prev.SameSize(cur.tile)
    ensures !ok ==> outStream.bytes == old(outStream.bytes)
    ensures ok ==> IsDelta(ops, prev.tile.rows, cur.tile.rows, mode)
    ensures ok ==> CopiesGrown(ops, prev.height) && AllFoundFirst(ops, prev.tile.rows, cur.tile.rows)
    ensures ok ==> outStream.bytes == old(outStream.bytes) + ([DELTA] + DeltaBytes(ops))
  {
    ops := [];
    if prev.width != cur.width || prev.height != cur.height {
      return false, ops;
    }
    var output := new ByteBuffer();
    ops := DeltaRows(prev.rows, cur.rows, prev.width, output, mode, prev.tile.rows, cur.tile.rows);
    ProgressDone(ops, prev.tile.rows, cur.tile.rows, mode);
    SerializeEmpty(ops);
    if output.bytes == [] {
      outStream.PushBack(DELTA);
      return true, ops;
    }
    output.PushBack(TERMINATE);
    outStream.PushBack(DELTA);
    outStream.Append(output.bytes);
    Assoc(old(outStream.bytes), [DELTA], output.bytes);
    ok := true;
  }

  lemma {:induction false} SerializeEmpty(ops: seq<Op>)
    requires AllFit(ops)
    ensures Serialize(ops) == [] <==> ops == []
  {
    if ops != [] {
      assert |OpBytes(ops[|ops| - 1])| >= 4;
    }
  }
}

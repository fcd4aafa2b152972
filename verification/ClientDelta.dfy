/** The client's decoder over its flat image: `unrle`, `applyDeltaChunk` and
    `updateImageFromDeltas` (browser/src/layer/tile/CanvasTileUtils.ts). */
module ClientDelta {
  import opened Pixels
  import opened Seqs
  import opened DeltaFormat
  import opened Tiles
  import opened DeltaMaker
  import opened ClientKeyframe

  // ---------- the flat image ----------

  /** The rows of an image one after the other. */
  function Flat(img: Image): seq<Byte> {
    if img == [] then [] else Flat(img[..|img| - 1]) + img[|img| - 1]
  }

  /** Where row y of the flat image starts. */
  function StartOf(img: Image, y: nat): nat
    requires y <= |img|
  {
    |Flat(img[..y])|
  }

  lemma {:induction false} FlatSplit(img: Image, y: nat)
    requires y < |img|
    ensures Flat(img[..y + 1]) == Flat(img[..y]) + img[y]
  {
    assert img[..y + 1][..y] == img[..y];
  }

  lemma {:induction false} FlatPrefix(img: Image, y: nat)
    requires y <= |img|
    ensures Flat(img[..y]) <= Flat(img)
    decreases |img|
  {
    var n := |img| - 1;
    if y <= n {
      FlatPrefix(img[..n], y);
      assert img[..n][..y] == img[..y];
    } else {
      assert img[..y] == img;
    }
  }

  /** Where the rows of a flat image are. */
  lemma {:induction false} FlatRow(img: Image, y: nat)
    requires y < |img|
    ensures StartOf(img, y) + |img[y]| <= |Flat(img)|
    ensures Flat(img)[StartOf(img, y)..StartOf(img, y) + |img[y]|] == img[y]
  {
    FlatPrefix(img, y + 1);
    FlatSplit(img, y);
    PrefixThen(Flat(img[..y]), img[y], Flat(img));
  }

  lemma {:induction false} PrefixPatch(x: seq<Byte>, y: seq<Byte>, at: nat, bytes: seq<Byte>)
    requires at + |bytes| <= |x|
    ensures Splice(x + y, at, bytes) == Splice(x, at, bytes) + y
  {
  }

  lemma {:induction false} TailPatch(x: seq<Byte>, y: seq<Byte>, at: nat, bytes: seq<Byte>)
    requires at + |bytes| <= |y|
    ensures Splice(x + y, |x| + at, bytes) == x + Splice(y, at, bytes)
  {
  }

  /** Overwriting part of one row of the flat image is overwriting it in that row. */
  lemma {:induction false} FlatPatch(img: Image, y: nat, at: nat, bytes: seq<Byte>)
    requires y < |img| && at + |bytes| <= |img[y]|
    ensures StartOf(img, y) + |img[y]| <= |Flat(img)|
    ensures Splice(Flat(img), StartOf(img, y) + at, bytes) == Flat(img[y := Splice(img[y], at, bytes)])
    decreases |img|, 1
  {
    FlatRow(img, y);
    var n, row := |img| - 1, Splice(img[y], at, bytes);
    if y < n {
      FlatPatchFront(img, y, at, bytes);
    } else {
      TailPatch(Flat(img[..n]), img[n], at, bytes);
      assert img[y := row][..n] == img[..n];
    }
  }

  lemma {:induction false} FlatPatchFront(img: Image, y: nat, at: nat, bytes: seq<Byte>)
    requires y < |img| - 1 && at + |bytes| <= |img[y]|
    ensures Splice(Flat(img), StartOf(img, y) + at, bytes) == Flat(img[y := Splice(img[y], at, bytes)])
    decreases |img|, 0
  {
    var n, row := |img| - 1, Splice(img[y], at, bytes);
    FrontOfUpdate(img, y, row);
    FlatPatch(img[..n], y, at, bytes);
    PrefixPatch(Flat(img[..n]), img[n], StartOf(img, y) + at, bytes);
  }

  lemma {:induction false} WholeSplice(row: seq<Byte>, bytes: seq<Byte>)
    requires |row| == |bytes|
    ensures Splice(row, 0, bytes) == bytes
  {
  }

  /** Overwriting a whole row. */
  lemma {:induction false} FlatUpdate(img: Image, y: nat, row: seq<Byte>)
    requires y < |img| && |row| == |img[y]|
    ensures StartOf(img, y) + |row| <= |Flat(img)|
    ensures Splice(Flat(img), StartOf(img, y), row) == Flat(img[y := row])
  {
    FlatPatch(img, y, 0, row);
    WholeSplice(img[y], row);
  }

  /** In an image of rows of the same size, a row starts where the client computes it. */
  lemma {:induction false} StartIs(img: Image, rowBytes: nat, height: nat, y: nat)
    requires Shaped(img, rowBytes, height) && y <= height
    ensures StartOf(img, y) == y * rowBytes
  {
    if y > 0 {
      StartIs(img, rowBytes, height, y - 1);
      FlatSplit(img, y - 1);
      assert y * rowBytes == (y - 1) * rowBytes + rowBytes;
    }
  }

  // ---------- one operation ----------

  /** The byte-by-byte copy loops. */
  method Blit(imgData: array<Byte>, dest: nat, src: seq<Byte>)
    requires dest + |src| <= imgData.Length
    modifies imgData
    ensures imgData[..] == Splice(old(imgData[..]), dest, src)
  {
    var j: nat := 0;
    while j < |src|
      invariant j <= |src|
      invariant imgData[..dest] == old(imgData[..dest])
      invariant imgData[dest..dest + j] == src[..j]
      invariant imgData[dest + j..] == old(imgData[dest + j..])
    {
      imgData[dest + j] := src[j];
      j := j + 1;
    }
    assert imgData[..] == imgData[..dest] + imgData[dest..dest + j] + imgData[dest + j..];
  }

  lemma {:induction false} CopiedShape(old_: Image, img: Image, count: nat, src: nat, dest: nat, rowBytes: nat)
    requires Shaped(old_, rowBytes, |old_|) && Shaped(img, rowBytes, |img|)
    ensures Shaped(CopyRows(old_, img, count, src, dest), rowBytes, |img|)
  {
  }

  /** One row of a copy. */
  method CopyRowOver(imgData: array<Byte>, oldData: seq<Byte>, rowBytes: nat, src: nat, dest: nat,
                     ghost old_: Image, ghost img: Image)
    requires Shaped(old_, rowBytes, |old_|) && Shaped(img, rowBytes, |img|)
    requires oldData == Flat(old_) && imgData[..] == Flat(img) && src < |old_| && dest < |img|
    modifies imgData
    ensures imgData[..] == Flat(img[dest := old_[src]])
  {
    StartIs(old_, rowBytes, |old_|, src);
    StartIs(img, rowBytes, |img|, dest);
    FlatRow(old_, src);
    FlatUpdate(img, dest, old_[src]);
    Blit(imgData, dest * rowBytes, oldData[src * rowBytes..src * rowBytes + rowBytes]);
  }

  lemma {:induction false} CopyNone(old_: Image, img: Image, src: nat, dest: nat)
    ensures CopyRows(old_, img, 0, src, dest) == img
  {
  }

  /** The rows of a copy, one after the other. */
  method ApplyCopy(imgData: array<Byte>, oldData: seq<Byte>, rowBytes: nat, count: nat, srcRow: nat, destRow: nat,
                   ghost old_: Image, ghost img: Image)
    requires Shaped(old_, rowBytes, |old_|) && Shaped(img, rowBytes, |img|) && |old_| == |img|
    requires oldData == Flat(old_) && imgData[..] == Flat(img)
    requires srcRow + count <= |img| && destRow + count <= |img|
    modifies imgData
    ensures imgData[..] == Flat(CopyRows(old_, img, count, srcRow, destRow))
  {
    CopyNone(old_, img, srcRow, destRow);
    var cnt: nat := 0;
    while cnt < count
      invariant cnt <= count
      invariant imgData[..] == Flat(CopyRows(old_, img, cnt, srcRow, destRow))
    {
      ghost var now := CopyRows(old_, img, cnt, srcRow, destRow);
      CopiedShape(old_, img, cnt, srcRow, destRow, rowBytes);
      CopyOneMore(old_, img, cnt, srcRow, destRow);
      CopyRowOver(imgData, oldData, rowBytes, srcRow + cnt, destRow + cnt, old_, now);
      cnt := cnt + 1;
    }
  }

  /** A run of pixels written into one row. */
  method ApplyPatch(imgData: array<Byte>, rowBytes: nat, row: nat, col: nat, bytes: seq<Byte>, ghost img: Image)
    requires Shaped(img, rowBytes, |img|) && imgData[..] == Flat(img)
    requires row < |img| && 4 * col + |bytes| <= rowBytes
    modifies imgData
    ensures imgData[..] == Flat(img[row := Splice(img[row], 4 * col, bytes)])
  {
    StartIs(img, rowBytes, |img|, row);
    FlatPatch(img, row, 4 * col, bytes);
    Blit(imgData, row * rowBytes + col * 4, bytes);
  }

  // ---------- a chunk ----------

  /** The chunk at the front of the stream parses and stays inside the tile: what the client
      relies on without checking. */
  ghost predicate WellFormed(delta: seq<Byte>, rowBytes: nat, height: nat) {
    var r := ParseChunk(delta, 0, []);
    r.Some? && AllInBounds(r.value.0, rowBytes, height)
  }

  lemma {:induction false} ParsedSoFar(delta: seq<Byte>, i: nat, done: seq<Op>)
    requires i <= |delta| && ParseChunk(delta, i, done).Some?
    ensures done <= ParseChunk(delta, i, done).value.0
    decreases |delta| - i
  {
    if i < |delta| {
      match ParseOp(delta, i)
      case Malformed =>
      case End(_) =>
      case Next(op, next) =>
        ParsedSoFar(delta, next, done + [op]);
        PrefixThen(done, [op], ParseChunk(delta, i, done).value.0);
    }
  }

  /** The next operation is in bounds when the whole chunk is. */
  lemma {:induction false} NextInBounds(delta: seq<Byte>, i: nat, done: seq<Op>, rowBytes: nat, height: nat)
    requires i < |delta| && ParseOp(delta, i).Next? && ParseChunk(delta, i, done).Some?
    requires AllInBounds(ParseChunk(delta, i, done).value.0, rowBytes, height)
    ensures InBounds(ParseOp(delta, i).op, rowBytes, height)
  {
    var op, next := ParseOp(delta, i).op, ParseOp(delta, i).next;
    var all := ParseChunk(delta, i, done).value.0;
    ParsedSoFar(delta, next, done + [op]);
    assert all[|done|] == (done + [op])[|done|] == op;
  }

  /** One turn of the switch: applies the operation at position i. */
  method ApplyOne(imgData: array<Byte>, delta: seq<Byte>, oldData: seq<Byte>, rowBytes: nat, i: nat,
                  ghost old_: Image, ghost img: Image)
    returns (next: nat, stop: bool)
    requires i < |delta| && !ParseOp(delta, i).Malformed?
    requires Shaped(old_, rowBytes, |old_|) && Shaped(img, rowBytes, |img|) && |old_| == |img|
    requires oldData == Flat(old_) && imgData[..] == Flat(img)
    requires ParseOp(delta, i).Next? ==> InBounds(ParseOp(delta, i).op, rowBytes, |img|)
    modifies imgData
    ensures next == ParseOp(delta, i).next && stop == ParseOp(delta, i).End?
    ensures imgData[..] == Flat(if stop then img else ApplyOp(ParseOp(delta, i).op, old_, img))
  {
    if delta[i] == COPY {
      ApplyCopy(imgData, oldData, rowBytes, delta[i + 1], delta[i + 2], delta[i + 3], old_, img);
      return i + 4, false;
    }
    if delta[i] == PATCH {
      var span := 4 * (delta[i + 3] as nat);
      ApplyPatch(imgData, rowBytes, delta[i + 1], delta[i + 2], delta[i + 4..i + 4 + span], img);
      return i + 4 + span, false;
    }
    if delta[i] == TERMINATE {
      return i + 1, true;
    }
    return |delta|, true;
  }

  lemma {:induction false} AppliedShape(op: Op, old_: Image, img: Image, rowBytes: nat)
    requires Shaped(old_, rowBytes, |old_|) && Shaped(img, rowBytes, |img|)
    ensures Shaped(ApplyOp(op, old_, img), rowBytes, |img|)
  {
    match op
    case Copy(count, src, dest) => CopiedShape(old_, img, count, src, dest, rowBytes);
    case Patch(_, _, _) =>
  }

  /** `applyDeltaChunk`: runs the program at the front of the stream; returns its size. */
  method ApplyDeltaChunk(imgData: array<Byte>, delta: seq<Byte>, oldData: seq<Byte>, rowBytes: nat, ghost old_: Image)
    returns (i: nat)
    requires WellFormed(delta, rowBytes, |old_|)
    requires Shaped(old_, rowBytes, |old_|) && oldData == Flat(old_) && imgData[..] == oldData
    modifies imgData
    ensures var r := ParseChunk(delta, 0, []).value;
            i == r.1 && imgData[..] == Flat(RunOps(r.0, old_, old_))
  {
    ghost var done: seq<Op> := [];
    ghost var img := old_;
    i := 0;
    var stop := false;
    while i < |delta| && !stop
      invariant i <= |delta|
      invariant Shaped(img, rowBytes, |old_|) && img == RunOps(done, old_, old_) && imgData[..] == Flat(img)
      invariant !stop ==> ParseChunk(delta, i, done) == ParseChunk(delta, 0, [])
      invariant stop ==> ParseChunk(delta, 0, []) == Some((done, i))
      decreases |delta| - i, !stop
    {
      ghost var p := ParseOp(delta, i);
      if p.Next? {
        NextInBounds(delta, i, done, rowBytes, |old_|);
        AppliedShape(p.op, old_, img, rowBytes);
        RunOpsSnoc(done, p.op, old_, old_);
      }
      i, stop := ApplyOne(imgData, delta, oldData, rowBytes, i, old_, img);
      if !stop {
        img, done := ApplyOp(p.op, old_, img), done + [p.op];
      }
    }
  }

  // ---------- a stream of chunks ----------

  /** Runs the chunks of a stream one after the other, each on the result of the last. */
  function RunStream(stream: seq<Byte>, img: Image): Image {
    if stream == [] then img else
      match ParseChunk(stream, 0, [])
      case None => img
      case Some((ops, len)) => RunStream(stream[len..], RunOps(ops, img, img))
  }

  /** Every chunk of the stream is well-formed. */
  ghost predicate StreamOk(stream: seq<Byte>, rowBytes: nat, height: nat) {
    stream == [] ||
    (WellFormed(stream, rowBytes, height) && StreamOk(stream[ParseChunk(stream, 0, []).value.1..], rowBytes, height))
  }

  /** `updateImageFromDeltas`: applies all the deltas behind the keyframe. */
  method UpdateImageFromDeltas(imageData: array<Byte>, deltas: seq<Byte>, keyframeDeltaSize: nat, rowBytes: nat,
                               ghost img: Image)
    requires keyframeDeltaSize <= |deltas| && StreamOk(deltas[keyframeDeltaSize..], rowBytes, |img|)
    requires Shaped(img, rowBytes, |img|) && imageData[..] == Flat(img)
    modifies imageData
    ensures imageData[..] == Flat(RunStream(deltas[keyframeDeltaSize..], img))
  {
    ghost var now := img;
    var offset := keyframeDeltaSize;
    while offset < |deltas|
      invariant offset <= |deltas| && StreamOk(deltas[offset..], rowBytes, |img|)
      invariant Shaped(now, rowBytes, |img|) && imageData[..] == Flat(now)
      invariant RunStream(deltas[offset..], now) == RunStream(deltas[keyframeDeltaSize..], img)
    {
      var delta := deltas[offset..];
      var oldData := imageData[..];
      ghost var ops := ParseChunk(delta, 0, []).value.0;
      RunOpsShaped(ops, now, now, rowBytes, |img|);
      var len := ApplyDeltaChunk(imageData, delta, oldData, rowBytes, now);
      now := RunOps(ops, now, now);
      DropDrop(deltas, offset, len);
      offset := offset + len;
    }
  }

  /** Deltas one behind the other, as the cache of the server concatenates them. */
  function StreamOf(programs: seq<seq<Op>>): seq<Byte>
    requires forall k :: 0 <= k < |programs| ==> AllFit(programs[k])
  {
    if programs == [] then [] else DeltaBytes(programs[0]) + StreamOf(programs[1..])
  }

  /** A chain of tiles, each a delta away from the one before it. */
  ghost predicate Chain(tiles: seq<Rows>, programs: seq<seq<Op>>, mode: TileMode, width: nat) {
    |tiles| == |programs| + 1 &&
    (forall k :: 0 <= k < |tiles| ==> AllWide(tiles[k], width) && |tiles[k]| == |tiles[0]|) &&
    (forall k :: 0 <= k < |programs| ==> IsDelta(programs[k], tiles[k], tiles[k + 1], mode))
  }

  /** The stream splits at the right terminators, even where pixels look like one. */
  lemma {:induction false} StreamSplits(ops: seq<Op>, rest: seq<Byte>, img: Image)
    requires AllFit(ops)
    ensures RunStream(DeltaBytes(ops) + rest, img) == RunStream(rest, RunOps(ops, img, img))
    ensures ops != [] ==> ParseChunk(DeltaBytes(ops) + rest, 0, []) == Some((ops, |DeltaBytes(ops)|))
    ensures ops != [] ==> (DeltaBytes(ops) + rest)[|DeltaBytes(ops)|..] == rest
  {
    if ops == [] {
      assert DeltaBytes(ops) + rest == rest;
    } else {
      ParseSerialize(ops, rest);
      Parts(DeltaBytes(ops), rest);
    }
  }

  lemma {:induction false} StreamSplitsOk(ops: seq<Op>, rest: seq<Byte>, rowBytes: nat, height: nat)
    requires AllFit(ops) && AllInBounds(ops, rowBytes, height) && StreamOk(rest, rowBytes, height)
    ensures StreamOk(DeltaBytes(ops) + rest, rowBytes, height)
  {
    if ops == [] {
      assert DeltaBytes(ops) + rest == rest;
    } else {
      StreamSplits(ops, rest, []);
    }
  }

  /** Applying a chain of deltas to the first tile shows the last one. */
  lemma {:induction false} ChainShowsLast(tiles: seq<Rows>, programs: seq<seq<Op>>, mode: TileMode, width: nat)
    requires Chain(tiles, programs, mode, width)
    ensures forall k :: 0 <= k < |programs| ==> AllFit(programs[k])
    ensures RunStream(StreamOf(programs), ImageOf(tiles[0], mode)) == ImageOf(tiles[|programs|], mode)
    ensures StreamOk(StreamOf(programs), 4 * width, |tiles[0]|)
  {
    assert forall k :: 0 <= k < |programs| ==> AllFit(programs[k]) by {
      forall k | 0 <= k < |programs| ensures AllFit(programs[k]) {
        assert IsDelta(programs[k], tiles[k], tiles[k + 1], mode);
      }
    }
    if programs != [] {
      ChainTail(tiles, programs, mode, width);
      ChainShowsLast(tiles[1..], programs[1..], mode, width);
      var ops, rest := programs[0], StreamOf(programs[1..]);
      assert IsDelta(ops, tiles[0], tiles[1], mode);
      StreamSplits(ops, rest, ImageOf(tiles[0], mode));
      OpsOkInBounds(ops, tiles[0], tiles[1], mode, width);
      StreamSplitsOk(ops, rest, 4 * width, |tiles[0]|);
    }
  }

  lemma {:induction false} ChainTail(tiles: seq<Rows>, programs: seq<seq<Op>>, mode: TileMode, width: nat)
    requires Chain(tiles, programs, mode, width) && programs != []
    ensures Chain(tiles[1..], programs[1..], mode, width)
    ensures |tiles[1]| == |tiles[0]| && AllWide(tiles[1], width)
  {
    forall k | 0 <= k < |programs| - 1 ensures IsDelta(programs[1..][k], tiles[1..][k], tiles[1..][k + 1], mode) {
      assert IsDelta(programs[k + 1], tiles[k + 1], tiles[k + 2], mode);
    }
  }

  // ---------- the keyframe ----------

  /** The byte of the mask in hand before pixel x, and the bit to check in it; past bit 7
      another byte is due. */
  ghost predicate MaskInHand(data: seq<Byte>, offset: nat, x: nat, rleMaskOffset: nat, lastMask: nat, bitToCheck: nat) {
    if x % 8 == 0 then bitToCheck > 7 && rleMaskOffset == offset + 2 + x / 8
    else bitToCheck == x % 8 && rleMaskOffset == offset + 3 + x / 8 && lastMask == ByteAt(data, offset + 2 + x / 8)
  }

  /** One turn of the inner loop of `unrle`, up to the store. */
  method UnrlePixel(data: seq<Byte>, ghost offset: nat, ghost x: nat, rleMaskOffset0: nat, lastMask0: nat,
                    bitToCheck0: nat, lastPixel0: seq<Byte>, pixSrc0: nat)
    returns (rleMaskOffset: nat, lastMask: nat, bitToCheck: nat, lastPixel: seq<Byte>, pixSrc: nat)
    requires MaskInHand(data, offset, x, rleMaskOffset0, lastMask0, bitToCheck0)
    requires Unrle(lastPixel0, pixSrc0) == UnrleAt(data, offset, x)
    ensures MaskInHand(data, offset, x + 1, rleMaskOffset, lastMask, bitToCheck)
    ensures Unrle(lastPixel, pixSrc) == UnrleAt(data, offset, x + 1)
  {
    rleMaskOffset, lastMask, bitToCheck := rleMaskOffset0, lastMask0, bitToCheck0;
    lastPixel, pixSrc := lastPixel0, pixSrc0;
    if bitToCheck > 7 {
      bitToCheck := 0;
      lastMask := ByteAt(data, rleMaskOffset);
      rleMaskOffset := rleMaskOffset + 1;
    }
    if !TestBit(lastMask, bitToCheck) {
      lastPixel := FourBytes(data, pixSrc);
      pixSrc := pixSrc + 4;
    }
    bitToCheck := bitToCheck + 1;
  }

  /** The inner loop of `unrle`: one row, pixel by pixel. */
  method UnrleOneRow(data: seq<Byte>, offset: nat, width: nat, output: array<Byte>, pixOffset0: nat)
    requires pixOffset0 + 4 * width <= output.Length
    modifies output
    ensures output[..pixOffset0 + 4 * width] == old(output[..pixOffset0]) + UnrleRow(data, offset, width)
    ensures forall i :: pixOffset0 + 4 * width <= i < output.Length ==> output[i] == old(output[i])
  {
    var rleMaskOffset: nat, pixSrc: nat := offset + 2, offset + 34;
    var lastPixel: seq<Byte> := [0, 0, 0, 0];
    var lastMask: nat, bitToCheck: nat := 0, 8;
    var pixOffset := pixOffset0;
    EmptyTail(output[..pixOffset0]);
    var x: nat := 0;
    while x < width
      invariant x <= width && pixOffset == pixOffset0 + 4 * x
      invariant MaskInHand(data, offset, x, rleMaskOffset, lastMask, bitToCheck)
      invariant Unrle(lastPixel, pixSrc) == UnrleAt(data, offset, x)
      invariant output[..pixOffset] == old(output[..pixOffset0]) + UnrleRow(data, offset, x)
      invariant forall i :: pixOffset <= i < output.Length ==> output[i] == old(output[i])
    {
      rleMaskOffset, lastMask, bitToCheck, lastPixel, pixSrc :=
        UnrlePixel(data, offset, x, rleMaskOffset, lastMask, bitToCheck, lastPixel, pixSrc);
      UnrleFour(data, offset, x + 1);
      Assoc(old(output[..pixOffset0]), UnrleRow(data, offset, x), lastPixel);
      StoreFour(output, pixOffset, lastPixel);
      pixOffset := pixOffset + 4;
      x := x + 1;
    }
  }

  method StoreFour(output: array<Byte>, at: nat, four: seq<Byte>)
    requires at + 4 <= output.Length && |four| == 4
    modifies output
    ensures output[..at + 4] == old(output[..at]) + four
    ensures forall i :: at + 4 <= i < output.Length ==> output[i] == old(output[i])
  {
    output[at] := four[0];
    output[at + 1] := four[1];
    output[at + 2] := four[2];
    output[at + 3] := four[3];
  }

  lemma {:induction false} RoomFor(y: nat, height: nat, w: nat)
    requires y < height
    ensures (y + 1) * w == y * w + w <= height * w
  {
    MulMonotone(y + 1, height, w);
  }

  lemma {:induction false} FlatSnoc(front: seq<Byte>, img: Image, row: seq<Byte>)
    ensures front + Flat(img) + row == front + Flat(img + [row])
  {
    Parts(img, [row]);
    Assoc(front, Flat(img), row);
  }

  /** One turn of the outer loop of `unrle`. */
  method UnrleNextRow(data: seq<Byte>, offset: nat, width: nat, output: array<Byte>, pixOffset: nat,
                      ghost before: seq<Byte>, ghost y: nat)
    returns (offset': nat)
    requires pixOffset + 4 * width <= output.Length && offset == RowStart(data, y)
    requires output[..pixOffset] == before + Flat(UnrleImage(data, width, y))
    modifies output
    ensures output[..pixOffset + 4 * width] == before + Flat(UnrleImage(data, width, y + 1))
    ensures forall i :: pixOffset + 4 * width <= i < output.Length ==> output[i] == old(output[i])
    ensures offset' == RowStart(data, y + 1)
  {
    UnrleOneRow(data, offset, width, output, pixOffset);
    FlatSnoc(before, UnrleImage(data, width, y), UnrleRow(data, offset, width));
    var rleSize: nat := ByteAt(data, offset) as nat + 256 * (ByteAt(data, offset + 1) as nat);
    offset' := offset + 34 + rleSize * 4;
  }

  /** `unrle`: decodes a keyframe into the output from an offset on; returns where the deltas
      behind it start. */
  method UnrleKeyframe(data: seq<Byte>, width: nat, height: nat, output: array<Byte>, outputOffset: nat)
    returns (offset: nat)
    requires outputOffset + height * (4 * width) <= output.Length
    modifies output
    ensures output[..outputOffset + height * (4 * width)]
         == old(output[..outputOffset]) + Flat(UnrleImage(data, width, height))
    ensures forall i :: outputOffset + height * (4 * width) <= i < output.Length ==> output[i] == old(output[i])
    ensures offset == RowStart(data, height)
  {
    var rowBytes := 4 * width;
    offset := 0;
    var pixOffset: nat := outputOffset;
    var y: nat := 0;
    ghost var before := output[..outputOffset];
    EmptyTail(before);
    while y < height
      invariant y <= height && offset == RowStart(data, y)
      invariant outputOffset <= pixOffset <= output.Length && pixOffset - outputOffset == y * rowBytes
      invariant output[..pixOffset] == before + Flat(UnrleImage(data, width, y))
      invariant forall i :: pixOffset <= i < output.Length ==> output[i] == old(output[i])
    {
      RoomFor(y, height, rowBytes);
      offset := UnrleNextRow(data, offset, width, output, pixOffset, before, y);
      pixOffset := pixOffset + rowBytes;
      y := y + 1;
    }
  }

  /** A keyframe and a chain of deltas behind it: the client shows the last tile. */
  method DecodeTile(data: seq<Byte>, width: nat, height: nat, imageData: array<Byte>,
                    ghost tiles: seq<Rows>, ghost programs: seq<seq<Op>>, ghost mode: TileMode)
    requires Chain(tiles, programs, mode, width) && |tiles[0]| == height && width <= 256
    requires forall k :: 0 <= k < |programs| ==> AllFit(programs[k])
    requires data == KeyframeBytes(tiles[0], mode) + StreamOf(programs)
    requires imageData.Length == height * (4 * width)
    modifies imageData
    ensures imageData[..] == Flat(ImageOf(tiles[|programs|], mode))
  {
    KeyframeRoundTrip(tiles[0], mode, width, data);
    Parts(KeyframeBytes(tiles[0], mode), StreamOf(programs));
    ChainShowsLast(tiles, programs, mode, width);
    ImageShaped(tiles[0], mode, width);
    var keyframeDeltaSize := UnrleKeyframe(data, width, height, imageData, 0);
    assert imageData[..] == imageData[..imageData.Length] == [] + Flat(ImageOf(tiles[0], mode));
    UpdateImageFromDeltas(imageData, data, keyframeDeltaSize, 4 * width, ImageOf(tiles[0], mode));
  }
}

/** The delta program sent to the client: its operations, bytes and meaning. */
module DeltaFormat {
  import opened Pixels
  import opened Seqs

  /** Copy `count` rows of the previous tile, or overwrite a run of pixels of one row. */
  datatype Op =
    | Copy(count: nat, src: nat, dest: nat)
    | Patch(row: nat, col: nat, bytes: seq<Byte>)

  const COPY: Byte := 99
  const PATCH: Byte := 100
  const TERMINATE: Byte := 116

  /** Every field fits its byte. */
  predicate Fits(op: Op) {
    match op
    case Copy(count, src, dest) => count < 256 && src < 256 && dest < 256
    case Patch(row, col, bytes) => row < 256 && col < 256 && |bytes| % 4 == 0 && |bytes| / 4 < 256
  }

  predicate AllFit(ops: seq<Op>) {
    forall k :: 0 <= k < |ops| ==> Fits(ops[k])
  }

  // ---------- bytes ----------

  function OpBytes(op: Op): seq<Byte>
    requires Fits(op)
  {
    match op
    case Copy(count, src, dest) => [COPY, count, src, dest]
    case Patch(row, col, bytes) => [PATCH, row, col, |bytes| / 4] + bytes
  }

  /** A copy starts with `c`, count, source and destination; a run with `d`, row, column and the number
      of its pixels. */
  lemma {:induction false} OpWritten(op: Op)
    requires Fits(op)
    ensures op.Copy? ==> OpBytes(op) == [99, op.count, op.src, op.dest]
    ensures op.Patch? ==> OpBytes(op) == [100, op.row, op.col, |op.bytes| / 4] + op.bytes
  {
  }

  function Serialize(ops: seq<Op>): seq<Byte>
    requires AllFit(ops)
  {
    if ops == [] then [] else Serialize(ops[..|ops| - 1]) + OpBytes(ops[|ops| - 1])
  }

  lemma {:induction false} SerializeSnoc(ops: seq<Op>, op: Op)
    requires AllFit(ops) && Fits(op)
    ensures AllFit(ops + [op]) && Serialize(ops + [op]) == Serialize(ops) + OpBytes(op)
  {
    Parts(ops, [op]);
  }

  lemma {:induction false} SerializeConcat(a: seq<Op>, b: seq<Op>)
    requires AllFit(a) && AllFit(b)
    ensures AllFit(a + b) && Serialize(a + b) == Serialize(a) + Serialize(b)
  {
    if b == [] {
      assert a + b == a;
      assert Serialize(a) + [] == Serialize(a);
    } else {
      var n := |b| - 1;
      SerializeConcat(a, b[..n]);
      FrontOfConcat(a, b);
      Assoc(Serialize(a), Serialize(b[..n]), OpBytes(b[n]));
    }
  }

  /** One operation read at position i, and the position after it. */
  datatype Parsed = End(next: nat) | Malformed | Next(op: Op, next: nat)

  /** Reads one operation as the client does. An unknown code ends the reading at the end of
      the data; a cut-off operation is malformed. */
  function ParseOp(delta: seq<Byte>, i: nat): (p: Parsed)
    requires i < |delta|
    ensures !p.Malformed? ==> i < p.next <= |delta|
  {
    if delta[i] == COPY then
      if |delta| < i + 4 then Malformed
      else Next(Copy(delta[i + 1], delta[i + 2], delta[i + 3]), i + 4)
    else if delta[i] == PATCH then
      if |delta| < i + 4 then Malformed else
        var next: nat := i + 4 + 4 * (delta[i + 3] as nat);
        if |delta| < next then Malformed
        else Next(Patch(delta[i + 1], delta[i + 2], delta[i + 4..next]), next)
    else if delta[i] == TERMINATE then End(i + 1)
    else End(|delta|)
  }

  /** The operations of the chunk that starts at position i, after those in `done`, and the
      position behind its terminator. */
  function ParseChunk(delta: seq<Byte>, i: nat, done: seq<Op>): (r: Option<(seq<Op>, nat)>)
    requires i <= |delta|
    ensures r.Some? ==> i <= r.value.1 <= |delta|
    ensures r.Some? && i < |delta| ==> i < r.value.1
    decreases |delta| - i
  {
    if i == |delta| then Some((done, i)) else
      match ParseOp(delta, i)
      case Malformed => None
      case End(next) => Some((done, next))
      case Next(op, next) => ParseChunk(delta, next, done + [op])
  }

  lemma {:induction false} ParseOneOp(delta: seq<Byte>, i: nat, op: Op)
    requires Fits(op) && i + |OpBytes(op)| <= |delta| && delta[i..i + |OpBytes(op)|] == OpBytes(op)
    ensures ParseOp(delta, i) == Next(op, i + |OpBytes(op)|)
  {
    var bytes := OpBytes(op);
    var slice := delta[i..i + |bytes|];
    assert slice[0] == delta[i] && slice[1] == delta[i + 1] && slice[2] == delta[i + 2] && slice[3] == delta[i + 3];
    match op
    case Copy(count, src, dest) =>
    case Patch(row, col, pixels) =>
      assert delta[i + 4..i + |bytes|] == slice[4..] == pixels;
  }

  /** A parser that meets a serialized program takes exactly its operations. */
  lemma {:induction false} ParsePrefix(ops: seq<Op>, delta: seq<Byte>)
    requires AllFit(ops) && Serialize(ops) <= delta
    ensures ParseChunk(delta, 0, []) == ParseChunk(delta, |Serialize(ops)|, ops)
  {
    if ops != [] {
      var front, op := ops[..|ops| - 1], ops[|ops| - 1];
      PrefixThen(Serialize(front), OpBytes(op), delta);
      ParsePrefix(front, delta);
      ParseOneOp(delta, |Serialize(front)|, op);
      FrontLast(ops);
    }
  }

  /** The stream is unambiguous: a serialized program parses to itself and ends at its own
      terminator, whatever its pixels are and whatever follows. */
  lemma {:induction false} ParseSerialize(ops: seq<Op>, rest: seq<Byte>)
    requires AllFit(ops)
    ensures ParseChunk(Serialize(ops) + [TERMINATE] + rest, 0, []) == Some((ops, |Serialize(ops)| + 1))
  {
    var delta := Serialize(ops) + [TERMINATE] + rest;
    Assoc(Serialize(ops), [TERMINATE], rest);
    ParsePrefix(ops, delta);
    assert delta[|Serialize(ops)|] == TERMINATE;
  }

  // ---------- meaning ----------

  /** A decoded tile: the bytes of each row. */
  type Image = seq<seq<Byte>>

  predicate Shaped(img: Image, rowBytes: nat, height: nat) {
    |img| == height && forall y :: 0 <= y < height ==> |img[y]| == rowBytes
  }

  predicate InBounds(op: Op, rowBytes: nat, height: nat) {
    match op
    case Copy(count, src, dest) => src + count <= height && dest + count <= height
    case Patch(row, col, bytes) => row < height && 4 * col + |bytes| <= rowBytes
  }

  predicate AllInBounds(ops: seq<Op>, rowBytes: nat, height: nat) {
    forall k :: 0 <= k < |ops| ==> InBounds(ops[k], rowBytes, height)
  }

  function Splice(row: seq<Byte>, at: nat, bytes: seq<Byte>): (r: seq<Byte>)
    ensures |r| == |row|
  {
    if at + |bytes| <= |row| then row[..at] + bytes + row[at + |bytes|..] else row
  }

  function CopyRows(old_: Image, img: Image, count: nat, src: nat, dest: nat): (r: Image)
    ensures |r| == |img|
  {
    seq(|img|, y requires 0 <= y < |img| =>
      if dest <= y < dest + count && src + (y - dest) < |old_| then old_[src + (y - dest)] else img[y])
  }

  function ApplyOp(op: Op, old_: Image, img: Image): (r: Image)
    ensures |r| == |img|
  {
    match op
    case Copy(count, src, dest) => CopyRows(old_, img, count, src, dest)
    case Patch(row, col, bytes) =>
      if row < |img| then img[row := Splice(img[row], 4 * col, bytes)] else img
  }

  /** Operations read the tile as it was before the program and write the new one. */
  function RunOps(ops: seq<Op>, old_: Image, img: Image): (r: Image)
    ensures |r| == |img|
  {
    if ops == [] then img else ApplyOp(ops[|ops| - 1], old_, RunOps(ops[..|ops| - 1], old_, img))
  }

  lemma {:induction false} RunOpsSnoc(ops: seq<Op>, op: Op, old_: Image, img: Image)
    ensures RunOps(ops + [op], old_, img) == ApplyOp(op, old_, RunOps(ops, old_, img))
  {
    Parts(ops, [op]);
  }

  lemma {:induction false} RunOpsConcat(a: seq<Op>, b: seq<Op>, old_: Image, img: Image)
    ensures RunOps(a + b, old_, img) == RunOps(b, old_, RunOps(a, old_, img))
  {
    if b == [] {
      assert a + b == a;
    } else {
      RunOpsConcat(a, b[..|b| - 1], old_, img);
      FrontOfConcat(a, b);
    }
  }

  lemma {:induction false} RunOpsShaped(ops: seq<Op>, old_: Image, img: Image, rowBytes: nat, height: nat)
    requires Shaped(old_, rowBytes, height) && Shaped(img, rowBytes, height)
    ensures Shaped(RunOps(ops, old_, img), rowBytes, height)
  {
    if ops != [] {
      RunOpsShaped(ops[..|ops| - 1], old_, img, rowBytes, height);
    }
  }
}

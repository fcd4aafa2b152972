/** SpookyHash V2 as a stream: a state of 12 lanes into which blocks of 96 bytes are mixed, and a
    stash of up to two blocks, 192 bytes, that are not mixed in yet.
    The mixing functions are parameters, so what is proved holds for every choice of them. */
module Spooky {
  import opened Buffers
  import opened Numbers
  import opened Pixels
  import opened Seqs
  import opened Tiles

  /** A `uint64_t` of the internal state. */
  type Lane = n: int | 0 <= n < 0x1_0000_0000_0000_0000

  const SC_CONST: Lane := 0xdead_beef_dead_beef

  type State = s: seq<Lane> | |s| == 12 witness [0, 0, 0, 0, 0, 0, 0, 0, 0, 0, 0, 0]
  type Block = b: seq<Byte> | |b| == 96 witness Zeros(96)

  /** `Mix`, `End` and `Short`. */
  datatype Core = Core(mix: (State, Block) -> State, end: (State, Block) -> State,
                       short: (seq<Byte>, Lane, Lane) -> (Lane, Lane))

  // ---------- what is hashed ----------

  function Start(seed1: Lane, seed2: Lane): State {
    [seed1, seed2, SC_CONST, seed1, seed2, SC_CONST, seed1, seed2, SC_CONST, seed1, seed2, SC_CONST]
  }

  /** The first n blocks of a message mixed in, one after the other. */
  function Fold(core: Core, h: State, message: seq<Byte>, n: nat): State
    requires 96 * n <= |message|
  {
    if n == 0 then h else core.mix(Fold(core, h, message, n - 1), message[96 * n - 96..96 * n])
  }

  /** The last block: what is left over, zeros, and how much was left over. */
  function Padded(rest: seq<Byte>): Block
    requires |rest| < 96
  {
    var n: Byte := |rest|;
    rest + Zeros(95 - |rest|) + [n]
  }

  /** The hash of a whole message. */
  function Digest(core: Core, seed1: Lane, seed2: Lane, message: seq<Byte>): (Lane, Lane) {
    if |message| < 192 then core.short(message, seed1, seed2)
    else
      var n := |message| / 96;
      var h := core.end(Fold(core, Start(seed1, seed2), message, n), Padded(message[96 * n..]));
      (h[0], h[1])
  }

  lemma {:induction false} FoldPrefix(core: Core, h: State, x: seq<Byte>, y: seq<Byte>, n: nat)
    requires 96 * n <= |x|
    ensures Fold(core, h, x + y, n) == Fold(core, h, x, n)
  {
    if n > 0 {
      FoldPrefix(core, h, x, y, n - 1);
      SliceOfPrefix(x, y, 96 * n - 96, 96 * n);
    }
  }

  // ---------- what the core gets to see ----------

  /** Below 192 bytes the core's short form is all. */
  lemma {:induction false} ShortForm(core: Core, seed1: Lane, seed2: Lane, message: seq<Byte>)
    ensures |message| < 192 ==> Digest(core, seed1, seed2, message) == core.short(message, seed1, seed2)
  {
  }

  function Rotated(s: State, k: nat): State
    requires k < 12
  {
    s[k..] + s[..k]
  }

  /** A core that mixes nothing in, and at the end shows the state from lane k on. */
  function ShowLanes(core: Core, k: nat): Core
    requires k < 12
  {
    Core((s: State, b: Block) => s, (s: State, b: Block) => Rotated(s, k), core.short)
  }

  lemma {:induction false} FoldKeeps(core: Core, k: nat, h: State, message: seq<Byte>, n: nat)
    requires k < 12 && 96 * n <= |message|
    ensures Fold(ShowLanes(core, k), h, message, n) == h
  {
    if n > 0 {
      FoldKeeps(core, k, h, message, n - 1);
    }
  }

  lemma {:induction false} StartLanes(seed1: Lane, seed2: Lane, k: nat)
    requires k < 12
    ensures Start(seed1, seed2)[k] == if k % 3 == 0 then seed1 else if k % 3 == 1 then seed2 else 0xdead_beef_dead_beef
  {
  }

  lemma {:induction false} ShownLanes(core: Core, k: nat, s: State, b: Block)
    requires k < 12
    ensures ShowLanes(core, k).end(s, b)[0] == s[k]
    ensures ShowLanes(core, k).end(s, b)[1] == s[if k < 11 then k + 1 else 0]
  {
    assert ShowLanes(core, k).end(s, b) == Rotated(s, k);
  }

  lemma {:induction false} LongForm(core: Core, seed1: Lane, seed2: Lane, message: seq<Byte>)
    returns (h: State, b: Block)
    requires |message| >= 192
    ensures h == Fold(core, Start(seed1, seed2), message, |message| / 96)
    ensures b == Padded(message[96 * (|message| / 96)..])
    ensures Digest(core, seed1, seed2, message) == (core.end(h, b)[0], core.end(h, b)[1])
  {
    h := Fold(core, Start(seed1, seed2), message, |message| / 96);
    b := Padded(message[96 * (|message| / 96)..]);
  }

  /** The seeds and the constant fill the twelve lanes in turn. */
  lemma {:induction false} SeedsFillLanes(core: Core, seed1: Lane, seed2: Lane, message: seq<Byte>, k: nat)
    requires k < 12 && |message| >= 192
    ensures var hash := Digest(ShowLanes(core, k), seed1, seed2, message);
            && hash.0 == (if k % 3 == 0 then seed1 else if k % 3 == 1 then seed2 else 0xdead_beef_dead_beef)
            && hash.1 == (if k % 3 == 0 then seed2 else if k % 3 == 1 then 0xdead_beef_dead_beef else seed1)
  {
    var h, b := LongForm(ShowLanes(core, k), seed1, seed2, message);
    FoldKeeps(core, k, Start(seed1, seed2), message, |message| / 96);
    ShownLanes(core, k, h, b);
    StartLanes(seed1, seed2, k);
    StartLanes(seed1, seed2, if k < 11 then k + 1 else 0);
  }

  function OneLane(lane: Lane): State {
    [lane, 0, 0, 0, 0, 0, 0, 0, 0, 0, 0, 0]
  }

  /** A core that shows byte j of the last block. */
  function ShowLast(core: Core, j: nat): Core
    requires j < 96
  {
    Core(core.mix, (s: State, b: Block) => OneLane(b[j]), core.short)
  }

  /** The last block is what is left over of the message, zeros, and in its last byte how much was left. */
  lemma {:induction false} LastBlock(core: Core, seed1: Lane, seed2: Lane, message: seq<Byte>, j: nat)
    requires j < 96 && |message| >= 192
    ensures var left := |message| % 96;
            Digest(ShowLast(core, j), seed1, seed2, message).0 ==
              if j < left then message[|message| - left + j] else if j == 95 then left else 0
  {
    var left := |message| % 96;
    var rest := message[96 * (|message| / 96)..];
    assert |rest| == left;
    ZerosAre(95 - left);
    assert Padded(rest)[j] == if j < left then rest[j] else if j == 95 then left else 0;
    var h, b := LongForm(ShowLast(core, j), seed1, seed2, message);
    assert ShowLast(core, j).end(h, b) == OneLane(b[j]);
  }

  /** A state that counts blocks in lane 0 and keeps byte j of block i in lane 1. */
  function Recorded(s: State, b: Block, i: nat, j: nat): State
    requires j < 96
  {
    [if s[0] + 1 < SIZE_T then s[0] + 1 else 0, if s[0] == i then b[j] else s[1], 0, 0, 0, 0, 0, 0, 0, 0, 0, 0]
  }

  /** A core that counts the blocks mixed in and records byte j of block i. */
  function ShowBlock(core: Core, i: nat, j: nat): Core
    requires j < 96
  {
    Core((s: State, b: Block) => Recorded(s, b, i, j), (s: State, b: Block) => s, core.short)
  }

  lemma {:induction false} FoldRecords(core: Core, i: nat, j: nat, h: State, message: seq<Byte>, n: nat)
    requires j < 96 && 96 * n <= |message| && n < SIZE_T && h[0] == h[1] == 0
    ensures var s := Fold(ShowBlock(core, i, j), h, message, n);
            s[0] == n && s[1] == if i < n then message[96 * i + j] else 0
  {
    if n > 0 {
      FoldRecords(core, i, j, h, message, n - 1);
      var s, b := Fold(ShowBlock(core, i, j), h, message, n - 1), message[96 * n - 96..96 * n];
      assert Fold(ShowBlock(core, i, j), h, message, n) == Recorded(s, b, i, j);
      assert b[j] == message[96 * (n - 1) + j];
    }
  }

  /** All whole blocks of the message are mixed in, in order, and each once. */
  lemma {:induction false} BlocksInOrder(core: Core, message: seq<Byte>, i: nat, j: nat)
    requires 192 <= |message| < SIZE_T && i < |message| / 96 && j < 96
    ensures Digest(ShowBlock(core, i, j), 0, 0, message) == (|message| / 96, message[96 * i + j])
  {
    var h, b := LongForm(ShowBlock(core, i, j), 0, 0, message);
    FoldRecords(core, i, j, Start(0, 0), message, |message| / 96);
  }

  // ---------- memory ----------

  /** `memcpy` into an array. */
  method Copy(a: array<Byte>, at: nat, bytes: seq<Byte>)
    requires at + |bytes| <= a.Length
    modifies a
    ensures a[..at + |bytes|] == old(a[..at]) + bytes
    ensures a[at + |bytes|..] == old(a[at + |bytes|..])
  {
    forall i | 0 <= i < |bytes| {
      a[at + i] := bytes[i];
    }
  }

  /** `memset` of the rest of a block, then the length in its last byte. */
  method Pad(a: array<Byte>, at: nat, remainder: nat)
    requires at + 96 <= a.Length && remainder < 96
    modifies a
    ensures a[at..at + 96] == Padded(old(a[at..at + remainder]))
    ensures a[..at + remainder] == old(a[..at + remainder])
  {
    ghost var rest := a[at..at + remainder];
    forall i | remainder <= i < 96 {
      a[at + i] := 0;
    }
    a[at + 95] := remainder;
    ZerosAre(95 - remainder);
    assert a[at..at + 96] == rest + Zeros(95 - remainder) + [remainder];
  }

  lemma {:induction false} ZerosAre(n: nat)
    ensures forall i :: 0 <= i < n ==> Zeros(n)[i] == 0
  {
    if n > 0 {
      ZerosAre(n - 1);
    }
  }

  /** The loop over the whole blocks of `bytes`, the end of a message of which k blocks are
      mixed in so far. */
  method MixBlocks(core: Core, h0: State, bytes: seq<Byte>, from: nat, end: nat,
                   ghost start: State, ghost message: seq<Byte>, ghost k: nat, ghost n: nat)
    returns (h: State)
    requires from + 96 * n == end <= |bytes| <= |message| && bytes == message[|message| - |bytes|..]
    requires 96 * k == |message| - |bytes| + from && h0 == Fold(core, start, message, k)
    ensures h == Fold(core, start, message, k + n)
  {
    h := h0;
    var u := from;
    ghost var i: nat := 0;
    while u < end
      invariant i <= n && u == from + 96 * i
      invariant h == Fold(core, start, message, k + i)
      decreases n - i
    {
      SliceOfTail(message, bytes, u, u + 96);
      h := core.mix(h, bytes[u..u + 96]);
      u, i := u + 96, i + 1;
    }
  }

  lemma {:induction false} SliceOfTail(message: seq<Byte>, bytes: seq<Byte>, i: nat, j: nat)
    requires |bytes| <= |message| && bytes == message[|message| - |bytes|..] && i <= j <= |bytes|
    ensures bytes[i..j] == message[|message| - |bytes| + i..|message| - |bytes| + j]
  {
  }

  /** Hashes a whole message in one call. */
  method Hash128(core: Core, message: seq<Byte>, seed1: Lane, seed2: Lane) returns (hash1: Lane, hash2: Lane)
    ensures (hash1, hash2) == Digest(core, seed1, seed2, message)
  {
    if |message| < 192 {
      var s := core.short(message, seed1, seed2);
      return s.0, s.1;
    }
    var end := |message| / 96 * 96;
    ghost var start := Start(seed1, seed2);
    assert message == message[0..];
    var h := MixBlocks(core, Start(seed1, seed2), message, 0, end, start, message, 0, |message| / 96);
    var remainder := |message| - end;
    var buf := new Byte[96];
    Copy(buf, 0, message[end..]);
    Pad(buf, 0, remainder);
    assert buf[..] == buf[0..96] == Padded(message[end..]);
    h := core.end(h, buf[..]);
    return h[0], h[1];
  }

  // ---------- the stream ----------

  /** What the fields say once `message` has gone in and its first n blocks are mixed. */
  ghost predicate Represents(core: Core, seed1: Lane, seed2: Lane, message: seq<Byte>, n: nat, length: nat,
                             remainder: nat, data: seq<Byte>, state: seq<Lane>)
    requires |data| == 192 && |state| == 12
  {
    && length == |message| == 96 * n + remainder && remainder < 192
    && data[..remainder] == message[96 * n..]
    && (length < 192 ==> n == 0 && state[0] == seed1 && state[1] == seed2)
    && (length >= 192 ==> state == Fold(core, Start(seed1, seed2), message, n))
  }

  class SpookyHash {
    const core: Core
    const data: array<Byte>
    const state: array<Lane>
    var length: nat
    var remainder: nat

    ghost var seed1: Lane
    ghost var seed2: Lane
    /** Everything added so far. */
    ghost var message: seq<Byte>
    /** How many of its blocks are mixed into the state. */
    ghost var mixed: nat

    ghost predicate Valid()
      reads this, data, state
    {
      && data.Length == 192 && state.Length == 12
      && Represents(core, seed1, seed2, message, mixed, length, remainder, data[..], state[..])
    }

    /** The object, and `Init`: only the two seeds are stored. */
    constructor (core: Core, seed1: Lane, seed2: Lane)
      ensures Valid() && message == [] && this.core == core && this.seed1 == seed1 && this.seed2 == seed2
      ensures fresh(data) && fresh(state)
    {
      this.core := core;
      data := new Byte[192];
      state := new Lane[12];
      length, remainder := 0, 0;
      this.seed1, this.seed2, message, mixed := seed1, seed2, [], 0;
      new;
      state[0] := seed1;
      state[1] := seed2;
    }

    /** The variables h0 to h11 to go on from. */
    method LoadState() returns (h: State)
      requires Valid()
      ensures h == Fold(core, Start(seed1, seed2), message, mixed)
    {
      h := if length < 192 then Start(state[0], state[1]) else state[..];
    }

    method StoreState(h: State)
      requires state.Length == 12
      modifies state
      ensures state[..] == h
    {
      forall i | 0 <= i < 12 {
        state[i] := h[i];
      }
    }

    /** Fills the stash to two blocks and mixes both, if anything is stashed. */
    method TakeStash(h0: State, fragment: seq<Byte>, ghost start: State, ghost whole: seq<Byte>, ghost n: nat)
      returns (h: State, u: nat)
      requires data.Length == 192 && remainder < 192 <= remainder + |fragment|
      requires |whole| == 96 * n + remainder + |fragment| && whole[96 * n..] == data[..remainder] + fragment
      requires h0 == Fold(core, start, whole, n)
      modifies data
      ensures u <= |fragment| && u == (if remainder == 0 then 0 else 192 - remainder)
      ensures h == Fold(core, start, whole, if remainder == 0 then n else n + 2)
    {
      h, u := h0, 0;
      if remainder != 0 {
        u := 192 - remainder;
        ghost var stashed := data[..remainder];
        Copy(data, remainder, fragment[..u]);
        TwoBlocks(whole, stashed, fragment, 96 * n, u, data[..]);
        h := core.mix(h, data[..96]);
        h := core.mix(h, data[96..]);
      }
    }

    /** Stashes a fragment that does not fill two blocks. */
    method Stash(fragment: seq<Byte>)
      requires Valid() && |fragment| + remainder < 192
      modifies this`length, this`remainder, this`message, data
      ensures Valid() && message == old(message) + fragment
    {
      assert data[..][..remainder] == data[..remainder];
      StashedTail(message, fragment, 96 * mixed);
      FoldPrefix(core, Start(seed1, seed2), message, fragment, mixed);
      Copy(data, remainder, fragment);
      length := |fragment| + length;
      remainder := |fragment| + remainder;
      message := message + fragment;
      assert data[..][..remainder] == data[..remainder];
    }

    /** Adds a fragment, of any length, to the message. */
    method Update(fragment: seq<Byte>)
      requires Valid() && |message| + |fragment| < SIZE_T
      modifies this`length, this`remainder, this`message, this`mixed, data, state
      ensures Valid() && message == old(message) + fragment
    {
      if |fragment| + remainder < 192 {
        Stash(fragment);
        return;
      }
      ghost var start, whole := Start(seed1, seed2), message + fragment;
      assert data[..][..remainder] == data[..remainder];
      StashedTail(message, fragment, 96 * mixed);
      FoldPrefix(core, start, message, fragment, mixed);
      var h := LoadState();
      length := |fragment| + length;
      var u;
      h, u := TakeStash(h, fragment, start, whole, mixed);
      mixed := mixed + if u > 0 then 2 else 0;
      MixRest(h, fragment, u, whole);
    }

    /** The blocks that lie whole in the fragment, and the new stash. */
    method MixRest(h0: State, fragment: seq<Byte>, u: nat, ghost whole: seq<Byte>)
      requires data.Length == 192 && state.Length == 12
      requires u <= |fragment| <= |whole| == length && 192 <= length && fragment == whole[|whole| - |fragment|..]
      requires 96 * mixed == |whole| - |fragment| + u && h0 == Fold(core, Start(seed1, seed2), whole, mixed)
      modifies this`remainder, this`message, this`mixed, data, state
      ensures Valid() && message == whole
    {
      var n := (|fragment| - u) / 96;
      var end := u + 96 * n;
      var h := MixBlocks(core, h0, fragment, u, end, Start(seed1, seed2), whole, mixed, n);
      message, mixed := whole, mixed + n;
      remainder := |fragment| - end;
      SliceOfTail(whole, fragment, end, |fragment|);
      assert whole[96 * mixed..] == fragment[end..];
      Copy(data, 0, fragment[end..]);
      StoreState(h);
      assert data[..][..remainder] == data[..remainder] == fragment[end..];
    }

    /** The hash of everything added so far. It writes to the stash, but only behind the
        bytes stashed there: the state stands for the same message as before. */
    method Final() returns (hash1: Lane, hash2: Lane)
      requires Valid()
      modifies data
      ensures Valid()
      ensures (hash1, hash2) == Digest(core, seed1, seed2, message)
    {
      assert data[..][..remainder] == data[..remainder];
      if length < 192 {
        assert message[96 * mixed..] == message;
        var s := core.short(data[..length], state[0], state[1]);
        return s.0, s.1;
      }
      var h := LoadState();
      var at, rest := 0, remainder;
      if rest >= 96 {
        h := core.mix(h, data[..96]);
        at, rest := 96, rest - 96;
      }
      Leftover(message, mixed, remainder, data[..remainder]);
      ghost var n, left := |message| / 96, data[at..at + rest];
      assert left == data[..remainder][at..] == message[96 * n..];
      assert data[..96] == if remainder >= 96 then data[..remainder][..96] else data[..96];
      assert h == Fold(core, Start(seed1, seed2), message, n);
      Pad(data, at, rest);
      assert data[at..at + 96] == Padded(message[96 * n..]);
      assert data[..][..remainder] == data[..remainder];
      h := core.end(h, data[at..at + 96]);
      return h[0], h[1];
    }
  }

  lemma {:induction false} StashedTail(message: seq<Byte>, fragment: seq<Byte>, done: nat)
    requires done <= |message|
    ensures (message + fragment)[done..] == message[done..] + fragment
    ensures (message + fragment)[..done] == message[..done]
  {
  }

  lemma {:induction false} TwoBlocks(whole: seq<Byte>, stashed: seq<Byte>, fragment: seq<Byte>, at: nat, u: nat,
                                     data: seq<Byte>)
    requires at <= |whole| && whole[at..] == stashed + fragment && u <= |fragment|
    requires |data| == 192 == |stashed| + u && data == stashed + fragment[..u]
    ensures at + 192 <= |whole|
    ensures whole[at..at + 96] == data[..96] && whole[at + 96..at + 192] == data[96..]
  {
    assert whole[at..][..192] == data;
    assert whole[at..at + 96] == whole[at..][..192][..96];
    assert whole[at + 96..at + 192] == whole[at..][..192][96..];
  }

  /** What the stash holds when the message ends: perhaps one more block, and what is left over. */
  lemma {:induction false} Leftover(message: seq<Byte>, n: nat, remainder: nat, stash: seq<Byte>)
    requires |message| == 96 * n + remainder && remainder < 192 && stash == message[96 * n..]
    ensures if remainder >= 96
            then |message| / 96 == n + 1 && message[96 * n..96 * n + 96] == stash[..96] &&
                 message[96 * n + 96..] == stash[96..]
            else |message| / 96 == n && message[96 * n..] == stash
  {
  }

  // ---------- fragments of a message ----------

  /** The contract of the stream: however a message is cut into fragments, and although a hash
      is asked for after each of them, every hash is that of what has been added so far. */
  method HashEach(core: Core, seed1: Lane, seed2: Lane, fragments: seq<seq<Byte>>) returns (hashes: seq<(Lane, Lane)>)
    requires |Joined(fragments)| < SIZE_T
    ensures |hashes| == |fragments| + 1
    ensures forall i :: 0 <= i <= |fragments| ==> hashes[i] == Digest(core, seed1, seed2, Joined(fragments[..i]))
  {
    var hash := new SpookyHash(core, seed1, seed2);
    var hash1, hash2 := hash.Final();
    hashes := [(hash1, hash2)];
    for n := 0 to |fragments|
      invariant hash.Valid() && hash.core == core && hash.seed1 == seed1 && hash.seed2 == seed2
      invariant fresh(hash) && fresh(hash.data) && fresh(hash.state)
      invariant hash.message == Joined(fragments[..n]) && |hashes| == n + 1
      invariant forall i :: 0 <= i <= n ==> hashes[i] == Digest(core, seed1, seed2, Joined(fragments[..i]))
    {
      JoinedPrefix(fragments, n);
      hash.Update(fragments[n]);
      hash1, hash2 := hash.Final();
      hashes := hashes + [(hash1, hash2)];
    }
  }

  /** Every row of a rectangle lies inside the pixmap. */
  ghost predicate RowsInside(pixmap: seq<Byte>, startX: nat, startY: nat, width: nat, bufferWidth: nat, height: nat) {
    forall y :: 0 <= y < height ==> 4 * Position(startX, startY, bufferWidth, y) + 4 * width <= |pixmap|
  }

  /** The bytes of the first n rows of a rectangle of a pixmap. */
  ghost function SubBuffer(pixmap: seq<Byte>, startX: nat, startY: nat, width: nat, bufferWidth: nat,
                           n: nat): (r: seq<Byte>)
    requires RowsInside(pixmap, startX, startY, width, bufferWidth, n)
  {
    if n == 0 then []
    else
      var at := 4 * Position(startX, startY, bufferWidth, n - 1);
      SubBuffer(pixmap, startX, startY, width, bufferWidth, n - 1) + pixmap[at..at + 4 * width]
  }

  lemma {:induction false} SubBufferGrows(pixmap: seq<Byte>, startX: nat, startY: nat, width: nat, bufferWidth: nat,
                                          n: nat, height: nat)
    requires n <= height && RowsInside(pixmap, startX, startY, width, bufferWidth, height)
    ensures |SubBuffer(pixmap, startX, startY, width, bufferWidth, n)|
         <= |SubBuffer(pixmap, startX, startY, width, bufferWidth, height)|
  {
    if n < height {
      SubBufferGrows(pixmap, startX, startY, width, bufferWidth, n, height - 1);
    }
  }

  /** Byte by byte: row y of the rectangle is a piece of row startY + y of the pixmap. */
  lemma {:induction false} SubBufferAt(pixmap: seq<Byte>, startX: nat, startY: nat, width: nat, bufferWidth: nat,
                                       n: nat, y: nat, k: nat)
    requires RowsInside(pixmap, startX, startY, width, bufferWidth, n) && y < n && k < 4 * width
    ensures |SubBuffer(pixmap, startX, startY, width, bufferWidth, n)| == n * (4 * width)
    ensures y * (4 * width) + k < n * (4 * width)
    ensures SubBuffer(pixmap, startX, startY, width, bufferWidth, n)[y * (4 * width) + k] ==
              pixmap[4 * ((startY + y) * bufferWidth + startX) + k]
  {
    SubBufferSize(pixmap, startX, startY, width, bufferWidth, n);
    SubBufferSize(pixmap, startX, startY, width, bufferWidth, n - 1);
    var at := 4 * Position(startX, startY, bufferWidth, n - 1);
    RowIndex(y, n, 4 * width, k);
    if y < n - 1 {
      SubBufferAt(pixmap, startX, startY, width, bufferWidth, n - 1, y, k);
    } else {
      assert pixmap[at..at + 4 * width][k] == pixmap[at + k];
    }
  }

  lemma {:induction false} RowIndex(y: nat, n: nat, size: nat, k: nat)
    requires y < n && k < size
    ensures y * size + k < n * size && (y < n - 1 ==> y * size + k < (n - 1) * size)
  {
    MulMonotone(y + 1, n, size);
    if y < n - 1 {
      MulMonotone(y + 1, n - 1, size);
    }
  }

  lemma {:induction false} SubBufferSize(pixmap: seq<Byte>, startX: nat, startY: nat, width: nat, bufferWidth: nat,
                                         n: nat)
    requires RowsInside(pixmap, startX, startY, width, bufferWidth, n)
    ensures |SubBuffer(pixmap, startX, startY, width, bufferWidth, n)| == n * (4 * width)
  {
    if n > 0 {
      SubBufferSize(pixmap, startX, startY, width, bufferWidth, n - 1);
      assert n * (4 * width) == (n - 1) * (4 * width) + 4 * width;
    }
  }

  method UpdateRow(hash: SpookyHash, pixmap: seq<Byte>, startX: nat, startY: nat, width: nat, bufferWidth: nat, y: nat)
    requires hash.Valid() && RowsInside(pixmap, startX, startY, width, bufferWidth, y + 1)
    requires hash.message == SubBuffer(pixmap, startX, startY, width, bufferWidth, y)
    requires |SubBuffer(pixmap, startX, startY, width, bufferWidth, y + 1)| < SIZE_T
    modifies hash`length, hash`remainder, hash`message, hash`mixed, hash.data, hash.state
    ensures hash.Valid() && hash.message == SubBuffer(pixmap, startX, startY, width, bufferWidth, y + 1)
  {
    var position := 4 * Position(startX, startY, bufferWidth, y);
    hash.Update(pixmap[position..position + 4 * width]);
  }

  const SEED: Lane := 1073741789

  /** The loop over the rows of a rectangle. */
  method UpdateRows(hash: SpookyHash, pixmap: seq<Byte>, startX: nat, startY: nat, width: nat, height: nat,
                    bufferWidth: nat)
    requires hash.Valid() && hash.message == []
    requires RowsInside(pixmap, startX, startY, width, bufferWidth, height)
    requires |SubBuffer(pixmap, startX, startY, width, bufferWidth, height)| < SIZE_T
    modifies hash`length, hash`remainder, hash`message, hash`mixed, hash.data, hash.state
    ensures hash.Valid() && hash.message == SubBuffer(pixmap, startX, startY, width, bufferWidth, height)
  {
    for y := 0 to height
      invariant hash.Valid() && hash.message == SubBuffer(pixmap, startX, startY, width, bufferWidth, y)
    {
      SubBufferGrows(pixmap, startX, startY, width, bufferWidth, y + 1, height);
      UpdateRow(hash, pixmap, startX, startY, width, bufferWidth, y);
    }
  }

  /** Hashes a rectangle of a pixmap row by row, nothing if its height is not positive; 0 stands for a
      rectangle larger than the pixmap. */
  method HashSubBuffer(core: Core, pixmap: seq<Byte>, startX: nat, startY: nat, width: int, height: int,
                       bufferWidth: int, bufferHeight: int)
    returns (hash1: Lane)
    requires width <= bufferWidth && 0 < height <= bufferHeight ==>
               && 0 <= width && RowsInside(pixmap, startX, startY, width, bufferWidth, height)
               && |SubBuffer(pixmap, startX, startY, width, bufferWidth, height)| < SIZE_T
    ensures bufferWidth < width || bufferHeight < height ==> hash1 == 0
    ensures width <= bufferWidth && 0 < height <= bufferHeight ==>
              hash1 ==
                Digest(core, 1073741789, 1073741789, SubBuffer(pixmap, startX, startY, width, bufferWidth, height)).0
    ensures width <= bufferWidth && height <= bufferHeight && height <= 0 ==>
              hash1 == Digest(core, 1073741789, 1073741789, []).0
  {
    if bufferWidth < width || bufferHeight < height {
      return 0;
    }
    var hash := new SpookyHash(core, SEED, SEED);
    if 0 < height {
      UpdateRows(hash, pixmap, startX, startY, width, height, bufferWidth);
    }
    var unused;
    hash1, unused := hash.Final();
  }
}

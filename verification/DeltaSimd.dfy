/** The vector encoder of kit/DeltaSimd.c, eight 32-bit lanes at a time. */
module DeltaSimd {
  import opened Pixels
  import opened RowCodec

  // ---------- bitwise operations ----------

  function AndBits(a: nat, b: nat): (r: nat)
    ensures r <= a
  {
    if a == 0 || b == 0 then 0
    else (if a % 2 == 1 && b % 2 == 1 then 1 else 0) + 2 * AndBits(a / 2, b / 2)
  }

  function OrBits(a: nat, b: nat): (r: nat)
    ensures r <= a + b
    ensures b == 0 ==> r == a
    ensures a == 0 ==> r == b
  {
    if a == 0 then b else if b == 0 then a
    else (if a % 2 == 1 || b % 2 == 1 then 1 else 0) + 2 * OrBits(a / 2, b / 2)
  }

  lemma {:induction false} OrFits(a: nat, b: nat, n: nat)
    requires a < Pow2(n) && b < Pow2(n)
    ensures OrBits(a, b) < Pow2(n)
  {
    if n > 0 {
      OrFits(a / 2, b / 2, n - 1);
    }
  }

  lemma {:induction false} AndOnes(b: nat, n: nat)
    requires b < Pow2(n)
    ensures AndBits(Pow2(n) - 1, b) == b
  {
    if n > 0 {
      assert (Pow2(n) - 1) / 2 == Pow2(n - 1) - 1;
      AndOnes(b / 2, n - 1);
    }
  }

  function AndPixel(m: Pixel, p: Pixel): Pixel {
    Pixel(AndBits(m.b0, p.b0), AndBits(m.b1, p.b1), AndBits(m.b2, p.b2), AndBits(m.b3, p.b3))
  }

  function AndNotPixel(m: Pixel, p: Pixel): Pixel {
    AndPixel(Pixel(255 - m.b0, 255 - m.b1, 255 - m.b2, 255 - m.b3), p)
  }

  function OrPixel(p: Pixel, q: Pixel): Pixel {
    OrFits(p.b0, q.b0, 8);
    OrFits(p.b1, q.b1, 8);
    OrFits(p.b2, q.b2, 8);
    OrFits(p.b3, q.b3, 8);
    Pixel(OrBits(p.b0, q.b0), OrBits(p.b1, q.b1), OrBits(p.b2, q.b2), OrBits(p.b3, q.b3))
  }

  const ONES := Pixel(255, 255, 255, 255)

  lemma {:induction false} MaskedPixel(p: Pixel)
    ensures AndPixel(ONES, p) == p && AndPixel(TRANSPARENT, p) == TRANSPARENT
  {
    assert Pow2(8) == 256;
    AndOnes(p.b0, 8);
    AndOnes(p.b1, 8);
    AndOnes(p.b2, 8);
    AndOnes(p.b3, 8);
  }

  /** Masking one operand in and the other out, then merging, picks one of the two. */
  lemma {:induction false} BlendedPixel(m: Pixel, p: Pixel, q: Pixel)
    requires m == ONES || m == TRANSPARENT
    ensures OrPixel(AndNotPixel(m, p), AndPixel(m, q)) == if m == ONES then q else p
  {
    MaskedPixel(p);
    MaskedPixel(q);
  }

  // ---------- vectors ----------

  type Lanes = v: seq<Pixel> | |v| == 8 witness ZERO_LANES
  type Control = v: seq<nat> | |v| == 8 witness ZERO_CONTROL

  const ZERO_LANES: seq<Pixel> :=
    [TRANSPARENT, TRANSPARENT, TRANSPARENT, TRANSPARENT, TRANSPARENT, TRANSPARENT, TRANSPARENT, TRANSPARENT]
  const ZERO_CONTROL: seq<nat> := [0, 0, 0, 0, 0, 0, 0, 0]
  const LOW_PIXEL_MASK: Lanes :=
    [ONES, TRANSPARENT, TRANSPARENT, TRANSPARENT, TRANSPARENT, TRANSPARENT, TRANSPARENT, TRANSPARENT]
  const SHIFT_LEFT: Control := [0, 0, 1, 2, 3, 4, 5, 6]
  const LAST_TO_FIRST: Control := [7, 0, 0, 0, 0, 0, 0, 0]

  /** `_mm256_permutevar8x32_epi32`: lane j is the lane the low three bits of its control name. */
  function Permute(v: Lanes, c: Control): Lanes {
    seq(8, j requires 0 <= j < 8 => v[c[j] % 8])
  }

  function And(m: Lanes, v: Lanes): Lanes {
    seq(8, j requires 0 <= j < 8 => AndPixel(m[j], v[j]))
  }

  function AndNot(m: Lanes, v: Lanes): Lanes {
    seq(8, j requires 0 <= j < 8 => AndNotPixel(m[j], v[j]))
  }

  function Or(v: Lanes, w: Lanes): Lanes {
    seq(8, j requires 0 <= j < 8 => OrPixel(v[j], w[j]))
  }

  /** Compare lanes and gather the sign bits. */
  function DiffMask(prev: Lanes, curr: Lanes): (m: Byte)
    ensures forall j :: 0 <= j < 8 ==> TestBit(m, j) == (prev[j] == curr[j])
  {
    PackByte(seq(8, j requires 0 <= j < 8 => prev[j] == curr[j]))
  }

  // ---------- the gather table ----------

  /** The clear bits of a pattern below bit n, in order: the lanes to keep. */
  function ClearBits(pattern: nat, n: nat): (r: seq<nat>)
    ensures |r| <= n
    ensures forall i :: 0 <= i < |r| ==> r[i] < n
  {
    if n == 0 then [] else
      ClearBits(pattern, n - 1) + if TestBit(pattern, n - 1) then [] else [n - 1]
  }

  predicate Gathers(lut: seq<nat>, pattern: nat) {
    |lut| == 8 && ClearBits(pattern, 8) <= lut
  }

  /** `init_gather_lut`. */
  method InitGatherLut(vpermdLut: array<Control>)
    requires vpermdLut.Length == 256
    modifies vpermdLut
    ensures forall p :: 0 <= p < 256 ==> Gathers(vpermdLut[p], p)
    ensures forall p, j :: 0 <= p < 256 && |ClearBits(p, 8)| <= j < 8 ==> vpermdLut[p][j] == 0
  {
    for pattern := 0 to 256
      invariant forall p :: 0 <= p < pattern ==> Gathers(vpermdLut[p], p)
      invariant forall p, j :: 0 <= p < pattern && |ClearBits(p, 8)| <= j < 8 ==> vpermdLut[p][j] == 0
    {
      var i: nat, src: nat := 0, 0;
      var lut: Control := ZERO_CONTROL;
      var bitToCheck := 0;
      while bitToCheck < 8
        invariant bitToCheck <= 8 && src == bitToCheck
        invariant i == |ClearBits(pattern, bitToCheck)| <= bitToCheck
        invariant lut[..i] == ClearBits(pattern, bitToCheck)
      {
        if !TestBit(pattern, bitToCheck) {
          lut := lut[i := src];
          i := i + 1;
        }
        src, bitToCheck := src + 1, bitToCheck + 1;
      }
      ghost var kept := i;
      while i < 8
        invariant kept <= i <= 8
        invariant lut[..kept] == ClearBits(pattern, 8)
        invariant forall j :: kept <= j < i ==> lut[j] == 0
      {
        lut := lut[i := 0];
        i := i + 1;
      }
      vpermdLut[pattern] := lut;
    }
  }

  /** `_mm_popcnt_u32` of the inverted mask. */
  function CountClear(mask: nat): nat {
    |ClearBits(mask, 8)|
  }

  // ---------- one vector step ----------

  lemma {:induction false} ShiftedLane(prev: Lanes, curr: Lanes, lastPix: Lanes, shifted: Lanes, j: nat)
    requires lastPix == And(LOW_PIXEL_MASK, Permute(prev, LAST_TO_FIRST))
    requires shifted == AndNot(LOW_PIXEL_MASK, Permute(curr, SHIFT_LEFT))
    requires j < 8
    ensures Or(shifted, lastPix)[j] == if j == 0 then prev[7] else curr[j - 1]
  {
    var p, q := Permute(curr, SHIFT_LEFT)[j], Permute(prev, LAST_TO_FIRST)[j];
    var m := LOW_PIXEL_MASK[j];
    assert m == if j == 0 then ONES else TRANSPARENT;
    assert j == 0 ==> q == prev[7];
    assert j > 0 ==> p == curr[j - 1];
    BlendedPixel(m, p, q);
  }

  /** The left neighbours of eight pixels: shift them, mask out the bottom lane and merge
      in the last pixel of the vector before. */
  method LeftNeighbours(prev: Lanes, curr: Lanes) returns (r: Lanes)
    ensures r[0] == prev[7] && forall j :: 1 <= j < 8 ==> r[j] == curr[j - 1]
  {
    var lastPix := And(LOW_PIXEL_MASK, Permute(prev, LAST_TO_FIRST));
    var shifted := AndNot(LOW_PIXEL_MASK, Permute(curr, SHIFT_LEFT));
    r := Or(shifted, lastPix);
    forall j | 0 <= j < 8 ensures r[j] == if j == 0 then prev[7] else curr[j - 1] {
      ShiftedLane(prev, curr, lastPix, shifted, j);
    }
  }

  /** The lanes at the given places. */
  function Select(v: seq<Pixel>, places: seq<nat>): (r: seq<Pixel>)
    requires forall i :: 0 <= i < |places| ==> places[i] < |v|
    ensures |r| == |places|
  {
    if places == [] then [] else Select(v, places[..|places| - 1]) + [v[places[|places| - 1]]]
  }

  /** The mask of a step tells which of its eight pixels repeat their left neighbour. */
  ghost predicate StepMask(from: seq<Pixel>, x: nat, mask: nat) {
    x + 8 <= |from| && forall j :: 0 <= j < 8 ==> TestBit(mask, j) == Same(from, x + j)
  }

  lemma {:induction false} SelectStep(v: seq<Pixel>, mask: nat, k: nat)
    requires k < |v|
    ensures Select(v, ClearBits(mask, k + 1)) == Select(v, ClearBits(mask, k)) + if TestBit(mask, k) then [] else [v[k]]
  {
    var places, more := ClearBits(mask, k), ClearBits(mask, k + 1);
    if TestBit(mask, k) {
      assert more == places;
    } else {
      assert more == places + [k];
      assert more[..|more| - 1] == places;
    }
  }

  lemma {:induction false} ChangedStepFrom(from: seq<Pixel>, i: nat, before: seq<Pixel>, kept: seq<Pixel>)
    requires i < |from| && Changed(from[..i]) == before + kept
    ensures Changed(from[..i + 1]) == before + (kept + if Same(from, i) then [] else [from[i]])
  {
    ChangedStep(from, i);
  }

  /** The kept lanes of a step are the changed pixels of the chunk. */
  lemma {:induction false} KeptLanes(from: seq<Pixel>, x: nat, mask: nat, n: nat)
    requires StepMask(from, x, mask) && n <= 8
    ensures Changed(from[..x + n]) == Changed(from[..x]) + Select(from[x..x + 8], ClearBits(mask, n))
  {
    if n > 0 {
      var k, curr := n - 1, from[x..x + 8];
      KeptLanes(from, x, mask, k);
      assert TestBit(mask, k) == Same(from, x + k) && curr[k] == from[x + k];
      SelectStep(curr, mask, k);
      ChangedStepFrom(from, x + k, Changed(from[..x]), Select(curr, ClearBits(mask, k)));
    }
  }

  lemma {:induction false} ClearBitsPrefix(mask: nat, n: nat, m: nat)
    requires n <= m
    ensures ClearBits(mask, n) <= ClearBits(mask, m)
  {
    if n < m {
      ClearBitsPrefix(mask, n, m - 1);
    }
  }

  lemma {:induction false} ClearBitAt(mask: nat, k: nat, m: nat)
    requires k < m && !TestBit(mask, k)
    ensures |ClearBits(mask, k)| < |ClearBits(mask, m)| && ClearBits(mask, m)[|ClearBits(mask, k)|] == k
  {
    ClearBitsPrefix(mask, k + 1, m);
    assert ClearBits(mask, k + 1) == ClearBits(mask, k) + [k];
  }

  lemma {:induction false} PermutedLane(curr: Lanes, lut: Control, kept: seq<nat>, i: nat)
    requires kept <= lut && i < |kept| && kept[i] < 8
    ensures Permute(curr, lut)[i] == curr[kept[i]]
  {
    assert lut[i] == kept[i];
  }

  lemma {:induction false} PrefixSnoc(s: seq<Pixel>, p: seq<Pixel>)
    requires s <= p && |s| < |p|
    ensures s + [p[|s|]] <= p
  {
  }

  /** Permuting by the table entry of a mask moves the kept lanes to the front. */
  lemma {:induction false} PackedLanes(curr: Lanes, lut: Control, mask: nat, n: nat)
    requires Gathers(lut, mask) && n <= 8
    ensures Select(curr, ClearBits(mask, n)) <= Permute(curr, lut)
  {
    if n > 0 {
      var k := n - 1;
      PackedLanes(curr, lut, mask, k);
      SelectStep(curr, mask, k);
      if !TestBit(mask, k) {
        ClearBitAt(mask, k, 8);
        PermutedLane(curr, lut, ClearBits(mask, 8), |ClearBits(mask, k)|);
        PrefixSnoc(Select(curr, ClearBits(mask, k)), Permute(curr, lut));
      }
    }
  }

  // ---------- the row ----------

  /** The little-endian word over eight mask bytes. */
  function WordOfBytes(bs: seq<Byte>): Word
    requires |bs| == 8
  {
    seq(64, b requires 0 <= b < 64 => TestBit(bs[b / 8], b % 8))
  }

  /** Mask bytes that describe the first n chunks of eight pixels. */
  ghost predicate MaskBytes(from: seq<Pixel>, bytes: seq<Byte>, n: nat)
    requires 8 * n <= |from| && n <= |bytes|
  {
    forall i, j :: 0 <= i < n && 0 <= j < 8 ==> TestBit(bytes[i], j) == Same(from, 8 * i + j)
  }

  lemma {:induction false} MaskBytesStep(from: seq<Pixel>, bytes: seq<Byte>, n: nat, newMask: Byte)
    requires n < |bytes| && StepMask(from, 8 * n, newMask) && MaskBytes(from, bytes, n)
    ensures MaskBytes(from, bytes[n := newMask], n + 1)
  {
  }

  /** The mask block read as four words: nothing to swap on a little-endian machine. */
  function WordsOfBytes(bytes: seq<Byte>): Masks
    requires |bytes| == 32
  {
    [WordOfBytes(bytes[0..8]), WordOfBytes(bytes[8..16]), WordOfBytes(bytes[16..24]), WordOfBytes(bytes[24..32])]
  }

  lemma {:induction false} MaskBytesAreWord(from: seq<Pixel>, bytes: seq<Byte>, q: nat, part: seq<Byte>)
    requires |from| == 256 && |bytes| == 32 && MaskBytes(from, bytes, 32) && q < 4
    requires part == bytes[8 * q..8 * q + 8]
    ensures WordOfBytes(part) == MaskWord(from, q)
  {
    forall b | 0 <= b < 64
      ensures WordOfBytes(part)[b] == MaskWord(from, q)[b]
    {
      assert part[b / 8] == bytes[8 * q + b / 8];
      assert 8 * (8 * q + b / 8) + b % 8 == 64 * q + b;
    }
  }

  lemma {:induction false} MaskBytesAreMasks(from: seq<Pixel>, bytes: seq<Byte>)
    requires |from| == 256 && |bytes| == 32 && MaskBytes(from, bytes, 32)
    ensures WordsOfBytes(bytes) == RowMasks(from)
  {
    MaskBytesAreWord(from, bytes, 0, bytes[0..8]);
    MaskBytesAreWord(from, bytes, 1, bytes[8..16]);
    MaskBytesAreWord(from, bytes, 2, bytes[16..24]);
    MaskBytesAreWord(from, bytes, 3, bytes[24..32]);
  }

  /** The mask of one step: shift, blend in the last pixel, compare. */
  method StepMaskOf(from: seq<Pixel>, x: nat, prev: Lanes, curr: Lanes) returns (newMask: Byte)
    requires x + 8 <= |from| && curr == from[x..x + 8] && prev[7] == PrevPixel(from, x)
    ensures StepMask(from, x, newMask)
  {
    var shifted := LeftNeighbours(prev, curr);
    newMask := DiffMask(shifted, curr);
    forall j | 0 <= j < 8 ensures TestBit(newMask, j) == Same(from, x + j) {
      assert shifted[j] == PrevPixel(from, x + j);
    }
  }

  /** The over-store: eight lanes, of which the first `count` are kept. It stays inside
      `scratch` and behind the pixels already kept. */
  method StoreLanes(packed: Lanes, scratch: array<Pixel>, dest: nat, count: nat) returns (dest': nat)
    requires dest + 8 <= scratch.Length && count <= 8
    modifies scratch
    ensures dest' == dest + count
    ensures scratch[..dest'] == old(scratch[..dest]) + packed[..count]
    ensures scratch[dest..dest + 8] == packed
    ensures forall i :: dest + 8 <= i < scratch.Length ==> scratch[i] == old(scratch[i])
  {
    forall j | 0 <= j < 8 {
      scratch[dest + j] := packed[j];
    }
    dest' := dest + count;
  }

  /** One turn up to the store: the mask of eight pixels and the pixels packed by it. */
  method PackLanes(vpermdLut: seq<Control>, from: seq<Pixel>, x: nat, prev: Lanes)
    returns (curr: Lanes, newMask: Byte, packed: Lanes)
    requires |vpermdLut| == 256 && forall p :: 0 <= p < 256 ==> Gathers(vpermdLut[p], p)
    requires x + 8 <= |from| && prev[7] == PrevPixel(from, x)
    ensures curr[7] == PrevPixel(from, x + 8) && StepMask(from, x, newMask)
    ensures Changed(from[..x + 8]) == Changed(from[..x]) + packed[..CountClear(newMask)]
  {
    curr := from[x..x + 8];
    newMask := StepMaskOf(from, x, prev, curr);
    packed := Permute(curr, vpermdLut[newMask]);
    PackedLanes(curr, vpermdLut[newMask], newMask, 8);
    KeptLanes(from, x, newMask, 8);
    assert packed[..CountClear(newMask)] == Select(curr, ClearBits(newMask, 8));
  }

  lemma {:induction false} WholeRow(from: seq<Pixel>)
    requires |from| == 256
    ensures RowData(from) == Changed(from[..256])
  {
    assert from[..256] == from == Head(from);
    assert from[256..] == [];
  }

  /** `simd_initPixRowSimd`: the same result as the scalar encoder. Each turn stores eight
      lanes at `dest`, over whatever lies there. */
  method InitPixRowSimd(vpermdLut: seq<Control>, from: seq<Pixel>, scratch: array<Pixel>)
    returns (scratchLen: nat, rleMaskBlock: Masks)
    requires |vpermdLut| == 256 && forall p :: 0 <= p < 256 ==> Gathers(vpermdLut[p], p)
    requires |from| == 256 && scratch.Length == 256
    modifies scratch
    ensures scratchLen <= scratch.Length && scratch[..scratchLen] == RowData(from)
    ensures rleMaskBlock == RowMasks(from)
  {
    var bytes: seq<Byte> := Zeros(32);
    var dest: nat := 0;
    var prev: Lanes := ZERO_LANES;
    var x: nat := 0;
    ghost var i: nat := 0;
    while x < 256
      invariant x == 8 * i <= 256 && |bytes| == 32
      invariant prev[7] == PrevPixel(from, x)
      invariant MaskBytes(from, bytes, i)
      invariant dest <= x && scratch[..dest] == Changed(from[..x])
    {
      assert x / 8 == i;
      var curr, newMask, packed := PackLanes(vpermdLut, from, x, prev);
      MaskBytesStep(from, bytes, i, newMask);
      bytes := bytes[x / 8 := newMask];
      dest := StoreLanes(packed, scratch, dest, CountClear(newMask));
      prev := curr;
      x, i := x + 8, i + 1;
    }
    scratchLen := dest;
    WholeRow(from);
    MaskBytesAreMasks(from, bytes);
    rleMaskBlock := WordsOfBytes(bytes);
  }
}

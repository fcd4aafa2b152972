/** The run-length encoding of one row of pixels and its readers: the specification. */
module RowCodec {
  import opened Numbers
  import opened Pixels

  /** The four mask words cover this many pixels. */
  const MASKED: nat := 256

  /** The pixels the mask covers; the rest of a wider row is stored verbatim. */
  function Head(px: seq<Pixel>): (r: seq<Pixel>)
    ensures |r| == Min(MASKED, |px|)
  {
    px[..Min(MASKED, |px|)]
  }

  function PrevPixel(px: seq<Pixel>, i: nat): Pixel
    requires i <= |px|
  {
    if i == 0 then TRANSPARENT else px[i - 1]
  }

  predicate Same(px: seq<Pixel>, i: nat)
    requires i < |px|
  {
    px[i] == PrevPixel(px, i)
  }

  /** The pixels that differ from their left neighbour. */
  function Changed(px: seq<Pixel>): (r: seq<Pixel>)
    ensures |r| <= |px|
  {
    if px == [] then [] else
      var n := |px| - 1;
      Changed(px[..n]) + if Same(px, n) then [] else [px[n]]
  }

  /** Mask word q: bit b tells whether pixel 64 q + b repeats its left neighbour. */
  function MaskWord(px: seq<Pixel>, q: nat): Word {
    seq(64, b requires 0 <= b < 64 => 64 * q + b < |px| && Same(px, 64 * q + b))
  }

  function RowMasks(px: seq<Pixel>): Masks {
    [MaskWord(px, 0), MaskWord(px, 1), MaskWord(px, 2), MaskWord(px, 3)]
  }

  lemma {:induction false} MaskBit(px: seq<Pixel>, i: nat)
    requires i < |Head(px)|
    ensures RowMasks(px)[i / 64][i % 64] == Same(px, i)
  {
    assert RowMasks(px)[i / 64] == MaskWord(px, i / 64);
    assert 64 * (i / 64) + i % 64 == i;
  }

  function RowData(px: seq<Pixel>): seq<Pixel> {
    Changed(Head(px)) + px[|Head(px)|..]
  }

  // ---------- facts about the changed pixels ----------

  lemma {:induction false} ChangedStep(px: seq<Pixel>, n: nat)
    requires n < |px|
    ensures Changed(px[..n + 1]) == Changed(px[..n]) + if Same(px, n) then [] else [px[n]]
  {
    assert px[..n + 1][..n] == px[..n];
    assert Same(px[..n + 1], n) == Same(px, n);
  }

  /** What a reader has consumed after n pixels is a prefix of all the data. */
  lemma {:induction false} ChangedPrefix(px: seq<Pixel>, n: nat, m: nat)
    requires n <= m <= |px|
    ensures Changed(px[..n]) <= Changed(px[..m])
  {
    if n < m {
      ChangedPrefix(px, n, m - 1);
      ChangedStep(px, m - 1);
    }
  }

  /** Where a reader finds pixel n when it is a changed one. */
  lemma {:induction false} ChangedAt(px: seq<Pixel>, n: nat)
    requires n < |Head(px)|
    ensures Same(px, n) == Same(Head(px), n)
    ensures !Same(px, n) ==>
              |Changed(px[..n])| < |RowData(px)| && RowData(px)[|Changed(px[..n])|] == px[n]
    ensures |Changed(px[..n])| == |RowData(px)| ==> Same(px, n)
    ensures |Changed(px[..n])| <= |RowData(px)|
  {
    var head := Head(px);
    assert head[..n] == px[..n] && head[..n + 1] == px[..n + 1];
    ChangedStep(px, n);
    ChangedPrefix(head, n + 1, |head|);
    ChangedPrefix(head, n, |head|);
    assert head[..|head|] == head;
  }

  // ---------- canonical form ----------

  lemma {:induction false} SameEncodingSamePrefix(a: seq<Pixel>, b: seq<Pixel>, n: nat)
    requires |a| == |b| && n <= |Head(a)|
    requires RowMasks(a) == RowMasks(b) && RowData(a) == RowData(b)
    ensures a[..n] == b[..n]
  {
    if n > 0 {
      var i := n - 1;
      SameEncodingSamePrefix(a, b, i);
      MaskBit(a, i);
      MaskBit(b, i);
      ChangedAt(a, i);
      ChangedAt(b, i);
      assert PrevPixel(a, i) == PrevPixel(b, i) by {
        if i > 0 {
          assert a[..i][i - 1] == b[..i][i - 1];
        }
      }
      assert a[i] == b[i];
      assert a[..n] == a[..i] + [a[i]] && b[..n] == b[..i] + [b[i]];
    }
  }

  /** Rows of equal width have the same encoding exactly when they are the same row. */
  lemma {:induction false} EncodingIsCanonical(a: seq<Pixel>, b: seq<Pixel>)
    requires |a| == |b|
    ensures RowMasks(a) == RowMasks(b) && RowData(a) == RowData(b) <==> a == b
  {
    if RowMasks(a) == RowMasks(b) && RowData(a) == RowData(b) {
      var h := |Head(a)|;
      SameEncodingSamePrefix(a, b, h);
      assert a[..h] == b[..h];
      assert Changed(Head(a)) == Changed(Head(b));
      assert a[h..] == RowData(a)[|Changed(Head(a))|..] == RowData(b)[|Changed(Head(b))|..] == b[h..];
      assert a == a[..h] + a[h..] && b == b[..h] + b[h..];
    }
  }

  // ---------- what the 64-bit reader yields ----------

  /** How many pixels the mask covers. */
  function Cover(px: seq<Pixel>): nat {
    Min(MASKED, |px|)
  }

  /** The pixel a `PixIterator` shows after n steps: the n-th of the row while the mask
      lasts, the last covered one for ever after. */
  function Shown(px: seq<Pixel>, n: nat): Pixel {
    if n == 0 || px == [] then TRANSPARENT else px[Min(n, Cover(px)) - 1]
  }

  /** The reader gives back the row exactly when the row fits the mask or is constant
      from pixel 255 on. */
  lemma {:induction false} IteratorReadsRowIff(px: seq<Pixel>)
    ensures (forall k :: 0 <= k < |px| ==> Shown(px, k + 1) == px[k])
       <==> (forall k :: MASKED <= k < |px| ==> px[k] == px[MASKED - 1])
  {
    if forall k :: 0 <= k < |px| ==> Shown(px, k + 1) == px[k] {
      forall k | MASKED <= k < |px| ensures px[k] == px[MASKED - 1] {
        assert Shown(px, k + 1) == px[k];
      }
    }
  }

  function Blank(n: nat): (r: seq<Pixel>)
    ensures |r| == n && forall k :: 0 <= k < n ==> r[k] == TRANSPARENT
  {
    if n == 0 then [] else Blank(n - 1) + [TRANSPARENT]
  }

  /** A row one pixel wider than the mask, whose last pixel is not read back. */
  lemma {:induction false} WideRowIsCut()
    ensures var px := Blank(MASKED) + [Pixel(1, 2, 3, 4)];
            Shown(px, MASKED + 1) == TRANSPARENT != px[MASKED]
  {
  }

  function OnesWord(): Word {
    seq(64, i => true)
  }

  /** How much of the data a reader has consumed after n pixels. */
  function Consumed(px: seq<Pixel>, n: nat): nat {
    if n == 0 then 0
    else Consumed(px, n - 1) + if n <= Cover(px) && !Same(px, n - 1) then 1 else 0
  }

  lemma {:induction false} ConsumedIsChanged(px: seq<Pixel>, n: nat)
    ensures Consumed(px, n) == |Changed(px[..Min(n, Cover(px))])|
  {
    if 0 < n <= Cover(px) {
      ChangedStep(px, n - 1);
    }
    if n > 0 {
      ConsumedIsChanged(px, n - 1);
    }
  }

  /** One step of the reader: within the mask it follows the bit, past it nothing changes. */
  lemma {:induction false} NextPixel(px: seq<Pixel>, n: nat)
    ensures Consumed(px, n) <= |RowData(px)|
    ensures n < Cover(px) && !Same(px, n) ==>
              Consumed(px, n) < |RowData(px)| && RowData(px)[Consumed(px, n)] == px[n]
    ensures n < Cover(px) && Consumed(px, n) == |RowData(px)| ==> Same(px, n)
    ensures Cover(px) == |px| <= n ==> Consumed(px, n) == |RowData(px)|
    ensures Shown(px, n + 1) == if n < Cover(px) && !Same(px, n) then px[n] else Shown(px, n)
  {
    ConsumedIsChanged(px, n);
    var h := Cover(px);
    if n < h {
      ChangedAt(px, n);
    } else {
      assert px[..h] == Head(px);
    }
  }

  // ---------- the packed form of a row ----------

  /** The little-endian bytes of a mask word. */
  function WordBytes(w: Word): (r: seq<Byte>)
    ensures |r| == 8
  {
    seq(8, j requires 0 <= j < 8 => PackByte(w[8 * j..8 * j + 8]))
  }

  function MaskBlockBytes(masks: Masks): (r: seq<Byte>)
    ensures |r| == 32
  {
    WordBytes(masks[0]) + WordBytes(masks[1]) + WordBytes(masks[2]) + WordBytes(masks[3])
  }

  /** Size, mask and pixels of a row as sent in a keyframe. */
  function PackedRow(masks: Masks, data: seq<Pixel>, mode: TileMode): (r: seq<Byte>)
    ensures |r| == 34 + 4 * |data|
  {
    [U8(|data| % 256), U8(|data| / 256)] + MaskBlockBytes(masks) + SentBytes(data, mode)
  }
}

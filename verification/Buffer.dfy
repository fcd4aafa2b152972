/** A growable byte buffer, as `std::vector<uint8_t>` and the stack buffers are used. */
module Buffers {
  import opened Pixels
  import opened Seqs

  class ByteBuffer {
    var bytes: seq<Byte>

    constructor ()
      ensures bytes == []
    {
      bytes := [];
    }

    method PushBack(b: Byte)
      modifies this
      ensures bytes == old(bytes) + [b]
    {
      bytes := bytes + [b];
    }

    method Append(data: seq<Byte>)
      modifies this
      ensures bytes == old(bytes) + data
    {
      bytes := bytes + data;
    }

    /** Grows the buffer to n bytes; new ones are zero. */
    method Resize(n: nat)
      requires |bytes| <= n
      modifies this
      ensures bytes == old(bytes) + Zeros(n - |old(bytes)|)
    {
      bytes := bytes + Zeros(n - |bytes|);
    }

    method Set(i: nat, b: Byte)
      requires i < |bytes|
      modifies this
      ensures bytes == old(bytes)[i := b]
    {
      bytes := bytes[i := b];
    }

    /** `memcpy` into the buffer. */
    method Store(at: nat, data: seq<Byte>)
      requires at + |data| <= |bytes|
      modifies this
      ensures bytes == old(bytes)[..at] + data + old(bytes)[at + |data|..]
    {
      bytes := bytes[..at] + data + bytes[at + |data|..];
    }
  }

  /** Four bytes pushed one after the other. */
  method PushFour(output: ByteBuffer, b0: Byte, b1: Byte, b2: Byte, b3: Byte)
    modifies output
    ensures output.bytes == old(output.bytes) + [b0, b1, b2, b3]
  {
    output.PushBack(b0);
    output.PushBack(b1);
    output.PushBack(b2);
    output.PushBack(b3);
  }

  /** Where the byte at offset i of a run comes from once red and blue are swapped. */
  function SwappedIndex(i: nat): nat {
    if i % 4 == 0 then i + 2 else if i % 4 == 2 then i - 2 else i
  }

  lemma {:induction false} SwappedPixel(src: seq<Pixel>, k: nat)
    requires k < |src|
    ensures SentBytes(src, BGRA)[4 * k..4 * k + 4] == PixelBytes(ConvertPixel(src[k], BGRA))
    ensures RunBytes(src)[4 * k..4 * k + 4] == PixelBytes(src[k])
  {
    SentBytesAt(src, BGRA, k);
    RunBytesAt(src, k);
  }

  lemma {:induction false} FourAt(s: seq<Byte>, at: nat, four: seq<Byte>, j: nat)
    requires at + 4 <= |s| && s[at..at + 4] == four && j < 4
    ensures s[at + j] == four[j]
  {
  }

  lemma {:induction false} SwappedWithin(k: nat, j: nat)
    requires j < 4
    ensures SwappedIndex(4 * k + j) == 4 * k + SwappedIndex(j) && SwappedIndex(j) < 4
  {
    assert (4 * k + j) % 4 == j;
  }

  lemma {:induction false} SwappedBytes(src: seq<Pixel>, k: nat, j: nat)
    requires k < |src| && j < 4
    ensures SwappedIndex(4 * k + j) < 4 * |src|
    ensures SentBytes(src, BGRA)[4 * k + j] == RunBytes(src)[SwappedIndex(4 * k + j)]
  {
    SwappedPixel(src, k);
    var r := SwappedIndex(j);
    SwappedWithin(k, j);
    FourAt(SentBytes(src, BGRA), 4 * k, PixelBytes(ConvertPixel(src[k], BGRA)), j);
    FourAt(RunBytes(src), 4 * k, PixelBytes(src[k]), r);
  }

  /** The in-place loop of `copy_row` for BGRA. */
  method SwapRedBlue(dest: ByteBuffer, at: nat, n: nat)
    requires n % 4 == 0 && at + n <= |dest.bytes|
    modifies dest
    ensures |dest.bytes| == |old(dest.bytes)|
    ensures forall i :: 0 <= i < at || at + n <= i < |dest.bytes| ==> dest.bytes[i] == old(dest.bytes)[i]
    ensures forall i :: 0 <= i < n ==>
              SwappedIndex(i) < n && dest.bytes[at + i] == old(dest.bytes)[at + SwappedIndex(i)]
  {
    var j := 0;
    while j < n
      invariant j % 4 == 0 && j <= n
      invariant |dest.bytes| == |old(dest.bytes)|
      invariant forall i :: 0 <= i < at || at + j <= i < |dest.bytes| ==> dest.bytes[i] == old(dest.bytes)[i]
      invariant forall i :: 0 <= i < j ==>
                  SwappedIndex(i) < n && dest.bytes[at + i] == old(dest.bytes)[at + SwappedIndex(i)]
    {
      var x, y := dest.bytes[at + j], dest.bytes[at + j + 2];
      dest.Set(at + j, y);
      dest.Set(at + j + 2, x);
      j := j + 4;
    }
  }

  /** Copies the memory of a run into the buffer, then swaps bytes in place for BGRA. */
  method CopyRow(dest: ByteBuffer, at: nat, src: seq<Pixel>, mode: TileMode)
    requires at + 4 * |src| <= |dest.bytes|
    modifies dest
    ensures dest.bytes == old(dest.bytes)[..at] + SentBytes(src, mode) + old(dest.bytes)[at + 4 * |src|..]
  {
    var n := 4 * |src|;
    dest.Store(at, RunBytes(src));
    match mode
    case RGBA =>
      SentRGBA(src);
    case BGRA =>
      SwapRedBlue(dest, at, n);
      forall i | 0 <= i < n ensures dest.bytes[at + i] == SentBytes(src, BGRA)[i] {
        SwappedBytes(src, i / 4, i % 4);
      }
  }

  /** Grows the buffer by a run and copies the run there. */
  method AppendRow(output: ByteBuffer, run: seq<Pixel>, mode: TileMode)
    modifies output
    ensures output.bytes == old(output.bytes) + SentBytes(run, mode)
  {
    var dest := |output.bytes|;
    output.Resize(dest + 4 * |run|);
    CopyRow(output, dest, run, mode);
    ReplaceTail(old(output.bytes), Zeros(4 * |run|), SentBytes(run, mode));
  }
}

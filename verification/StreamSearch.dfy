/** Searching a stream through a window: `processToMatch` behind `seekToMatch` and `copyToMatch`. */
module StreamSearch {
  import opened Buffers
  import opened Pixels
  import opened Seqs

  const READ_BUFFER_SIZE: nat := 65536

  // ---------- occurrences ----------

  predicate OccursAt(s: seq<Byte>, p: seq<Byte>, i: nat) {
    i + |p| <= |s| && s[i..i + |p|] == p
  }

  ghost predicate FirstAt(s: seq<Byte>, p: seq<Byte>, i: nat) {
    OccursAt(s, p, i) && forall k: nat :: k < i ==> !OccursAt(s, p, k)
  }

  ghost predicate Occurs(s: seq<Byte>, p: seq<Byte>) {
    exists i: nat :: OccursAt(s, p, i)
  }

  /** `std::string_view::find`. */
  function Find(s: seq<Byte>, p: seq<Byte>, from: nat): (r: Option<nat>)
    requires p != [] && from <= |s| && forall k: nat :: k < from ==> !OccursAt(s, p, k)
    ensures r.Some? ==> FirstAt(s, p, r.value)
    ensures r.None? ==> !Occurs(s, p)
    decreases |s| - from
  {
    if OccursAt(s, p, from) then Some(from)
    else if from == |s| then None
    else Find(s, p, from + 1)
  }

  // ---------- the stream ----------

  class InputStream {
    const data: seq<Byte>
    var pos: nat
    var eof: bool
    var fail: bool

    ghost predicate Valid()
      reads this
    {
      pos <= |data|
    }

    predicate Good()
      reads this
    {
      !eof && !fail
    }

    /** What is still to be read. */
    ghost function Rest(): seq<Byte>
      requires Valid()
      reads this
    {
      data[pos..]
    }

    /** Reads up to n bytes into the buffer; a stream that comes to its end before has failed. */
    method Read(buffer: array<Byte>, at: nat, n: nat) returns (count: nat)
      requires Valid() && at + n <= buffer.Length
      modifies this, buffer
      ensures Valid() && count == (if !old(Good()) then 0 else if |old(Rest())| < n then |old(Rest())| else n)
      ensures pos == old(pos) + count
      ensures buffer[..at + count] == old(buffer[..at]) + data[old(pos)..pos]
      ensures fail <==> old(!Good()) || count < n
      ensures old(Good()) && !fail ==> Good()
    {
      if eof || fail {
        fail := true;
        assert data[pos..pos] == [];
        return 0;
      }
      count := if |data| - pos < n then |data| - pos else n;
      forall i | 0 <= i < count {
        buffer[at + i] := data[pos + i];
      }
      pos := pos + count;
      if count < n {
        eof, fail := true, true;
      }
    }

    method Clear()
      modifies `eof, `fail
      ensures Good()
    {
      eof, fail := false, false;
    }

    /** Seeks back from where the stream stands. */
    method SeekBack(n: nat)
      requires Valid() && n <= pos && Good()
      modifies `pos
      ensures Valid() && pos == old(pos) - n
    {
      pos := pos - n;
    }
  }

  /** `memmove` of the end of a window to the front. */
  method MoveToFront(buffer: array<Byte>, from: nat, n: nat)
    requires from + n <= buffer.Length
    modifies buffer
    ensures buffer[..n] == old(buffer[from..from + n])
  {
    forall i | 0 <= i < n {
      buffer[i] := buffer[from + i];
    }
  }

  // ---------- windows ----------

  /** Where the search stands after c bytes, of which the last `carry` are kept. */
  ghost predicate Searched(rest: seq<Byte>, search: seq<Byte>, c: nat, carry: nat) {
    && search != [] && c <= |rest|
    && carry == (if c < |search| - 1 then c else |search| - 1)
    && forall k: nat :: k + |search| <= c ==> !OccursAt(rest, search, k)
  }

  /** The window after reading on. */
  ghost function Window(rest: seq<Byte>, c: nat, carry: nat, n: nat): seq<Byte>
    requires carry <= c && c + n <= |rest|
  {
    rest[c - carry..c + n]
  }

  lemma {:induction false} InWindow(rest: seq<Byte>, search: seq<Byte>, c: nat, carry: nat, n: nat, m: nat)
    requires carry <= c && c + n <= |rest| && m + |search| <= carry + n
    ensures OccursAt(Window(rest, c, carry, n), search, m) <==> OccursAt(rest, search, c - carry + m)
  {
    SliceSlice(rest, c - carry, c + n, m, m + |search|);
  }

  lemma {:induction false} WindowMatch(rest: seq<Byte>, search: seq<Byte>, c: nat, carry: nat, n: nat, m: nat)
    requires Searched(rest, search, c, carry) && c + n <= |rest| && FirstAt(Window(rest, c, carry, n), search, m)
    ensures FirstAt(rest, search, c - carry + m)
  {
    InWindow(rest, search, c, carry, n, m);
    forall k: nat | k < c - carry + m ensures !OccursAt(rest, search, k) {
      if k >= c - carry {
        InWindow(rest, search, c, carry, n, k - (c - carry));
      }
    }
  }

  lemma {:induction false} WindowMiss(rest: seq<Byte>, search: seq<Byte>, c: nat, carry: nat, n: nat)
    requires Searched(rest, search, c, carry) && c + n <= |rest| && !Occurs(Window(rest, c, carry, n), search)
    ensures Searched(rest, search, c + n, if carry + n < |search| - 1 then carry + n else |search| - 1)
  {
    forall k: nat | k + |search| <= c + n ensures !OccursAt(rest, search, k) {
      if k >= c - carry {
        InWindow(rest, search, c, carry, n, k - (c - carry));
      }
    }
  }

  /** One turn with a window in the buffer: what it writes, and the first match if there is one. */
  method SearchWindow(buffer: array<Byte>, bytesInBuffer: nat, search: seq<Byte>, out: ByteBuffer?,
                      ghost window: seq<Byte>)
    returns (match_: Option<nat>, carrySize: nat)
    requires search != [] && bytesInBuffer <= buffer.Length && window == buffer[..bytesInBuffer]
    modifies buffer, out
    ensures match_ == Find(window, search, 0)
    ensures match_.None? ==> carrySize == (if bytesInBuffer < |search| - 1 then bytesInBuffer else |search| - 1)
    ensures match_.None? ==> buffer[..carrySize] == window[bytesInBuffer - carrySize..]
    ensures out != null ==>
              out.bytes == old(out.bytes) + window[..if match_.Some? then match_.value else bytesInBuffer - carrySize]
  {
    var overlap := |search| - 1;
    match_, carrySize := Find(buffer[..bytesInBuffer], search, 0), 0;
    if match_.Some? {
      if out != null {
        out.Append(buffer[..match_.value]);
        assert buffer[..match_.value] == window[..match_.value];
      }
    } else {
      if out != null {
        var bytesToWrite := if bytesInBuffer > overlap then bytesInBuffer - overlap else 0;
        assert buffer[..bytesToWrite] == window[..bytesToWrite];
        out.Append(buffer[..bytesToWrite]);
      }
      carrySize := if overlap < bytesInBuffer then overlap else bytesInBuffer;
      assert buffer[bytesInBuffer - carrySize..bytesInBuffer] == window[bytesInBuffer - carrySize..];
      MoveToFront(buffer, bytesInBuffer - carrySize, carrySize);
    }
  }

  /** What holds between two turns: the end of what was read is in the buffer, the rest of it
      has been written. */
  ghost predicate Between(rest: seq<Byte>, search: seq<Byte>, c: nat, carry: nat, kept: seq<Byte>, left: seq<Byte>,
                          wraps: nat)
  {
    if wraps > 0 then Between(rest, search, c, carry, kept, left, wraps - 1)
    else Searched(rest, search, c, carry) && kept == rest[c - carry..c] && left == rest[c..]
  }

  lemma {:induction false} OpenBetween(rest: seq<Byte>, search: seq<Byte>, c: nat, carry: nat, kept: seq<Byte>,
                                       left: seq<Byte>, wraps: nat)
    ensures Between(rest, search, c, carry, kept, left, wraps) <==>
            Searched(rest, search, c, carry) && kept == rest[c - carry..c] && left == rest[c..]
  {
    if wraps > 0 {
      OpenBetween(rest, search, c, carry, kept, left, wraps - 1);
    }
  }

  /** A window without a match. */
  lemma {:induction false} AfterMiss(rest: seq<Byte>, search: seq<Byte>, c: nat, carry: nat, n: nat, carry': nat,
                                     kept: seq<Byte>, left: seq<Byte>)
    requires Searched(rest, search, c, carry) && c + n <= |rest|
    requires Find(Window(rest, c, carry, n), search, 0).None?
    requires carry' == (if carry + n < |search| - 1 then carry + n else |search| - 1)
    requires kept == Window(rest, c, carry, n)[carry + n - carry'..] && left == rest[c + n..]
    ensures Between(rest, search, c + n, carry', kept, left, WRAPS)
  {
    WindowMiss(rest, search, c, carry, n);
    SliceSlice(rest, c - carry, c + n, carry + n - carry', carry + n);
    assert Window(rest, c, carry, n)[carry + n - carry'..] == Window(rest, c, carry, n)[carry + n - carry'..carry + n];
    OpenBetween(rest, search, c + n, carry', kept, left, WRAPS);
  }

  lemma {:induction false} SameTails(data: seq<Byte>, pos: nat, rest: seq<Byte>, c: nat, n: nat)
    requires pos <= |data| && c <= |rest| && data[pos..] == rest[c..] && n <= |rest| - c
    ensures |data| - pos == |rest| - c
    ensures data[pos..pos + n] == rest[c..c + n] && data[pos + n..] == rest[c + n..]
  {
    assert |data[pos..]| == |rest[c..]|;
    SliceSlice(data, pos, |data|, 0, n);
    SliceSlice(rest, c, |rest|, 0, n);
    DropDrop(data, pos, n);
    DropDrop(rest, c, n);
    assert data[pos..|data|] == data[pos..] == rest[c..|rest|];
  }

  /** Reads on behind what is kept in the buffer. */
  method ReadWindow(in_: InputStream, buffer: array<Byte>, carrySize: nat, n: nat, ghost rest: seq<Byte>, ghost c: nat)
    returns (bytesRead: nat)
    requires in_.Valid() && in_.Good() && 0 < n && carrySize + n <= buffer.Length && carrySize <= c <= |rest|
    requires buffer[..carrySize] == rest[c - carrySize..c] && in_.Rest() == rest[c..]
    modifies in_, buffer
    ensures in_.Valid() && c + bytesRead <= |rest| && carrySize + bytesRead <= buffer.Length
    ensures in_.pos == old(in_.pos) + bytesRead && in_.Rest() == rest[c + bytesRead..]
    ensures buffer[..carrySize + bytesRead] == Window(rest, c, carrySize, bytesRead)
    ensures if in_.fail then in_.pos == |in_.data| else in_.Good() && bytesRead > 0
  {
    ghost var pos := in_.pos;
    assert |in_.Rest()| == |rest| - c;
    bytesRead := in_.Read(buffer, carrySize, n);
    SameTails(in_.data, pos, rest, c, bytesRead);
    SliceAppend(rest, c - carrySize, c, c + bytesRead);
  }

  /** Reads a window and searches it. */
  method Turn(in_: InputStream, buffer: array<Byte>, out: ByteBuffer?, search: seq<Byte>, carrySize: nat,
              ghost rest: seq<Byte>, ghost c: nat, ghost was: seq<Byte>)
    returns (found: bool, bytesRead: nat, carrySize': nat)
    requires in_.Valid() && in_.Good() && search != [] && buffer.Length == READ_BUFFER_SIZE + |search| - 1
    requires carrySize <= buffer.Length && Between(rest, search, c, carrySize, buffer[..carrySize], in_.Rest(), WRAPS)
    requires c <= in_.pos && carrySize <= c <= |rest|
    requires out != null ==> out.bytes == was + rest[..c - carrySize]
    modifies in_, buffer, out
    ensures in_.Valid() && c + bytesRead <= |rest|
    ensures found ==> in_.Good() && in_.pos + c >= old(in_.pos) && FirstAt(rest, search, in_.pos + c - old(in_.pos))
    ensures found && out != null ==> out.bytes == was + rest[..in_.pos + c - old(in_.pos)]
    ensures !found ==> carrySize' <= buffer.Length &&
                       Between(rest, search, c + bytesRead, carrySize', buffer[..carrySize'], in_.Rest(), WRAPS) &&
                       carrySize' <= c + bytesRead
    ensures !found ==> in_.pos == old(in_.pos) + bytesRead && (in_.fail || in_.Good())
    ensures !found && out != null ==> out.bytes == was + rest[..c + bytesRead - carrySize']
    ensures !found && (bytesRead == 0 || in_.fail) ==> in_.pos == |in_.data|
  {
    found, carrySize' := false, carrySize;
    OpenBetween(rest, search, c, carrySize, buffer[..carrySize], in_.Rest(), WRAPS);
    bytesRead := ReadWindow(in_, buffer, carrySize, READ_BUFFER_SIZE, rest, c);
    if bytesRead == 0 {
      OpenBetween(rest, search, c, carrySize, buffer[..carrySize], in_.Rest(), WRAPS);
      return;
    }
    found, carrySize' := SearchRead(in_, buffer, out, search, carrySize, bytesRead, rest, c, was);
  }

  /** Searches what was read. */
  method SearchRead(in_: InputStream, buffer: array<Byte>, out: ByteBuffer?, search: seq<Byte>, carrySize: nat,
                    bytesRead: nat, ghost rest: seq<Byte>, ghost c: nat, ghost was: seq<Byte>)
    returns (found: bool, carrySize': nat)
    requires in_.Valid() && search != [] && Searched(rest, search, c, carrySize) && c + bytesRead <= |rest|
    requires carrySize + bytesRead <= buffer.Length && c + bytesRead <= in_.pos && in_.Rest() == rest[c + bytesRead..]
    requires buffer[..carrySize + bytesRead] == Window(rest, c, carrySize, bytesRead)
    requires out != null ==> out.bytes == was + rest[..c - carrySize]
    modifies in_, buffer, out
    ensures in_.Valid()
    ensures found ==> in_.Good() && in_.pos + c + bytesRead >= old(in_.pos) &&
                      FirstAt(rest, search, in_.pos + c + bytesRead - old(in_.pos))
    ensures found && out != null ==> out.bytes == was + rest[..in_.pos + c + bytesRead - old(in_.pos)]
    ensures !found ==> carrySize' <= buffer.Length && carrySize' <= c + bytesRead &&
                       Between(rest, search, c + bytesRead, carrySize', buffer[..carrySize'], in_.Rest(), WRAPS)
    ensures !found ==> in_.pos == old(in_.pos) && in_.fail == old(in_.fail) && in_.eof == old(in_.eof)
    ensures !found && out != null ==> out.bytes == was + rest[..c + bytesRead - carrySize']
  {
    found := false;
    ghost var window := Window(rest, c, carrySize, bytesRead);
    var match_;
    match_, carrySize' := SearchWindow(buffer, carrySize + bytesRead, search, out, window);
    ghost var n := if match_.Some? then match_.value else carrySize + bytesRead - carrySize';
    TurnWrites(rest, c, carrySize, bytesRead, n, was);
    if match_.Some? {
      WindowMatch(rest, search, c, carrySize, bytesRead, match_.value);
      in_.Clear();
      in_.SeekBack(carrySize + bytesRead - match_.value);
      found := true;
    } else {
      AfterMiss(rest, search, c, carrySize, bytesRead, carrySize', buffer[..carrySize'], in_.Rest());
    }
  }

  lemma {:induction false} TurnWrites(rest: seq<Byte>, c: nat, carry: nat, n: nat, m: nat, was: seq<Byte>)
    requires carry <= c && c + n <= |rest| && m <= carry + n
    ensures was + rest[..c - carry] + Window(rest, c, carry, n)[..m] == was + rest[..c - carry + m]
  {
    SliceSlice(rest, c - carry, c + n, 0, m);
    assert Window(rest, c, carry, n)[..m] == Window(rest, c, carry, n)[0..m];
    SliceAppend(rest, 0, c - carry, c - carry + m);
    assert rest[..c - carry] == rest[0..c - carry] && rest[..c - carry + m] == rest[0..c - carry + m];
    Assoc(was, rest[..c - carry], Window(rest, c, carry, n)[..m]);
  }

  /** Reads until the first occurrence: the stream then stands right before it, and what comes
      before it has been written. When there is none, everything has been read and written. */
  method ProcessToMatch(in_: InputStream, out: ByteBuffer?, search: seq<Byte>) returns (found: bool)
    requires search != [] && in_.Valid()
    modifies in_, out
    ensures in_.Valid() && in_.pos >= old(in_.pos)
    ensures old(in_.Good()) ==> (found <==> Occurs(old(in_.Rest()), search))
    ensures old(in_.Good()) && found ==>
              && in_.Good() && FirstAt(old(in_.Rest()), search, in_.pos - old(in_.pos))
              && (out != null ==> out.bytes == old(out.bytes) + old(in_.Rest())[..in_.pos - old(in_.pos)])
    ensures old(in_.Good()) && !found ==>
              in_.pos == |in_.data| && (out != null ==> out.bytes == old(out.bytes) + old(in_.Rest()))
    ensures !old(in_.Good()) ==> !found && in_.pos == old(in_.pos) && (out != null ==> out.bytes == old(out.bytes))
  {
    var overlap := |search| - 1;
    var buffer := new Byte[READ_BUFFER_SIZE + overlap];
    if !in_.Good() {
      // One read from a stream at its end fails; one from a failed stream is not tried.
      if !in_.fail {
        var none := in_.Read(buffer, 0, READ_BUFFER_SIZE);
      }
      return false;
    }
    found := SearchOn(in_, buffer, out, search);
  }

  /** The loop, for a stream in good state. */
  method SearchOn(in_: InputStream, buffer: array<Byte>, out: ByteBuffer?, search: seq<Byte>) returns (found: bool)
    requires in_.Valid() && in_.Good() && search != [] && buffer.Length == READ_BUFFER_SIZE + |search| - 1
    modifies in_, buffer, out
    ensures in_.Valid() && in_.pos >= old(in_.pos)
    ensures found <==> Occurs(old(in_.Rest()), search)
    ensures found ==>
              && in_.Good() && FirstAt(old(in_.Rest()), search, in_.pos - old(in_.pos))
              && (out != null ==> out.bytes == old(out.bytes) + old(in_.Rest())[..in_.pos - old(in_.pos)])
    ensures !found ==>
              in_.pos == |in_.data| && (out != null ==> out.bytes == old(out.bytes) + old(in_.Rest()))
  {
    ghost var rest, start, was := in_.Rest(), in_.pos, if out != null then out.bytes else [];
    var carrySize: nat := 0;
    ghost var c: nat := 0;
    EmptyTail(was);
    OpenBetween(rest, search, c, carrySize, buffer[..carrySize], rest, WRAPS);
    while !in_.fail
      invariant in_.Valid() && in_.pos == start + c && (in_.fail || in_.Good()) && (in_.fail ==> in_.pos == |in_.data|)
      invariant carrySize <= buffer.Length && Between(rest, search, c, carrySize, buffer[..carrySize], in_.Rest(),
                                                      WRAPS)
      invariant carrySize <= c <= |rest|
      invariant out != null ==> out.bytes == was + rest[..c - carrySize]
      decreases |rest| - c, !in_.fail
    {
      var bytesRead;
      found, bytesRead, carrySize := Turn(in_, buffer, out, search, carrySize, rest, c, was);
      if found {
        return;
      }
      c := c + bytesRead;
      if bytesRead == 0 {
        break;
      }
    }
    found := false;
    NotFound(rest, search, c, carrySize, was, buffer[..carrySize], in_.Rest());
    if carrySize > 0 && out != null {
      out.Append(buffer[..carrySize]);
    }
  }

  lemma {:induction false} NotFound(rest: seq<Byte>, search: seq<Byte>, c: nat, carry: nat, was: seq<Byte>,
                                    kept: seq<Byte>, left: seq<Byte>)
    requires Between(rest, search, c, carry, kept, left, WRAPS) && carry <= c == |rest|
    ensures !Occurs(rest, search)
    ensures was + rest[..c - carry] + kept == was + rest
    ensures carry == 0 ==> was + rest[..c - carry] == was + rest
  {
    OpenBetween(rest, search, c, carry, kept, left, WRAPS);
  }
}

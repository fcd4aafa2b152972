/** Escaping of JSON strings, against the reading of them by section 7 of RFC 8259. */
module JsonEscape {
  import opened Buffers
  import opened Pixels
  import opened Seqs

  const BACKSPACE: Byte := 0x08
  const TAB: Byte := 0x09
  const NEWLINE: Byte := 0x0a
  const FORM_FEED: Byte := 0x0c
  const RETURN: Byte := 0x0d
  const QUOTE: Byte := 0x22
  const SLASH: Byte := 0x2f
  const BACKSLASH: Byte := 0x5c

  // ---------- the reader ----------

  /** The character a two-character escape stands for. */
  function Simple(c: Byte): Option<Byte> {
    if c == QUOTE || c == BACKSLASH || c == SLASH then Some(c)
    else if c == 0x62 then Some(BACKSPACE)
    else if c == 0x66 then Some(FORM_FEED)
    else if c == 0x6e then Some(NEWLINE)
    else if c == 0x72 then Some(RETURN)
    else if c == 0x74 then Some(TAB)
    else None
  }

  function HexDigit(c: Byte): (r: Option<nat>)
    ensures r.Some? ==> r.value < 16
  {
    if 0x30 <= c <= 0x39 then Some(c - 0x30)
    else if 0x41 <= c <= 0x46 then Some(c - 0x41 + 10)
    else if 0x61 <= c <= 0x66 then Some(c - 0x61 + 10)
    else None
  }

  function Hex4(a: Byte, b: Byte, c: Byte, d: Byte): (r: Option<nat>)
    ensures r.Some? ==> r.value < 0x10000
  {
    match (HexDigit(a), HexDigit(b), HexDigit(c), HexDigit(d))
    case (Some(w), Some(x), Some(y), Some(z)) =>
      Some(w * 0x1000 + x * 0x100 + y * 0x10 + z)
    case _ => None
  }

  /** The UTF-8 bytes of a code point below U+10000 that is no surrogate. */
  function Utf8(u: nat): (r: Option<seq<Byte>>)
    requires u < 0x10000
  {
    if u < 0x80 then Some([u])
    else if u < 0x800 then Some([0xc0 + u / 0x40, 0x80 + u % 0x40])
    else if 0xd800 <= u < 0xe000 then None
    else Some([0xe0 + u / 0x1000, 0x80 + u / 0x40 % 0x40, 0x80 + u % 0x40])
  }

  /** The digits of both cases stand for their numbers, and nothing else does. */
  lemma {:induction false} HexDigits(c: Byte, n: nat)
    ensures HexDigit(c) == Some(n) <==>
            n < 16 && (c as char == "0123456789abcdef"[n] || c as char == "0123456789ABCDEF"[n])
  {
  }

  /** The bytes of a code point hold its bits, six in each but the first, in the shortest form. */
  lemma {:induction false} Utf8Bits(u: nat) returns (a: nat, b: nat, c: nat)
    requires u < 0x10000
    ensures a < 0x10 && b < 0x40 && c < 0x40 && u == a * 0x1000 + b * 0x40 + c
    ensures u < 0x80 ==> Utf8(u) == Some([u])
    ensures 0x80 <= u < 0x800 ==> a == 0 && b < 0x20 && Utf8(u) == Some([0xc0 + b, 0x80 + c])
    ensures 0x800 <= u ==> Utf8(u) == if 0xd800 <= u <= 0xdfff then None else Some([0xe0 + a, 0x80 + b, 0x80 + c])
  {
    a, b, c := u / 0x1000, u / 0x40 % 0x40, u % 0x40;
    assert u / 0x40 == a * 0x40 + b;
  }

  /** What the text begins with: the bytes meant, and how many bytes say so. */
  function Head(text: seq<Byte>): Option<(seq<Byte>, nat)>
    requires text != []
  {
    if text[0] == QUOTE || text[0] < 0x20 then None
    else if text[0] != BACKSLASH then Some(([text[0]], 1))
    else if |text| >= 2 && Simple(text[1]).Some? then Some(([Simple(text[1]).value], 2))
    else if |text| >= 6 && text[1] == 0x75 then
      match Hex4(text[2], text[3], text[4], text[5])
      case Some(u) => (match Utf8(u) case Some(bytes) => Some((bytes, 6)) case None => None)
      case None => None
    else None
  }

  /** What may follow a backslash; no quote and no control character stands on its own. */
  lemma {:induction false} HeadAllows(text: seq<Byte>)
    requires text != [] && Head(text).Some?
    ensures text[0] >= 32 && text[0] != 34
    ensures text[0] == 92 ==> |text| >= 2 && (text[1] as char) in "\"\\/bfnrtu" && (text[1] == 117 ==> |text| >= 6)
  {
  }

  /** The string a text between quotes stands for, if it is one. */
  function Unescape(text: seq<Byte>): Option<seq<Byte>>
    decreases |text|
  {
    if text == [] then Some([])
    else
      match Head(text)
      case Some(h) =>
        if 0 < h.1 <= |text| then
          match Unescape(text[h.1..])
          case Some(rest) => Some(h.0 + rest)
          case None => None
        else None
      case None => None
  }

  // ---------- the writer ----------

  predicate IsEscaped(c: Byte) {
    c == BACKSPACE || c == TAB || c == NEWLINE || c == FORM_FEED || c == RETURN ||
    c == QUOTE || c == SLASH || c == BACKSLASH
  }

  function EscapementChar(c: Byte): Byte {
    if c == BACKSPACE then 0x62
    else if c == TAB then 0x74
    else if c == NEWLINE then 0x6e
    else if c == FORM_FEED then 0x66
    else if c == RETURN then 0x72
    else c
  }

  /** U+2028 or U+2029 at this place. */
  predicate SeparatorAt(val: seq<Byte>, i: nat) {
    i + 2 < |val| && val[i] == 0xe2 && val[i + 1] == 0x80 && (val[i + 2] == 0xa8 || val[i + 2] == 0xa9)
  }

  /** The escape of U+2028 or U+2029. */
  function SeparatorEscape(last: Byte): seq<Byte> {
    [BACKSLASH, 0x75, 0x32, 0x30, 0x32, if last == 0xa8 then 0x38 else 0x39]
  }

  function Piece(val: seq<Byte>, i: nat): (r: seq<Byte>)
    requires i < |val|
    ensures r != []
  {
    if IsEscaped(val[i]) then [BACKSLASH, EscapementChar(val[i])]
    else if SeparatorAt(val, i) then SeparatorEscape(val[i + 2])
    else [val[i]]
  }

  function Taken(val: seq<Byte>, i: nat): (n: nat)
    requires i < |val|
    ensures 0 < n <= |val| - i
  {
    if SeparatorAt(val, i) then 3 else 1
  }

  /** The escaped text of everything from a place on. */
  function Escaped(val: seq<Byte>, i: nat): seq<Byte>
    requires i <= |val|
    decreases |val| - i
  {
    if i == |val| then [] else Piece(val, i) + Escaped(val, i + Taken(val, i))
  }

  method WriteEscapedSequence(ch: nat, buf: ByteBuffer)
    requires (ch < 256 && IsEscaped(ch)) || ch == 0x2028 || ch == 0x2029
    modifies buf
    ensures buf.bytes == old(buf.bytes) + if ch < 256 then [BACKSLASH, EscapementChar(ch)]
                                          else SeparatorEscape(if ch == 0x2028 then 0xa8 else 0xa9)
  {
    buf.PushBack(BACKSLASH);
    if ch < 256 {
      buf.PushBack(EscapementChar(ch));
    } else {
      buf.PushBack(0x75);
      buf.PushBack(0x32);
      buf.PushBack(0x30);
      buf.PushBack(0x32);
      buf.PushBack(if ch == 0x2028 then 0x38 else 0x39);
    }
  }

  /** One turn of the loop. */
  method EscapeOne(val: seq<Byte>, i: nat, buf: ByteBuffer) returns (i': nat)
    requires i < |val|
    modifies buf
    ensures i' == i + Taken(val, i) && buf.bytes == old(buf.bytes) + Piece(val, i)
  {
    i' := i + 1;
    if IsEscaped(val[i]) {
      WriteEscapedSequence(val[i], buf);
    } else if val[i] == 0xe2 && i + 2 < |val| && val[i + 1] == 0x80 && (val[i + 2] == 0xa8 || val[i + 2] == 0xa9) {
      WriteEscapedSequence(if val[i + 2] == 0xa8 then 0x2028 else 0x2029, buf);
      i' := i + 3;
    } else {
      buf.PushBack(val[i]);
    }
  }

  method EscapeJSONValue(val: seq<Byte>) returns (text: seq<Byte>)
    ensures text == Escaped(val, 0)
  {
    var buf := new ByteBuffer();
    var i: nat := 0;
    assert [] + Escaped(val, 0) == Escaped(val, 0);
    while i < |val|
      invariant i <= |val| && buf.bytes + Escaped(val, i) == Escaped(val, 0)
    {
      Assoc(buf.bytes, Piece(val, i), Escaped(val, i + Taken(val, i)));
      i := EscapeOne(val, i, buf);
    }
    EmptyTail(buf.bytes);
    text := buf.bytes;
  }

  // ---------- round trip ----------

  /** A control character other than backspace, tab, newline, form feed and carriage return. */
  predicate OtherControl(c: Byte) {
    c < 32 && c != 8 && c != 9 && c != 10 && c != 12 && c != 13
  }

  predicate Clean(val: seq<Byte>, i: nat)
    requires i <= |val|
    decreases |val| - i
  {
    i == |val| || (!OtherControl(val[i]) && Clean(val, i + 1))
  }

  /** The first piece of a text is read back. */
  lemma {:induction false} HeadOfPiece(val: seq<Byte>, i: nat, rest: seq<Byte>)
    requires i < |val|
    ensures if OtherControl(val[i]) then Head(Piece(val, i) + rest) == None
            else Head(Piece(val, i) + rest) == Some((val[i..i + Taken(val, i)], |Piece(val, i)|))
  {
    var text := Piece(val, i) + rest;
    assert forall k :: 0 <= k < |Piece(val, i)| ==> text[k] == Piece(val, i)[k];
    if IsEscaped(val[i]) {
      assert val[i..i + 1] == [val[i]];
    } else if SeparatorAt(val, i) {
      assert Utf8(0x2028) == Some([0xe2, 0x80, 0xa8]) && Utf8(0x2029) == Some([0xe2, 0x80, 0xa9]);
      assert val[i..i + 3] == [val[i], val[i + 1], val[i + 2]];
    } else {
      assert val[i..i + 1] == [val[i]];
    }
  }

  lemma {:induction false} CleanAfter(val: seq<Byte>, i: nat)
    requires i < |val|
    ensures Clean(val, i) <==> !OtherControl(val[i]) && Clean(val, i + Taken(val, i))
  {
    if SeparatorAt(val, i) {
      assert Clean(val, i + 1) == Clean(val, i + 2);
    }
  }

  lemma {:induction false} CleanMeans(val: seq<Byte>, i: nat)
    requires i <= |val|
    ensures Clean(val, i) <==> forall k :: i <= k < |val| ==> !OtherControl(val[k])
    decreases |val| - i
  {
    if i < |val| {
      CleanMeans(val, i + 1);
    }
  }

  /** What is written is a JSON string that stands for the value, if and only if every control
      character in the value is a backspace, tab, newline, form feed or carriage return; else it is no
      JSON string. */
  lemma {:induction false} RoundTripIff(val: seq<Byte>)
    ensures Unescape(Escaped(val, 0)) == Some(val) <==>
            forall k :: 0 <= k < |val| ==>
              val[k] >= 32 || val[k] == 8 || val[k] == 9 || val[k] == 10 || val[k] == 12 || val[k] == 13
    ensures Unescape(Escaped(val, 0)) != Some(val) ==> Unescape(Escaped(val, 0)) == None
  {
    RoundTrip(val, 0);
    CleanMeans(val, 0);
    assert val[0..] == val;
  }

  lemma {:induction false} RoundTrip(val: seq<Byte>, i: nat)
    requires i <= |val|
    ensures Unescape(Escaped(val, i)) == if Clean(val, i) then Some(val[i..]) else None
    decreases |val| - i
  {
    if i == |val| {
      assert val[i..] == [];
    } else {
      var j := i + Taken(val, i);
      var rest := Escaped(val, j);
      RoundTrip(val, j);
      HeadOfPiece(val, i, rest);
      CleanAfter(val, i);
      Parts(Piece(val, i), rest);
      assert val[i..j] + val[j..] == val[i..];
    }
  }

  /** A value of one NUL comes out as it is, which is no JSON string. */
  lemma {:induction false} NulIsNoString()
    ensures Escaped([0], 0) == [0] && Unescape(Escaped([0], 0)) == None
  {
    RoundTrip([0], 0);
  }

  // ---------- byte by byte ----------

  /** What is written for each byte, or for the three bytes of a separator. */
  lemma {:induction false} WrittenAs(val: seq<Byte>, i: nat)
    requires i < |val|
    ensures var rest := val[i..];
            Escaped(val, i) ==
              if rest[0] == 8 then [92, 98] + Escaped(val, i + 1)
              else if rest[0] == 9 then [92, 116] + Escaped(val, i + 1)
              else if rest[0] == 10 then [92, 110] + Escaped(val, i + 1)
              else if rest[0] == 12 then [92, 102] + Escaped(val, i + 1)
              else if rest[0] == 13 then [92, 114] + Escaped(val, i + 1)
              else if rest[0] == 34 then [92, 34] + Escaped(val, i + 1)
              else if rest[0] == 47 then [92, 47] + Escaped(val, i + 1)
              else if rest[0] == 92 then [92, 92] + Escaped(val, i + 1)
              else if [226, 128, 168] <= rest then [92, 117, 50, 48, 50, 56] + Escaped(val, i + 3)
              else if [226, 128, 169] <= rest then [92, 117, 50, 48, 50, 57] + Escaped(val, i + 3)
              else [rest[0]] + Escaped(val, i + 1)
  {
    var rest := val[i..];
    assert SeparatorAt(val, i) <==> [226, 128, 168] <= rest || [226, 128, 169] <= rest;
  }

  /** Every `/` that is written stands behind a backslash. */
  lemma {:induction false} NoBareSlash(val: seq<Byte>, i: nat, k: nat)
    requires i <= |val| && k < |Escaped(val, i)| && Escaped(val, i)[k] == 47
    ensures k > 0 && Escaped(val, i)[k - 1] == 92
    decreases |val| - i
  {
    var piece, rest := Piece(val, i), Escaped(val, i + Taken(val, i));
    assert Escaped(val, i) == piece + rest;
    if k < |piece| {
      assert (piece + rest)[k] == piece[k];
    } else {
      assert (piece + rest)[k] == rest[k - |piece|];
      NoBareSlash(val, i + Taken(val, i), k - |piece|);
      assert (piece + rest)[k - 1] == rest[k - 1 - |piece|];
    }
  }

  // ---------- no separators ----------

  lemma {:induction false} FirstByte(val: seq<Byte>, i: nat)
    requires i <= |val| && Escaped(val, i) != [] && Escaped(val, i)[0] >= 0x80
    ensures i < |val| && Escaped(val, i)[0] == val[i] && Escaped(val, i) == [val[i]] + Escaped(val, i + 1)
  {
  }

  lemma {:induction false} NotAtPiece(val: seq<Byte>, i: nat)
    requires i < |val|
    ensures !SeparatorAt(Escaped(val, i), 0)
  {
    var text := Escaped(val, i);
    if text[0] >= 0x80 {
      FirstByte(val, i);
      var t1 := Escaped(val, i + 1);
      if t1 != [] && t1[0] >= 0x80 {
        FirstByte(val, i + 1);
        var t2 := Escaped(val, i + 2);
        if t2 != [] && t2[0] >= 0x80 {
          FirstByte(val, i + 2);
        }
      }
    }
  }

  /** What is written never holds U+2028 or U+2029 as they are, which JavaScript would not take. */
  lemma {:induction false} NoSeparators(val: seq<Byte>, i: nat, k: nat)
    requires i <= |val|
    ensures !SeparatorAt(Escaped(val, i), k)
    decreases |val| - i
  {
    if i < |val| {
      var piece, j := Piece(val, i), i + Taken(val, i);
      if k == 0 {
        NotAtPiece(val, i);
      } else if k >= |piece| {
        NoSeparators(val, j, k - |piece|);
        var text := piece + Escaped(val, j);
        assert forall m :: 0 <= m < |Escaped(val, j)| ==> text[|piece| + m] == Escaped(val, j)[m];
      } else {
        assert (piece + Escaped(val, j))[k] == piece[k];
      }
    }
  }
}

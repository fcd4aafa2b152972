/** Small facts about sequences, each proved once. */
module Seqs {

  datatype Option<+T> = None | Some(value: T)

  /** Some facts are wrapped in this many empty steps of a recursive predicate, so that the
      solver looks into them only where a proof opens them with the lemma beside it. */
  const WRAPS: nat := 4

  lemma {:induction false} Assoc<T>(x: seq<T>, y: seq<T>, z: seq<T>)
    ensures x + y + z == x + (y + z)
  {
  }

  lemma {:induction false} EmptyTail<T>(x: seq<T>)
    ensures x + [] == x
  {
  }

  lemma {:induction false} EmptyHead<T>(x: seq<T>)
    ensures [] + x == x
  {
  }

  lemma {:induction false} Parts<T>(x: seq<T>, y: seq<T>)
    ensures (x + y)[..|x|] == x && (x + y)[|x|..] == y
  {
  }

  lemma {:induction false} DropDrop<T>(s: seq<T>, i: nat, j: nat)
    requires i + j <= |s|
    ensures s[i..][j..] == s[i + j..]
  {
  }

  lemma {:induction false} TakeSnoc<T>(s: seq<T>, n: nat)
    requires n < |s|
    ensures s[..n + 1] == s[..n] + [s[n]]
  {
  }

  lemma {:induction false} SliceSnoc<T>(s: seq<T>, i: nat, j: nat)
    requires i <= j < |s|
    ensures s[i..j + 1] == s[i..j] + [s[j]]
  {
  }

  lemma {:induction false} SliceOfPrefix<T>(x: seq<T>, y: seq<T>, i: nat, j: nat)
    requires i <= j <= |x|
    ensures (x + y)[i..j] == x[i..j]
  {
  }

  lemma {:induction false} FrontOfConcat<T>(x: seq<T>, y: seq<T>)
    requires y != []
    ensures x + y != [] && (x + y)[|x + y| - 1] == y[|y| - 1] && (x + y)[..|x + y| - 1] == x + y[..|y| - 1]
  {
  }

  lemma {:induction false} PrefixThen<T>(x: seq<T>, y: seq<T>, whole: seq<T>)
    requires x + y <= whole
    ensures x <= whole && |x| + |y| <= |whole| && whole[|x|..|x| + |y|] == y
  {
    assert (x + y)[|x|..] == y;
  }

  /** Overwriting the tail of a sequence with as many elements. */
  lemma {:induction false} ReplaceTail<T>(x: seq<T>, z: seq<T>, y: seq<T>)
    requires |y| == |z|
    ensures (x + z)[..|x|] + y + (x + z)[|x| + |y|..] == x + y
  {
  }

  lemma {:induction false} UpdateTail<T>(x: seq<T>, y: seq<T>, i: nat, v: T)
    requires i < |y|
    ensures (x + y)[|x| + i := v] == x + y[i := v]
  {
  }

  lemma {:induction false} SliceBehind<T>(x: seq<T>, y: seq<T>, i: nat, j: nat)
    requires i <= j <= |y|
    ensures (x + y)[|x| + i..|x| + j] == y[i..j]
  {
  }

  lemma {:induction false} SliceSlice<T>(s: seq<T>, a: nat, b: nat, i: nat, j: nat)
    requires a <= b <= |s| && i <= j <= b - a
    ensures s[a..b][i..j] == s[a + i..a + j]
  {
    forall k | 0 <= k < j - i ensures s[a..b][i..j][k] == s[a + i..a + j][k] {
      assert s[a..b][i..j][k] == s[a..b][i + k];
    }
  }

  /** A slice and the one that begins where it ends. */
  lemma {:induction false} SliceAppend<T>(s: seq<T>, a: nat, b: nat, c: nat)
    requires a <= b <= c <= |s|
    ensures s[a..b] + s[b..c] == s[a..c]
  {
  }

  lemma {:induction false} FrontLast<T>(s: seq<T>)
    requires s != []
    ensures s[..|s| - 1] + [s[|s| - 1]] == s
  {
  }

  lemma {:induction false} SameUpdate<T>(s: seq<T>, i: nat, x: T)
    requires i < |s| && s[i] == x
    ensures s[i := x] == s
  {
  }

  lemma {:induction false} FrontOfUpdate<T>(s: seq<T>, i: nat, x: T)
    requires i < |s| - 1
    ensures s[..|s| - 1][..i] == s[..i] && s[..|s| - 1][i] == s[i]
    ensures s[i := x][..|s| - 1] == s[..|s| - 1][i := x] && s[i := x][|s| - 1] == s[|s| - 1]
  {
  }

  lemma {:induction false} UpdateTwice<T>(s: seq<T>, i: nat, x: T, y: T)
    requires i < |s|
    ensures s[i := x][i] == x && s[i := x][i := y] == s[i := y]
  {
  }

  /** All parts, one after the other. */
  function Joined<T>(parts: seq<seq<T>>): seq<T> {
    if parts == [] then [] else Joined(parts[..|parts| - 1]) + parts[|parts| - 1]
  }

  lemma {:induction false} JoinedSnoc<T>(parts: seq<seq<T>>, part: seq<T>)
    ensures Joined(parts + [part]) == Joined(parts) + part
  {
    Parts(parts, [part]);
  }

  lemma {:induction false} JoinedPrefix<T>(parts: seq<seq<T>>, n: nat)
    requires n <= |parts|
    ensures |Joined(parts[..n])| <= |Joined(parts)|
    ensures n < |parts| ==> Joined(parts[..n + 1]) == Joined(parts[..n]) + parts[n]
    ensures n < |parts| ==> |Joined(parts[..n])| + |parts[n]| <= |Joined(parts)|
    ensures n < |parts| ==> Joined(parts)[|Joined(parts[..n])|..|Joined(parts[..n])| + |parts[n]|] == parts[n]
    decreases |parts| - n
  {
    if n < |parts| {
      JoinedPrefix(parts, n + 1);
      TakeSnoc(parts, n);
      JoinedSnoc(parts[..n], parts[n]);
      JoinedExtends(parts, n + 1);
      PrefixThen(Joined(parts[..n]), parts[n], Joined(parts));
    } else {
      assert parts[..n] == parts;
    }
  }

  lemma {:induction false} JoinedExtends<T>(parts: seq<seq<T>>, n: nat)
    requires n <= |parts|
    ensures Joined(parts[..n]) <= Joined(parts)
  {
    if n < |parts| {
      JoinedExtends(parts[..|parts| - 1], n);
      assert parts[..|parts| - 1][..n] == parts[..n];
    } else {
      assert parts[..n] == parts;
    }
  }
}

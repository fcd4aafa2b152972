/** The edit distance of two strings, by the matrix that `getLevenshteinDist` fills. */
module Levenshtein {
  import opened Numbers
  import opened Seqs

  // ---------- edit scripts ----------

  /** What is done with the next character: kept, replaced or dropped; or one is put in. */
  datatype Edit = Keep | Replace(c: char) | Delete | Insert(c: char)

  /** What a script makes of a string, if it fits it. */
  function Apply(script: seq<Edit>, s: string): Option<string> {
    if script == [] then (if s == [] then Some([]) else None)
    else
      var front, last := script[..|script| - 1], script[|script| - 1];
      match last
      case Insert(c) => Then(Apply(front, s), [c])
      case Keep => if s == [] then None else Then(Apply(front, s[..|s| - 1]), [s[|s| - 1]])
      case Replace(c) => if s == [] then None else Then(Apply(front, s[..|s| - 1]), [c])
      case Delete => if s == [] then None else Apply(front, s[..|s| - 1])
  }

  function Then(r: Option<string>, end: string): Option<string> {
    if r.Some? then Some(r.value + end) else None
  }

  function CostOf(e: Edit): nat {
    if e.Keep? then 0 else 1
  }

  function Cost(script: seq<Edit>): nat {
    if script == [] then 0 else Cost(script[..|script| - 1]) + CostOf(script[|script| - 1])
  }

  // ---------- the recurrence ----------

  /** What the matrix holds for two prefixes: on equal last characters, only the diagonal. */
  function Distance(s: string, t: string): nat
    decreases |s| + |t|
  {
    if s == [] then |t|
    else if t == [] then |s|
    else
      var s', t' := s[..|s| - 1], t[..|t| - 1];
      if s[|s| - 1] == t[|t| - 1] then Distance(s', t')
      else 1 + Min(Min(Distance(s, t'), Distance(s', t)), Distance(s', t'))
  }

  lemma {:induction false} Symmetric(s: string, t: string)
    ensures Distance(s, t) == Distance(t, s)
    decreases |s| + |t|
  {
    if s != [] && t != [] {
      var s', t' := s[..|s| - 1], t[..|t| - 1];
      Symmetric(s', t');
      Symmetric(s, t');
      Symmetric(s', t);
    }
  }

  /** One character more or less changes the distance by one at most. */
  lemma {:induction false} OneMore(s: string, t: string)
    requires s != []
    ensures Distance(s, t) <= 1 + Distance(s[..|s| - 1], t)
    decreases |s| + |t|, 0
  {
    if t != [] && s[|s| - 1] == t[|t| - 1] {
      OneLess(s[..|s| - 1], t);
    }
  }

  lemma {:induction false} OneLess(s: string, t: string)
    requires t != []
    ensures Distance(s, t[..|t| - 1]) <= 1 + Distance(s, t)
    decreases |s| + |t|, 1
  {
    if s != [] {
      OneMore(s, t[..|t| - 1]);
      OneLess(s[..|s| - 1], t);
    }
  }

  /** So taking only the diagonal on equal characters loses nothing. */
  lemma {:induction false} DiagonalSuffices(s: string, t: string)
    requires s != [] && t != []
    ensures Distance(s, t) <= 1 + Distance(s[..|s| - 1], t)
    ensures Distance(s, t) <= 1 + Distance(s, t[..|t| - 1])
    ensures Distance(s, t) <= 1 + Distance(s[..|s| - 1], t[..|t| - 1])
  {
    OneMore(s, t);
    OneMore(t, s);
    Symmetric(s, t);
    Symmetric(s, t[..|t| - 1]);
  }

  // ---------- the distance is the least cost ----------

  /** No script is cheaper. */
  lemma {:induction false} NoneCheaper(script: seq<Edit>, s: string)
    requires Apply(script, s).Some?
    ensures Distance(s, Apply(script, s).value) <= Cost(script)
  {
    if script != [] {
      var front, last := script[..|script| - 1], script[|script| - 1];
      var t := Apply(script, s).value;
      if last.Insert? {
        NoneCheaper(front, s);
        Parts(Apply(front, s).value, [last.c]);
        InsertCosts(s, t);
      } else {
        NoneCheaper(front, s[..|s| - 1]);
        var t' := Apply(front, s[..|s| - 1]).value;
        if last.Delete? {
          OneMore(s, t);
        } else {
          Parts(t', t[|t'|..]);
          DiagonalSuffices(s, t);
        }
      }
    }
  }

  lemma {:induction false} InsertCosts(s: string, t: string)
    requires t != []
    ensures Distance(s, t) <= 1 + Distance(s, t[..|t| - 1])
  {
    OneMore(t, s);
    Symmetric(s, t);
    Symmetric(s, t[..|t| - 1]);
  }

  /** A script for the price of the distance. */
  function Best(s: string, t: string): seq<Edit>
    decreases |s| + |t|
  {
    if s == [] && t == [] then []
    else if s == [] then Best(s, t[..|t| - 1]) + [Insert(t[|t| - 1])]
    else if t == [] then Best(s[..|s| - 1], t) + [Delete]
    else
      var s', t' := s[..|s| - 1], t[..|t| - 1];
      if s[|s| - 1] == t[|t| - 1] then Best(s', t') + [Keep]
      else if Distance(s, t) == 1 + Distance(s, t') then Best(s, t') + [Insert(t[|t| - 1])]
      else if Distance(s, t) == 1 + Distance(s', t) then Best(s', t) + [Delete]
      else Best(s', t') + [Replace(t[|t| - 1])]
  }

  /** A script grown by one edit. */
  lemma {:induction false} Grown(front: seq<Edit>, s': string, t': string, e: Edit, s: string, t: string)
    requires Apply(front, s') == Some(t')
    requires if e.Insert? then s == s' else s != [] && s' == s[..|s| - 1]
    requires t == match e
                  case Keep => t' + [s[|s| - 1]]
                  case Replace(c) => t' + [c]
                  case Delete => t'
                  case Insert(c) => t' + [c]
    ensures Apply(front + [e], s) == Some(t) && Cost(front + [e]) == Cost(front) + CostOf(e)
  {
    Snoc(front, e);
  }

  lemma {:induction false} BestIs(s: string, t: string)
    ensures Apply(Best(s, t), s) == Some(t) && Cost(Best(s, t)) == Distance(s, t)
    decreases |s| + |t|
  {
    if s == [] {
      if t != [] {
        FrontLast(t);
        BestIs(s, t[..|t| - 1]);
        Grown(Best(s, t[..|t| - 1]), s, t[..|t| - 1], Insert(t[|t| - 1]), s, t);
      }
    } else if t == [] {
      BestIs(s[..|s| - 1], t);
      Grown(Best(s[..|s| - 1], t), s[..|s| - 1], t, Delete, s, t);
    } else {
      FrontLast(t);
      var s', t', c := s[..|s| - 1], t[..|t| - 1], t[|t| - 1];
      if s[|s| - 1] == c {
        BestIs(s', t');
        Grown(Best(s', t'), s', t', Keep, s, t);
      } else if Distance(s, t) == 1 + Distance(s, t') {
        BestIs(s, t');
        Grown(Best(s, t'), s, t', Insert(c), s, t);
      } else if Distance(s, t) == 1 + Distance(s', t) {
        BestIs(s', t);
        Grown(Best(s', t), s', t, Delete, s, t);
      } else {
        BestIs(s', t');
        Grown(Best(s', t'), s', t', Replace(c), s, t);
      }
    }
  }

  /** The distance is the least cost of all scripts that turn one string into the other. */
  lemma {:induction false} DistanceIsLeastCost(s: string, t: string, n: nat)
    ensures n == Distance(s, t) <==>
            && (exists script :: Apply(script, s) == Some(t) && Cost(script) == n)
            && forall script :: Apply(script, s) == Some(t) ==> n <= Cost(script)
  {
    BestIs(s, t);
    forall script | Apply(script, s) == Some(t) ensures Distance(s, t) <= Cost(script) {
      NoneCheaper(script, s);
    }
  }

  // ---------- a metric ----------

  lemma {:induction false} ZeroIffEqual(s: string, t: string)
    ensures Distance(s, t) == 0 <==> s == t
    decreases |s| + |t|
  {
    if s != [] && t != [] && s[|s| - 1] == t[|t| - 1] {
      ZeroIffEqual(s[..|s| - 1], t[..|t| - 1]);
      FrontLast(s);
      FrontLast(t);
    }
  }

  /** One script after another, as one. */
  function Compose(p: seq<Edit>, q: seq<Edit>): seq<Edit>
    decreases |p| + |q|
  {
    if q == [] then p
    else if q[|q| - 1].Insert? then Compose(p, q[..|q| - 1]) + [q[|q| - 1]]
    else if p == [] then q
    else
      var p', q' := p[..|p| - 1], q[..|q| - 1];
      var a, b := p[|p| - 1], q[|q| - 1];
      if a.Delete? then Compose(p', q) + [a]
      else if b.Keep? then Compose(p', q') + [a]
      else if a.Insert? then (if b.Delete? then Compose(p', q') else Compose(p', q') + [Insert(b.c)])
      else Compose(p', q') + [b]
  }

  lemma {:induction false} Snoc(script: seq<Edit>, e: Edit)
    ensures script + [e] != [] && (script + [e])[..|script + [e]| - 1] == script
    ensures (script + [e])[|script + [e]| - 1] == e
    ensures Cost(script + [e]) == Cost(script) + CostOf(e)
  {
    Parts(script, [e]);
  }

  lemma {:induction false} ComposeIs(p: seq<Edit>, q: seq<Edit>, s: string, t: string, u: string)
    requires Apply(p, s) == Some(t) && Apply(q, t) == Some(u)
    ensures Apply(Compose(p, q), s) == Some(u) && Cost(Compose(p, q)) <= Cost(p) + Cost(q)
    decreases |p| + |q|
  {
    if q != [] {
      var q', b := q[..|q| - 1], q[|q| - 1];
      if b.Insert? {
        ComposeIs(p, q', s, t, Apply(q', t).value);
        Snoc(Compose(p, q'), b);
      } else if p != [] {
        var p', a := p[..|p| - 1], p[|p| - 1];
        var s' := if a.Insert? then s else s[..|s| - 1];
        var t' := Apply(p', s').value;
        if a.Delete? {
          ComposeIs(p', q, s', t, u);
          Snoc(Compose(p', q), a);
        } else {
          Parts(t', t[|t'|..]);
          var u' := Apply(q', t').value;
          ComposeIs(p', q', s', t', u');
          var front := Compose(p', q');
          if b.Keep? {
            Snoc(front, a);
          } else if a.Insert? {
            if b.Replace? {
              Snoc(front, Insert(b.c));
            }
          } else {
            Snoc(front, b);
          }
        }
      }
    }
  }

  lemma {:induction false} Triangle(s: string, t: string, u: string)
    ensures Distance(s, u) <= Distance(s, t) + Distance(t, u)
  {
    BestIs(s, t);
    BestIs(t, u);
    ComposeIs(Best(s, t), Best(t, u), s, t, u);
    NoneCheaper(Compose(Best(s, t), Best(t, u)), s);
  }

  // ---------- the matrix ----------

  lemma {:induction false} PrefixFront(s: string, i: nat)
    requires 0 < i <= |s|
    ensures s[..i] != [] && s[..i][|s[..i]| - 1] == s[i - 1] && s[..i][..|s[..i]| - 1] == s[..i - 1]
  {
  }

  ghost predicate RowFilled(matrix: array2<nat>, s: string, t: string, i: nat, n: nat)
    requires i <= |s| && n <= |t| + 1 && matrix.Length0 == |s| + 1 && matrix.Length1 == |t| + 1
    reads matrix
  {
    forall j :: 0 <= j < n ==> matrix[i, j] == Distance(s[..i], t[..j])
  }

  /** One cell of the matrix. */
  method FillCell(matrix: array2<nat>, string1: string, string2: string, i: nat, j: nat)
    requires matrix.Length0 == |string1| + 1 && matrix.Length1 == |string2| + 1 && i <= |string1| && j <= |string2|
    requires 0 < j ==> matrix[i, j - 1] == Distance(string1[..i], string2[..j - 1])
    requires 0 < i ==> matrix[i - 1, j] == Distance(string1[..i - 1], string2[..j])
    requires 0 < i && 0 < j ==> matrix[i - 1, j - 1] == Distance(string1[..i - 1], string2[..j - 1])
    modifies matrix
    ensures matrix[i, j] == Distance(string1[..i], string2[..j])
    ensures forall k, l :: 0 <= k <= |string1| && 0 <= l <= |string2| && (k != i || l != j)
                           ==> matrix[k, l] == old(matrix[k, l])
  {
    if i > 0 { PrefixFront(string1, i); }
    if j > 0 { PrefixFront(string2, j); }
    if i == 0 {
      matrix[i, j] := j;
    } else if j == 0 {
      matrix[i, j] := i;
    } else if string1[i - 1] == string2[j - 1] {
      matrix[i, j] := matrix[i - 1, j - 1];
    } else {
      matrix[i, j] := 1 + Min(Min(matrix[i, j - 1], matrix[i - 1, j]), matrix[i - 1, j - 1]);
    }
  }

  /** Fills the matrix row by row; its last cell is the least number of edits. */
  method GetLevenshteinDist(string1: string, string2: string) returns (d: nat)
    ensures d == Distance(string1, string2)
  {
    var matrix := new nat[|string1| + 1, |string2| + 1];
    for i := 0 to |string1| + 1
      invariant 0 < i ==> RowFilled(matrix, string1, string2, i - 1, |string2| + 1)
    {
      for j := 0 to |string2| + 1
        invariant 0 < i ==> RowFilled(matrix, string1, string2, i - 1, |string2| + 1)
        invariant RowFilled(matrix, string1, string2, i, j)
      {
        FillCell(matrix, string1, string2, i, j);
      }
    }
    assert string1[..|string1|] == string1 && string2[..|string2|] == string2;
    d := matrix[|string1|, |string2|];
  }
}

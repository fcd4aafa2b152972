/** Cutting a line into tokens and joining them again: `StringVector`. */
module Tokenizer {
  import opened Seqs

  const NUL: char := '\0'
  const NEWLINE: char := '\n'

  /** A token is a piece of a string that is kept elsewhere. */
  datatype Token = Token(index: nat, length: nat) {
    function End(): nat {
      index + length
    }
  }

  function Text(s: string, t: Token): string
    requires t.End() <= |s|
  {
    s[t.index..t.End()]
  }

  // ---------- what the tokens of a line are ----------

  /** No delimiter from one place to another. */
  ghost predicate Free(line: string, d: char, from: nat, to: nat)
    requires to <= |line|
  {
    forall i :: from <= i < to ==> line[i] != d
  }

  /** A run of characters other than the delimiter that cannot be made longer within the first n. */
  ghost predicate IsRun(line: string, n: nat, d: char, t: Token)
    requires n <= |line|
  {
    && 0 < t.length && t.End() <= n && Free(line, d, t.index, t.End())
    && (t.index == 0 || line[t.index - 1] == d)
    && (t.End() == n || line[t.End()] == d)
  }

  ghost predicate AllRuns(line: string, n: nat, d: char, tokens: seq<Token>)
    requires n <= |line|
  {
    tokens == [] || (AllRuns(line, n, d, tokens[..|tokens| - 1]) && IsRun(line, n, d, tokens[|tokens| - 1]))
  }

  /** Some token holds the character at i. */
  predicate Covered(tokens: seq<Token>, i: nat) {
    tokens != [] && (Covered(tokens[..|tokens| - 1], i) || tokens[|tokens| - 1].index <= i < tokens[|tokens| - 1].End())
  }

  /** Every character before n is a delimiter or in some token. */
  predicate AllCovered(line: string, d: char, tokens: seq<Token>, n: nat)
    requires n <= |line|
  {
    n == 0 || (AllCovered(line, d, tokens, n - 1) && (line[n - 1] != d ==> Covered(tokens, n - 1)))
  }

  /** Each token begins where those before it have ended. */
  predicate Ordered(tokens: seq<Token>) {
    tokens == [] ||
    (Ordered(tokens[..|tokens| - 1]) && AllEndBefore(tokens[..|tokens| - 1], tokens[|tokens| - 1].index))
  }

  predicate AllEndBefore(tokens: seq<Token>, i: nat) {
    tokens == [] || (AllEndBefore(tokens[..|tokens| - 1], i) && tokens[|tokens| - 1].End() <= i)
  }

  /** All runs of a line, from left to right. */
  ghost predicate IsTokens(line: string, d: char, tokens: seq<Token>) {
    AllRuns(line, |line|, d, tokens) && Ordered(tokens) && AllCovered(line, d, tokens, |line|)
  }

  /** The same, by the index of each token and of each character. */
  lemma {:induction false} TokensMean(line: string, d: char, tokens: seq<Token>)
    requires IsTokens(line, d, tokens)
    ensures forall k :: 0 <= k < |tokens| ==> IsRun(line, |line|, d, tokens[k])
    ensures forall k, l :: 0 <= k < l < |tokens| ==> tokens[k].End() <= tokens[l].index
    ensures forall i :: 0 <= i < |line| && line[i] != d ==>
              exists k :: 0 <= k < |tokens| && tokens[k].index <= i < tokens[k].End()
  {
    forall k | 0 <= k < |tokens| ensures IsRun(line, |line|, d, tokens[k]) {
      RunAt(line, |line|, d, tokens, k);
    }
    forall k, l | 0 <= k < l < |tokens| ensures tokens[k].End() <= tokens[l].index {
      InOrder(tokens, k, l);
    }
    forall i | 0 <= i < |line| && line[i] != d
      ensures exists k :: 0 <= k < |tokens| && tokens[k].index <= i < tokens[k].End()
    {
      CoveredAt(line, d, tokens, |line|, i);
      var k := CoveringToken(tokens, i);
    }
  }

  lemma {:induction false} RunAt(line: string, n: nat, d: char, tokens: seq<Token>, k: nat)
    requires n <= |line| && AllRuns(line, n, d, tokens) && k < |tokens|
    ensures IsRun(line, n, d, tokens[k])
  {
    if k < |tokens| - 1 {
      RunAt(line, n, d, tokens[..|tokens| - 1], k);
    }
  }

  lemma {:induction false} CoveredAt(line: string, d: char, tokens: seq<Token>, n: nat, i: nat)
    requires i < n <= |line| && AllCovered(line, d, tokens, n) && line[i] != d
    ensures Covered(tokens, i)
  {
    if i < n - 1 {
      CoveredAt(line, d, tokens, n - 1, i);
    }
  }

  lemma {:induction false} CoveringToken(tokens: seq<Token>, i: nat) returns (k: nat)
    requires Covered(tokens, i)
    ensures k < |tokens| && tokens[k].index <= i < tokens[k].End()
  {
    var last := |tokens| - 1;
    if tokens[last].index <= i < tokens[last].End() {
      k := last;
    } else {
      k := CoveringToken(tokens[..last], i);
    }
  }

  lemma {:induction false} EndsBefore(tokens: seq<Token>, i: nat, k: nat)
    requires AllEndBefore(tokens, i) && k < |tokens|
    ensures tokens[k].End() <= i
  {
    if k < |tokens| - 1 {
      EndsBefore(tokens[..|tokens| - 1], i, k);
    }
  }

  lemma {:induction false} InOrder(tokens: seq<Token>, k: nat, l: nat)
    requires Ordered(tokens) && k < l < |tokens|
    ensures tokens[k].End() <= tokens[l].index
  {
    if l < |tokens| - 1 {
      InOrder(tokens[..|tokens| - 1], k, l);
    } else {
      EndsBefore(tokens[..l], tokens[l].index, k);
    }
  }

  /** Two lists that agree up to k: the next token of one is not before that of the other. */
  lemma {:induction false} NotBefore(line: string, d: char, a: seq<Token>, b: seq<Token>, k: nat)
    requires IsTokens(line, d, a) && IsTokens(line, d, b) && k < |a| && k <= |b| && a[..k] == b[..k]
    ensures k < |b| && b[k].index <= a[k].index
  {
    var i := a[k].index;
    RunAt(line, |line|, d, a, k);
    CoveredAt(line, d, b, |line|, i);
    var m := CoveringToken(b, i);
    forall l | 0 <= l < k ensures b[l] == a[l] {
      assert b[l] == b[..k][l] == a[..k][l] == a[l];
    }
    if m < k {
      InOrder(a, m, k);
    } else if k < m {
      RunAt(line, |line|, d, b, k);
      InOrder(b, k, m);
    }
  }

  lemma {:induction false} NotLonger(line: string, d: char, a: Token, b: Token)
    requires IsRun(line, |line|, d, a) && IsRun(line, |line|, d, b) && a.index == b.index
    ensures b.length <= a.length
  {
    assert a.End() < |line| ==> line[a.End()] == d;
  }

  lemma {:induction false} SameNext(line: string, d: char, a: seq<Token>, b: seq<Token>, k: nat)
    requires IsTokens(line, d, a) && IsTokens(line, d, b) && k < |a| && k < |b| && a[..k] == b[..k]
    ensures a[k] == b[k]
  {
    NotBefore(line, d, a, b, k);
    NotBefore(line, d, b, a, k);
    RunAt(line, |line|, d, a, k);
    RunAt(line, |line|, d, b, k);
    NotLonger(line, d, a[k], b[k]);
    NotLonger(line, d, b[k], a[k]);
  }

  lemma {:induction false} SamePrefix(line: string, d: char, a: seq<Token>, b: seq<Token>, k: nat)
    requires IsTokens(line, d, a) && IsTokens(line, d, b) && k <= |a|
    ensures k <= |b| && a[..k] == b[..k]
  {
    if k > 0 {
      SamePrefix(line, d, a, b, k - 1);
      NotBefore(line, d, a, b, k - 1);
      SameNext(line, d, a, b, k - 1);
      TakeSnoc(a, k - 1);
      TakeSnoc(b, k - 1);
    }
  }

  /** The tokens of a line are determined by it. */
  lemma {:induction false} TokensAreUnique(line: string, d: char, a: seq<Token>, b: seq<Token>)
    requires IsTokens(line, d, a) && IsTokens(line, d, b)
    ensures a == b
  {
    SamePrefix(line, d, a, b, |a|);
    SamePrefix(line, d, b, a, |b|);
    assert a[..|a|] == a && b[..|b|] == b;
  }

  // ---------- the first line ----------

  /** Where the first line ends. */
  ghost predicate IsLineEnd(data: string, n: nat) {
    && n <= |data| && Free(data, NEWLINE, 0, n)
    && (n == |data| || data[n] == NEWLINE)
  }

  function LineEnd(data: string): (n: nat)
    ensures IsLineEnd(data, n)
  {
    if data == [] then 0
    else
      var n := LineEnd(data[..|data| - 1]);
      if n < |data| - 1 then n else if data[n] == NEWLINE then n else n + 1
  }

  lemma {:induction false} OneLineEnd(data: string, m: nat, n: nat)
    requires IsLineEnd(data, m) && IsLineEnd(data, n)
    ensures m == n
  {
  }

  /** Every token lies inside the string. */
  ghost predicate Fit(s: string, tokens: seq<Token>) {
    forall k :: 0 <= k < |tokens| ==> tokens[k].End() <= |s|
  }

  /** What the tokenizer returns: nothing for data that is empty or starts with NUL. */
  ghost predicate Tokenized(data: string, d: char, tokens: seq<Token>)
    ensures Tokenized(data, d, tokens) ==> Fit(data, tokens)
  {
    if data == [] || data[0] == NUL then tokens == []
    else
      LineTokensFit(data, d, tokens);
      IsTokens(data[..LineEnd(data)], d, tokens)
  }

  lemma {:induction false} LineTokensFit(data: string, d: char, tokens: seq<Token>)
    ensures IsTokens(data[..LineEnd(data)], d, tokens) ==> Fit(data, tokens)
  {
    if IsTokens(data[..LineEnd(data)], d, tokens) {
      TokensMean(data[..LineEnd(data)], d, tokens);
    }
  }

  // ---------- the loop ----------

  /** The tokens found so far: those of the first i characters that end before `upto`. */
  ghost predicate Collected(data: string, d: char, tokens: seq<Token>, upto: nat, i: nat)
    requires upto <= i <= |data|
  {
    AllRuns(data, i, d, tokens) && Ordered(tokens) && AllEndBefore(tokens, upto) && AllCovered(data, d, tokens, upto)
  }

  /** Where the start pointer stands after i characters. */
  ghost predicate StartIs(data: string, d: char, start: nat, i: nat)
    requires start <= i <= |data|
  {
    if i == 0 then start == 0
    else if data[i - 1] == d then start == i - 1
    else start < i && Free(data, d, start, i) && (start == 0 || data[start - 1] == d)
  }

  ghost predicate Scanned(data: string, d: char, tokens: seq<Token>, start: nat, i: nat)
    requires start <= i <= |data|
  {
    Collected(data, d, tokens, start, i) && StartIs(data, d, start, i)
  }

  lemma {:induction false} EndBeforeLater(tokens: seq<Token>, i: nat, j: nat)
    requires AllEndBefore(tokens, i) && i <= j
    ensures AllEndBefore(tokens, j)
  {
    if tokens != [] {
      EndBeforeLater(tokens[..|tokens| - 1], i, j);
    }
  }

  lemma {:induction false} RunsStay(data: string, d: char, tokens: seq<Token>, upto: nat, i: nat)
    requires i < |data| && AllRuns(data, i, d, tokens) && AllEndBefore(tokens, upto)
    requires upto < i || (upto == i && data[i] == d)
    ensures AllRuns(data, i + 1, d, tokens)
  {
    if tokens != [] {
      RunsStay(data, d, tokens[..|tokens| - 1], upto, i);
    }
  }

  lemma {:induction false} CoveredStays(data: string, d: char, tokens: seq<Token>, t: Token, n: nat)
    requires n <= |data| && AllCovered(data, d, tokens, n)
    ensures AllCovered(data, d, tokens + [t], n)
  {
    if n > 0 {
      CoveredStays(data, d, tokens, t, n - 1);
      Parts(tokens, [t]);
    }
  }

  /** A token covers its own characters. */
  lemma {:induction false} CoversOwn(data: string, d: char, tokens: seq<Token>, t: Token, n: nat)
    requires t.index <= n <= t.End() <= |data| && AllCovered(data, d, tokens, t.index)
    ensures AllCovered(data, d, tokens + [t], n)
  {
    if n == t.index {
      CoveredStays(data, d, tokens, t, n);
    } else {
      CoversOwn(data, d, tokens, t, n - 1);
      Parts(tokens, [t]);
    }
  }

  /** The tokens after one more character, or at the end of the line. */
  function NextTokens(data: string, d: char, tokens: seq<Token>, start: nat, i: nat): seq<Token>
    requires start <= i <= |data|
  {
    if start != i && data[start] != d then tokens + [Token(start, i - start)] else tokens
  }

  /** Where the start pointer goes on a character that is no delimiter. */
  function NextStart(data: string, d: char, start: nat): nat
    requires start < |data|
  {
    if data[start] == d then start + 1 else start
  }

  /** The run that ends here, if one does. */
  lemma {:induction false} Emitted(data: string, d: char, tokens: seq<Token>, start: nat, i: nat)
    requires start <= i <= |data| && Scanned(data, d, tokens, start, i)
    ensures Collected(data, d, NextTokens(data, d, tokens, start, i), i, i)
  {
    EndBeforeLater(tokens, start, i);
    if start != i && data[start] != d {
      var t := Token(start, i - start);
      Parts(tokens, [t]);
      CoversOwn(data, d, tokens, t, i);
    }
  }

  lemma {:induction false} NextIsDelimiter(data: string, d: char, tokens: seq<Token>, start: nat, i: nat)
    requires start <= i < |data| && Scanned(data, d, tokens, start, i) && data[i] == d
    ensures Scanned(data, d, NextTokens(data, d, tokens, start, i), i, i + 1)
  {
    Emitted(data, d, tokens, start, i);
    RunsStay(data, d, NextTokens(data, d, tokens, start, i), i, i);
  }

  lemma {:induction false} NextIsOther(data: string, d: char, tokens: seq<Token>, start: nat, i: nat)
    requires start <= i < |data| && Scanned(data, d, tokens, start, i) && data[i] != d
    ensures NextStart(data, d, start) <= i + 1 && Scanned(data, d, tokens, NextStart(data, d, start), i + 1)
  {
    EndBeforeLater(tokens, start, NextStart(data, d, start));
    if i == 0 {
      assert tokens == [];
    } else {
      RunsStay(data, d, tokens, start, i);
    }
  }

  /** Where the pointers stand after i characters, wrapped. */
  ghost predicate Scan(data: string, d: char, tokens: seq<Token>, start: nat, i: nat, wraps: nat)
    requires start <= i <= |data|
  {
    if wraps > 0 then Scan(data, d, tokens, start, i, wraps - 1) else Scanned(data, d, tokens, start, i)
  }

  lemma {:induction false} OpenScan(data: string, d: char, tokens: seq<Token>, start: nat, i: nat, wraps: nat)
    requires start <= i <= |data|
    ensures Scan(data, d, tokens, start, i, wraps) <==> Scanned(data, d, tokens, start, i)
  {
    if wraps > 0 {
      OpenScan(data, d, tokens, start, i, wraps - 1);
    }
  }

  lemma {:induction false} ScanDelimiter(data: string, d: char, tokens: seq<Token>, start: nat, i: nat)
    requires start <= i < |data| && Scan(data, d, tokens, start, i, WRAPS) && data[i] == d
    ensures Scan(data, d, NextTokens(data, d, tokens, start, i), i, i + 1, WRAPS)
  {
    OpenScan(data, d, tokens, start, i, WRAPS);
    NextIsDelimiter(data, d, tokens, start, i);
    OpenScan(data, d, NextTokens(data, d, tokens, start, i), i, i + 1, WRAPS);
  }

  lemma {:induction false} ScanOther(data: string, d: char, tokens: seq<Token>, start: nat, i: nat)
    requires start <= i < |data| && Scan(data, d, tokens, start, i, WRAPS) && data[i] != d
    ensures NextStart(data, d, start) <= i + 1 && Scan(data, d, tokens, NextStart(data, d, start), i + 1, WRAPS)
  {
    OpenScan(data, d, tokens, start, i, WRAPS);
    NextIsOther(data, d, tokens, start, i);
    OpenScan(data, d, tokens, NextStart(data, d, start), i + 1, WRAPS);
  }

  lemma {:induction false} ScanEnds(data: string, d: char, tokens: seq<Token>, start: nat, n: nat)
    requires start <= n <= |data| && Scan(data, d, tokens, start, n, WRAPS)
    ensures IsTokens(data[..n], d, NextTokens(data, d, tokens, start, n))
  {
    OpenScan(data, d, tokens, start, n, WRAPS);
    Emitted(data, d, tokens, start, n);
    RunsOfLine(data, d, NextTokens(data, d, tokens, start, n), n);
    CoveredOfLine(data, d, NextTokens(data, d, tokens, start, n), n, n);
  }

  lemma {:induction false} RunsOfLine(data: string, d: char, tokens: seq<Token>, n: nat)
    requires n <= |data| && AllRuns(data, n, d, tokens)
    ensures AllRuns(data[..n], n, d, tokens)
  {
    if tokens != [] {
      RunsOfLine(data, d, tokens[..|tokens| - 1], n);
    }
  }

  lemma {:induction false} CoveredOfLine(data: string, d: char, tokens: seq<Token>, n: nat, m: nat)
    requires m <= n <= |data| && AllCovered(data, d, tokens, m)
    ensures AllCovered(data[..n], d, tokens, m)
  {
    if m > 0 {
      CoveredOfLine(data, d, tokens, n, m - 1);
    }
  }

  /** The pointer loop. */
  method Tokenize(data: string, delimiter: char) returns (tokens: seq<Token>)
    ensures Tokenized(data, delimiter, tokens)
  {
    tokens := [];
    if |data| == 0 || data[0] == NUL {
      return;
    }
    var start: nat, end: nat := 0, 0;
    OpenScan(data, delimiter, tokens, start, end, WRAPS);
    while end < |data| && data[end] != NEWLINE
      invariant start <= end <= |data| && Scan(data, delimiter, tokens, start, end, WRAPS)
      invariant Free(data, NEWLINE, 0, end)
    {
      if data[end] == delimiter {
        ScanDelimiter(data, delimiter, tokens, start, end);
        if start != end && data[start] != delimiter {
          tokens := tokens + [Token(start, end - start)];
        }
        start := end;
      } else {
        ScanOther(data, delimiter, tokens, start, end);
        if data[start] == delimiter {
          start := start + 1;
        }
      }
      end := end + 1;
    }
    ScanEnds(data, delimiter, tokens, start, end);
    OneLineEnd(data, end, LineEnd(data));
    if start != end && data[start] != delimiter && data[start] != NEWLINE {
      tokens := tokens + [Token(start, end - start)];
    }
  }

  // ---------- visiting the tokens ----------

  function Texts(s: string, tokens: seq<Token>): (r: seq<string>)
    requires Fit(s, tokens)
    ensures |r| == |tokens|
  {
    if tokens == [] then []
    else Texts(s, tokens[..|tokens| - 1]) + [Text(s, tokens[|tokens| - 1])]
  }

  lemma {:induction false} TextsAt(s: string, tokens: seq<Token>, k: nat)
    requires Fit(s, tokens) && k < |tokens|
    ensures Texts(s, tokens)[k] == Text(s, tokens[k])
  {
    if k < |tokens| - 1 {
      TextsAt(s, tokens[..|tokens| - 1], k);
    }
  }

  predicate NoneStops(stop: (nat, string) -> bool, seen: seq<string>) {
    forall k :: 0 <= k < |seen| ==> !stop(k, seen[k])
  }

  /** What a visitor sees who says stop at some token: all up to that one. */
  ghost predicate Visited(texts: seq<string>, stop: (nat, string) -> bool, seen: seq<string>) {
    && seen <= texts
    && (seen != [] ==> NoneStops(stop, seen[..|seen| - 1]))
    && (|seen| < |texts| ==> seen != [] && stop(|seen| - 1, seen[|seen| - 1]))
  }

  /** What has been seen are the tokens found. */
  ghost predicate Seen(data: string, done: seq<Token>, seen: seq<string>, wraps: nat) {
    if wraps > 0 then Seen(data, done, seen, wraps - 1) else Fit(data, done) && seen == Texts(data, done)
  }

  lemma {:induction false} OpenSeen(data: string, done: seq<Token>, seen: seq<string>, wraps: nat)
    ensures Seen(data, done, seen, wraps) <==> Fit(data, done) && seen == Texts(data, done)
  {
    if wraps > 0 {
      OpenSeen(data, done, seen, wraps - 1);
    }
  }

  lemma {:induction false} SeenNext(data: string, done: seq<Token>, seen: seq<string>, t: Token)
    requires Seen(data, done, seen, WRAPS) && t.End() <= |data|
    ensures Seen(data, done + [t], seen + [data[t.index..t.End()]], WRAPS)
  {
    OpenSeen(data, done, seen, WRAPS);
    Parts(done, [t]);
    OpenSeen(data, done + [t], seen + [data[t.index..t.End()]], WRAPS);
  }

  /** However the scan goes on, what is found stays. */
  lemma {:induction false} ScanOn(data: string, d: char, tokens: seq<Token>, start: nat, i: nat, n: nat)
    returns (all: seq<Token>)
    requires start <= i <= n <= |data| && Scan(data, d, tokens, start, i, WRAPS)
    ensures tokens <= all && IsTokens(data[..n], d, all)
    decreases n - i
  {
    if i == n {
      ScanEnds(data, d, tokens, start, n);
      all := NextTokens(data, d, tokens, start, n);
    } else if data[i] == d {
      ScanDelimiter(data, d, tokens, start, i);
      all := ScanOn(data, d, NextTokens(data, d, tokens, start, i), i, i + 1, n);
    } else {
      ScanOther(data, d, tokens, start, i);
      all := ScanOn(data, d, tokens, NextStart(data, d, start), i + 1, n);
    }
  }

  /** Stopped by the visitor: what was seen is the front of what there is. */
  lemma {:induction false} Stopped(data: string, d: char, done: seq<Token>, start: nat, i: nat, tokens: seq<Token>,
                                   seen: seq<string>, stop: (nat, string) -> bool)
    requires start <= i <= LineEnd(data) && Scan(data, d, done, start, i, WRAPS) && Seen(data, done, seen, WRAPS)
    requires IsTokens(data[..LineEnd(data)], d, tokens) && Fit(data, tokens)
    requires seen != [] && NoneStops(stop, seen[..|seen| - 1]) && stop(|seen| - 1, seen[|seen| - 1])
    ensures Visited(Texts(data, tokens), stop, seen)
  {
    var all := ScanOn(data, d, done, start, i, LineEnd(data));
    TokensAreUnique(data[..LineEnd(data)], d, all, tokens);
    OpenSeen(data, done, seen, WRAPS);
    forall k | 0 <= k < |seen| ensures seen[k] == Texts(data, tokens)[k] {
      TextsAt(data, done, k);
      TextsAt(data, tokens, k);
      assert all[k] == done[k];
    }
  }

  /** All tokens were shown. */
  lemma {:induction false} AllSeen(data: string, d: char, done: seq<Token>, tokens: seq<Token>, n: nat,
                                   seen: seq<string>, stop: (nat, string) -> bool)
    requires IsLineEnd(data, n) && IsTokens(data[..n], d, done) && IsTokens(data[..LineEnd(data)], d, tokens)
    requires Seen(data, done, seen, WRAPS) && (seen != [] ==> NoneStops(stop, seen[..|seen| - 1])) && Fit(data, tokens)
    ensures Visited(Texts(data, tokens), stop, seen)
  {
    OneLineEnd(data, n, LineEnd(data));
    TokensAreUnique(data[..n], d, done, tokens);
    OpenSeen(data, done, seen, WRAPS);
  }

  lemma {:induction false} BeforeLineEnd(data: string, i: nat)
    requires i < |data| && data[i] != NEWLINE && Free(data, NEWLINE, 0, i)
    ensures i + 1 <= LineEnd(data)
  {
  }

  /** The token that ends here is shown to the visitor. */
  method Show(stop: (nat, string) -> bool, data: string, start: nat, end: nat, seen0: seq<string>,
              ghost done: seq<Token>)
    returns (seen: seq<string>, stopped: bool)
    requires start <= end <= |data| && Seen(data, done, seen0, WRAPS) && NoneStops(stop, seen0)
    ensures Seen(data, done + [Token(start, end - start)], seen, WRAPS)
    ensures seen != [] && NoneStops(stop, seen[..|seen| - 1])
    ensures stopped <==> stop(|seen| - 1, seen[|seen| - 1])
    ensures !stopped ==> NoneStops(stop, seen)
  {
    var text := data[start..end];
    SeenNext(data, done, seen0, Token(start, end - start));
    ShownLast(stop, seen0, text);
    seen := seen0 + [text];
    stopped := stop(|seen0|, text);
  }

  lemma {:induction false} ShownLast(stop: (nat, string) -> bool, seen: seq<string>, text: string)
    requires NoneStops(stop, seen)
    ensures seen + [text] != [] && (seen + [text])[|seen + [text]| - 1] == text && |seen + [text]| - 1 == |seen|
    ensures NoneStops(stop, (seen + [text])[..|seen + [text]| - 1])
    ensures !stop(|seen|, text) ==> NoneStops(stop, seen + [text])
  {
    assert (seen + [text])[..|seen|] == seen;
  }

  /** A delimiter, with a visitor: a token that ends here is shown. */
  method ShowBefore(stop: (nat, string) -> bool, data: string, d: char, start: nat, end: nat, seen0: seq<string>,
                    ghost done: seq<Token>, ghost tokens: seq<Token>)
    returns (seen: seq<string>, stopped: bool)
    requires start <= end < |data| && data[end] == d && data[end] != NEWLINE && Free(data, NEWLINE, 0, end)
    requires Scan(data, d, done, start, end, WRAPS) && Seen(data, done, seen0, WRAPS) && NoneStops(stop, seen0)
    requires IsTokens(data[..LineEnd(data)], d, tokens) && Fit(data, tokens)
    ensures Scan(data, d, NextTokens(data, d, done, start, end), end, end + 1, WRAPS)
    ensures if stopped then Visited(Texts(data, tokens), stop, seen)
            else Seen(data, NextTokens(data, d, done, start, end), seen, WRAPS) && NoneStops(stop, seen)
  {
    seen, stopped := seen0, false;
    ScanDelimiter(data, d, done, start, end);
    if start != end && data[start] != d {
      seen, stopped := Show(stop, data, start, end, seen, done);
      if stopped {
        BeforeLineEnd(data, end);
        Stopped(data, d, NextTokens(data, d, done, start, end), end, end + 1, tokens, seen, stop);
      }
    }
  }

  /** The end of the line, with a visitor: what he says of the last token makes no difference. */
  method ShowLast(stop: (nat, string) -> bool, data: string, d: char, start: nat, end: nat, seen0: seq<string>,
                  ghost done: seq<Token>, ghost tokens: seq<Token>)
    returns (seen: seq<string>)
    requires start <= end && IsLineEnd(data, end) && Scan(data, d, done, start, end, WRAPS)
    requires Seen(data, done, seen0, WRAPS) && NoneStops(stop, seen0)
    requires IsTokens(data[..LineEnd(data)], d, tokens) && Fit(data, tokens)
    ensures Visited(Texts(data, tokens), stop, seen)
  {
    seen := seen0;
    ScanEnds(data, d, done, start, end);
    if start != end && data[start] != d && data[start] != NEWLINE {
      var stopped;
      seen, stopped := Show(stop, data, start, end, seen, done);
    } else {
      NoneStopsFront(stop, seen);
    }
    AllSeen(data, d, NextTokens(data, d, done, start, end), tokens, end, seen, stop);
  }

  /** Where the loop with a visitor stands. */
  ghost predicate Visiting(data: string, d: char, stop: (nat, string) -> bool, done: seq<Token>, start: nat, end: nat,
                           seen: seq<string>, wraps: nat)
    requires start <= end <= |data|
  {
    if wraps > 0 then Visiting(data, d, stop, done, start, end, seen, wraps - 1)
    else
      && Free(data, NEWLINE, 0, end) && Scan(data, d, done, start, end, WRAPS)
      && Seen(data, done, seen, WRAPS) && NoneStops(stop, seen)
  }

  lemma {:induction false} OpenVisiting(data: string, d: char, stop: (nat, string) -> bool, done: seq<Token>,
                                        start: nat, end: nat, seen: seq<string>, wraps: nat)
    requires start <= end <= |data|
    ensures Visiting(data, d, stop, done, start, end, seen, wraps) <==>
            && Free(data, NEWLINE, 0, end) && Scan(data, d, done, start, end, WRAPS)
            && Seen(data, done, seen, WRAPS) && NoneStops(stop, seen)
  {
    if wraps > 0 {
      OpenVisiting(data, d, stop, done, start, end, seen, wraps - 1);
    }
  }

  /** One turn of the loop. */
  method VisitTurn(stop: (nat, string) -> bool, data: string, d: char, start0: nat, end: nat, seen0: seq<string>,
                   ghost done0: seq<Token>, ghost tokens: seq<Token>)
    returns (seen: seq<string>, start: nat, stopped: bool, ghost done: seq<Token>)
    requires start0 <= end < |data| && data[end] != NEWLINE
    requires Visiting(data, d, stop, done0, start0, end, seen0, WRAPS)
    requires IsTokens(data[..LineEnd(data)], d, tokens) && Fit(data, tokens)
    ensures start <= end + 1
    ensures if stopped then Visited(Texts(data, tokens), stop, seen)
            else Visiting(data, d, stop, done, start, end + 1, seen, WRAPS)
  {
    OpenVisiting(data, d, stop, done0, start0, end, seen0, WRAPS);
    seen, start, stopped, done := seen0, start0, false, done0;
    if data[end] == d {
      seen, stopped := ShowBefore(stop, data, d, start, end, seen, done, tokens);
      done := NextTokens(data, d, done, start, end);
      start := end;
    } else {
      ScanOther(data, d, done, start, end);
      start := NextStart(data, d, start);
    }
    OpenVisiting(data, d, stop, done, start, end + 1, seen, WRAPS);
  }

  /** The same loop, with a visitor that may stop it. `tokens` is what `Tokenize` returns. */
  method TokenizeForeach(stop: (nat, string) -> bool, data: string, delimiter: char, ghost tokens: seq<Token>)
    returns (seen: seq<string>)
    requires Tokenized(data, delimiter, tokens)
    ensures Visited(Texts(data, tokens), stop, seen)
    ensures seen <= Texts(data, tokens) && forall k :: 0 <= k < |seen| - 1 ==> !stop(k, seen[k])
    ensures seen == Texts(data, tokens) || (seen != [] && stop(|seen| - 1, seen[|seen| - 1]))
  {
    seen := [];
    if |data| == 0 || data[0] == NUL {
      return;
    }
    ghost var done: seq<Token> := [];
    var start: nat, end: nat := 0, 0;
    OpenScan(data, delimiter, done, start, end, WRAPS);
    OpenSeen(data, done, seen, WRAPS);
    OpenVisiting(data, delimiter, stop, done, start, end, seen, WRAPS);
    while end < |data| && data[end] != NEWLINE
      invariant start <= end <= |data| && Visiting(data, delimiter, stop, done, start, end, seen, WRAPS)
    {
      var stopped;
      seen, start, stopped, done := VisitTurn(stop, data, delimiter, start, end, seen, done, tokens);
      if stopped {
        return;
      }
      end := end + 1;
    }
    OpenVisiting(data, delimiter, stop, done, start, end, seen, WRAPS);
    seen := ShowLast(stop, data, delimiter, start, end, seen, done, tokens);
  }

  lemma {:induction false} NoneStopsFront(stop: (nat, string) -> bool, seen: seq<string>)
    requires NoneStops(stop, seen)
    ensures seen != [] ==> NoneStops(stop, seen[..|seen| - 1])
  {
  }

  // ---------- joining ----------

  function Join(words: seq<string>, separator: string): string {
    if |words| == 0 then ""
    else if |words| == 1 then words[0]
    else Join(words[..|words| - 1], separator) + separator + words[|words| - 1]
  }

  class StringVector {
    /** All tokens are pieces of this string. */
    var text: string
    var tokens: seq<Token>

    ghost predicate Valid()
      reads this
    {
      Fit(text, tokens)
    }

    ghost function Words(): seq<string>
      requires Valid()
      reads this
    {
      Texts(text, tokens)
    }

    constructor (text: string, tokens: seq<Token>)
      requires Fit(text, tokens)
      ensures Valid() && this.text == text && this.tokens == tokens
    {
      this.text, this.tokens := text, tokens;
    }

    method PushBack(word: string)
      requires Valid()
      modifies this
      ensures Valid() && Words() == old(Words()) + [word]
    {
      ghost var was, before := text, tokens;
      tokens := tokens + [Token(|text|, |word|)];
      text := text + word;
      TextsGrow(was, word, before);
    }

    /** The last token to join. */
    function LastOf(lastOffset: Option<nat>): (end: int)
      reads this
      ensures lastOffset.None? ==> end == |tokens| - 1
      ensures lastOffset.Some? ==>
                && end <= lastOffset.value && end <= |tokens| - 1
                && (end == lastOffset.value || end == |tokens| - 1)
    {
      if lastOffset.Some? && lastOffset.value < |tokens| - 1 then lastOffset.value else |tokens| - 1
    }

    /** Joins the tokens from one index to another, or to the end. An empty token that lies at the
        end of the string trips an assert. */
    method Cat(separator: string, firstOffset: nat, lastOffset: Option<nat>) returns (ret: string)
      requires Valid() && forall k :: firstOffset <= k <= LastOf(lastOffset) ==> tokens[k].index < |text|
      ensures ret ==
                if firstOffset <= LastOf(lastOffset) then
                  Join(Words()[firstOffset..LastOf(lastOffset) + 1], separator)
                else ""
    {
      if firstOffset >= |tokens| || (lastOffset.Some? && firstOffset > lastOffset.value) {
        return "";
      }
      var end := LastOf(lastOffset);
      JoinedFrom(text, tokens, separator, firstOffset, end + 1);
      ret := CatRange(separator, firstOffset, end);
    }

    method CatRange(separator: string, firstOffset: nat, end: nat) returns (ret: string)
      requires Fit(text, tokens) && firstOffset <= end < |tokens|
      requires forall k :: firstOffset <= k <= end ==> tokens[k].index < |text|
      ensures ret == JoinFrom(text, tokens, separator, firstOffset, end + 1)
    {
      var i := firstOffset;
      ret := GetParam(tokens[i]);
      i := i + 1;
      while i <= end
        invariant firstOffset < i <= end + 1 && ret == JoinFrom(text, tokens, separator, firstOffset, i)
      {
        ret := ret + separator;
        ret := ret + GetParam(tokens[i]);
        i := i + 1;
      }
    }

    /** The text of a token; one that starts at the end of the string trips the assert. */
    function GetParam(t: Token): string
      requires t.index < |text| && t.End() <= |text|
      reads this
    {
      Text(text, t)
    }
  }

  function JoinFrom(text: string, tokens: seq<Token>, separator: string, from: nat, i: nat): string
    requires from < i <= |tokens| && Fit(text, tokens)
  {
    if i == from + 1 then Text(text, tokens[from])
    else JoinFrom(text, tokens, separator, from, i - 1) + separator + Text(text, tokens[i - 1])
  }

  lemma {:induction false} JoinedFrom(text: string, tokens: seq<Token>, separator: string, from: nat, i: nat)
    requires from < i <= |tokens| && Fit(text, tokens)
    ensures Join(Texts(text, tokens)[from..i], separator) == JoinFrom(text, tokens, separator, from, i)
  {
    TextsAt(text, tokens, i - 1);
    if i == from + 1 {
      JoinGrows(Texts(text, tokens), separator, from, i, Text(text, tokens[from]));
    } else {
      JoinedFrom(text, tokens, separator, from, i - 1);
      JoinGrows(Texts(text, tokens), separator, from, i, Text(text, tokens[i - 1]));
    }
  }

  lemma {:induction false} JoinGrows(words: seq<string>, separator: string, from: nat, i: nat, w: string)
    requires from < i <= |words| && words[i - 1] == w
    ensures Join(words[from..i], separator) ==
              if i == from + 1 then w else Join(words[from..i - 1], separator) + separator + w
  {
    if i == from + 1 {
      assert words[from..i] == [w];
    } else {
      SliceSnoc(words, from, i - 1);
      JoinSnoc(words[from..i - 1], separator, w);
    }
  }

  lemma {:induction false} JoinSnoc(words: seq<string>, separator: string, w: string)
    requires words != []
    ensures Join(words + [w], separator) == Join(words, separator) + separator + w
  {
    Parts(words, [w]);
  }

  lemma {:induction false} TextsGrow(text: string, word: string, tokens: seq<Token>)
    requires Fit(text, tokens)
    ensures Fit(text + word, tokens + [Token(|text|, |word|)])
    ensures Texts(text + word, tokens + [Token(|text|, |word|)]) == Texts(text, tokens) + [word]
  {
    TextsWiden(text, word, tokens);
    Parts(tokens, [Token(|text|, |word|)]);
    assert (text + word)[|text|..|text| + |word|] == word;
  }

  // ---------- joining and cutting again ----------

  /** What a token can be: not empty, on one line and without the delimiter. */
  ghost predicate IsWord(w: string, d: char) {
    w != [] && Free(w, d, 0, |w|) && Free(w, NEWLINE, 0, |w|)
  }

  ghost predicate AreWords(words: seq<string>, d: char) {
    forall k :: 0 <= k < |words| ==> IsWord(words[k], d)
  }

  /** Where the words lie once they are joined. */
  function Positions(words: seq<string>, d: char): seq<Token> {
    if |words| == 0 then []
    else if |words| == 1 then [Token(0, |words[0]|)]
    else Positions(words[..|words| - 1], d) + [Token(|Join(words[..|words| - 1], [d])| + 1, |words[|words| - 1]|)]
  }

  lemma {:induction false} FrontWords(words: seq<string>, d: char)
    requires AreWords(words, d) && words != []
    ensures AreWords(words[..|words| - 1], d) && IsWord(words[|words| - 1], d)
  {
  }

  lemma {:induction false} RunsExtend(line: string, more: string, d: char, tokens: seq<Token>)
    requires AllRuns(line, |line|, d, tokens) && more != [] && more[0] == d
    ensures AllRuns(line + more, |line + more|, d, tokens)
  {
    if tokens != [] {
      RunsExtend(line, more, d, tokens[..|tokens| - 1]);
      var t := tokens[|tokens| - 1];
      assert Free(line + more, d, t.index, t.End());
    }
  }

  lemma {:induction false} CoveredExtends(line: string, more: string, d: char, tokens: seq<Token>, n: nat)
    requires n <= |line| && AllCovered(line, d, tokens, n)
    ensures AllCovered(line + more, d, tokens, n)
  {
    if n > 0 {
      CoveredExtends(line, more, d, tokens, n - 1);
    }
  }

  lemma {:induction false} RunsEnd(line: string, n: nat, d: char, tokens: seq<Token>)
    requires n <= |line| && AllRuns(line, n, d, tokens)
    ensures AllEndBefore(tokens, n)
  {
    if tokens != [] {
      RunsEnd(line, n, d, tokens[..|tokens| - 1]);
    }
  }

  /** One more word behind a line. */
  lemma {:induction false} OneMoreWord(line: string, w: string, d: char, tokens: seq<Token>)
    requires IsTokens(line, d, tokens) && IsWord(w, d)
    ensures IsTokens(line + [d] + w, d, tokens + [Token(|line| + 1, |w|)])
  {
    var whole, t := line + [d] + w, Token(|line| + 1, |w|);
    Assoc(line, [d], w);
    RunsExtend(line, [d] + w, d, tokens);
    CoveredExtends(line, [d] + w, d, tokens, |line|);
    RunsEnd(line, |line|, d, tokens);
    EndBeforeLater(tokens, |line|, |line| + 1);
    Parts(tokens, [t]);
    assert Free(whole, d, t.index, t.End()) by {
      forall i | t.index <= i < t.End() ensures whole[i] != d {
        assert whole[i] == w[i - t.index];
      }
    }
    CoversOwn(whole, d, tokens, t, |whole|);
  }

  lemma {:induction false} FirstWord(w: string, d: char)
    requires IsWord(w, d)
    ensures IsTokens(w, d, [Token(0, |w|)])
  {
    var t := Token(0, |w|);
    CoversOwn(w, d, [], t, |w|);
    assert [t][..0] == [] && [] + [t] == [t];
  }

  /** The words of a joined line are its tokens. */
  lemma {:induction false} JoinedTokens(words: seq<string>, d: char)
    requires AreWords(words, d)
    ensures IsTokens(Join(words, [d]), d, Positions(words, d))
  {
    if words != [] {
      FrontWords(words, d);
    }
    if |words| == 1 {
      FirstWord(words[0], d);
    } else if |words| > 1 {
      JoinedTokens(words[..|words| - 1], d);
      OneMoreWord(Join(words[..|words| - 1], [d]), words[|words| - 1], d, Positions(words[..|words| - 1], d));
    }
  }

  lemma {:induction false} JoinedTexts(words: seq<string>, d: char)
    ensures Fit(Join(words, [d]), Positions(words, d)) && Texts(Join(words, [d]), Positions(words, d)) == words
  {
    if |words| == 1 {
      OneText(words[0]);
      assert words == [words[0]];
    } else if |words| > 1 {
      var front, w := words[..|words| - 1], words[|words| - 1];
      JoinedTexts(front, d);
      TextsWiden(Join(front, [d]), [d], Positions(front, d));
      TextsGrow(Join(front, [d]) + [d], w, Positions(front, d));
      FrontLast(words);
    }
  }

  lemma {:induction false} OneText(w: string)
    ensures Fit(w, [Token(0, |w|)]) && Texts(w, [Token(0, |w|)]) == [w]
  {
    TextsGrow("", w, []);
    assert "" + w == w && [] + [Token(0, |w|)] == [Token(0, |w|)] && [] + [w] == [w];
  }

  lemma {:induction false} TextsWiden(text: string, more: string, tokens: seq<Token>)
    requires Fit(text, tokens)
    ensures Fit(text + more, tokens) && Texts(text + more, tokens) == Texts(text, tokens)
  {
    if tokens != [] {
      var t := tokens[|tokens| - 1];
      TextsWiden(text, more, tokens[..|tokens| - 1]);
      SliceOfPrefix(text, more, t.index, t.End());
    }
  }

  lemma {:induction false} JoinStarts(words: seq<string>, d: char)
    requires |words| > 0
    ensures words[0] <= Join(words, [d])
    ensures |words| > 1 ==> |words[0]| < |Join(words, [d])| && Join(words, [d])[|words[0]|] == d
  {
    if |words| > 1 {
      JoinStarts(words[..|words| - 1], d);
    }
  }

  lemma {:induction false} JoinOnOneLine(words: seq<string>, d: char)
    requires AreWords(words, d) && (d != NEWLINE || |words| <= 1)
    ensures Free(Join(words, [d]), NEWLINE, 0, |Join(words, [d])|)
  {
    if words != [] {
      FrontWords(words, d);
    }
    if |words| > 1 {
      JoinOnOneLine(words[..|words| - 1], d);
    }
  }

  /** Joining words with the delimiter and cutting the result again gives back the words, if and
      only if the first does not start with NUL and the delimiter does not end the line. */
  lemma {:induction false} CatThenTokenize(words: seq<string>, d: char, tokens: seq<Token>)
    requires AreWords(words, d) && Tokenized(Join(words, [d]), d, tokens)
    ensures Texts(Join(words, [d]), tokens) == words <==>
            words == [] || (words[0][0] != NUL && (d != NEWLINE || |words| == 1))
  {
    var data := Join(words, [d]);
    if words != [] {
      assert IsWord(words[0], d);
      JoinStarts(words, d);
      assert data[0] == words[0][0];
      if words[0][0] != NUL {
        if d != NEWLINE || |words| == 1 {
          JoinOnOneLine(words, d);
          OneLineEnd(data, LineEnd(data), |data|);
          assert data[..|data|] == data;
          JoinedTokens(words, d);
          JoinedTexts(words, d);
          TokensAreUnique(data, d, tokens, Positions(words, d));
        } else {
          var n := |words[0]|;
          assert data[..n] == words[0];
          assert Free(data, NEWLINE, 0, n);
          OneLineEnd(data, LineEnd(data), n);
          FirstWord(words[0], d);
          TokensAreUnique(words[0], d, tokens, [Token(0, n)]);
        }
      }
    }
  }

  lemma {:induction false} RunIsWord(data: string, d: char, n: nat, t: Token)
    requires IsLineEnd(data, n) && IsRun(data[..n], n, d, t)
    ensures IsWord(Text(data, t), d)
  {
    forall i | 0 <= i < t.length ensures Text(data, t)[i] != d && Text(data, t)[i] != NEWLINE {
      assert Text(data, t)[i] == data[t.index + i] == data[..n][t.index + i];
    }
  }

  /** The tokens of any data are words; with newline as the delimiter there is one at most. */
  lemma {:induction false} TokensAreWords(data: string, d: char, tokens: seq<Token>)
    requires Tokenized(data, d, tokens)
    ensures AreWords(Texts(data, tokens), d) && (d == NEWLINE ==> |tokens| <= 1)
  {
    if data != [] && data[0] != NUL {
      var n := LineEnd(data);
      var line := data[..n];
      forall k | 0 <= k < |tokens| ensures IsWord(Texts(data, tokens)[k], d) {
        RunAt(line, n, d, tokens, k);
        RunIsWord(data, d, n, tokens[k]);
        TextsAt(data, tokens, k);
      }
      if d == NEWLINE && |tokens| > 1 {
        RunAt(line, n, d, tokens, 1);
        RunAt(line, n, d, tokens, 0);
        InOrder(tokens, 0, 1);
      }
    }
  }

  /** The first character of the first line that is no delimiter is NUL, but the data does not
      start with it. */
  predicate StartsWithNulToken(data: string, d: char) {
    && data != [] && data[0] != NUL && d != NUL
    && exists k :: 0 <= k < LineEnd(data) && data[k] == NUL && forall i :: 0 <= i < k ==> data[i] == d
  }

  /** The first token starts with the first character of the line that is no delimiter. */
  lemma {:induction false} FirstTokenAt(line: string, d: char, tokens: seq<Token>, k: nat)
    requires IsTokens(line, d, tokens) && k < |line| && line[k] != d && forall i :: 0 <= i < k ==> line[i] == d
    ensures tokens != [] && tokens[0].index == k
  {
    CoveredAt(line, d, tokens, |line|, k);
    var m := CoveringToken(tokens, k);
    RunAt(line, |line|, d, tokens, m);
    RunAt(line, |line|, d, tokens, 0);
    assert line[tokens[m].index] != d && line[tokens[0].index] != d;
    if m > 0 {
      InOrder(tokens, 0, m);
    }
  }

  lemma {:induction false} BeforeFirstToken(line: string, d: char, tokens: seq<Token>, i: nat)
    requires IsTokens(line, d, tokens) && tokens != [] && i < tokens[0].index <= |line|
    ensures line[i] == d
  {
    if line[i] != d {
      CoveredAt(line, d, tokens, |line|, i);
      var m := CoveringToken(tokens, i);
      if m > 0 {
        InOrder(tokens, 0, m);
      }
    }
  }

  /** Whether the first token starts with NUL, by the data alone. */
  lemma {:induction false} NulTokenIff(data: string, d: char, tokens: seq<Token>)
    requires Tokenized(data, d, tokens)
    ensures tokens != [] && [NUL] <= Texts(data, tokens)[0] <==> StartsWithNulToken(data, d)
  {
    if data != [] && data[0] != NUL {
      var line := data[..LineEnd(data)];
      if tokens != [] {
        RunAt(line, |line|, d, tokens, 0);
        var k := tokens[0].index;
        forall i | 0 <= i < k ensures data[i] == d {
          BeforeFirstToken(line, d, tokens, i);
        }
        TextsAt(data, tokens, 0);
        assert line[k] == data[k] == Text(data, tokens[0])[0];
      }
      if StartsWithNulToken(data, d) {
        var k :| 0 <= k < LineEnd(data) && data[k] == NUL && forall i :: 0 <= i < k ==> data[i] == d;
        assert line[k] == NUL;
        FirstTokenAt(line, d, tokens, k);
        TextsAt(data, tokens, 0);
      }
    }
  }

  /** Cutting, joining with the same delimiter and cutting again gives the same tokens, unless the
      first character of the first line that is no delimiter is NUL and the data starts with a
      delimiter: then, and only then, they are not found again. */
  lemma {:induction false} RetokenizeIff(data: string, d: char, tokens: seq<Token>, again: seq<Token>)
    requires Tokenized(data, d, tokens) && Tokenized(Join(Texts(data, tokens), [d]), d, again)
    ensures Texts(Join(Texts(data, tokens), [d]), again) == Texts(data, tokens) <==> !StartsWithNulToken(data, d)
  {
    TokensAreWords(data, d, tokens);
    NulTokenIff(data, d, tokens);
    CatThenTokenize(Texts(data, tokens), d, again);
    assert tokens != [] ==> IsWord(Texts(data, tokens)[0], d);
  }

  lemma {:induction false} SpaceThenNul(tokens: seq<Token>)
    requires Tokenized([' ', NUL], ' ', tokens)
    ensures tokens == [Token(1, 1)]
  {
    var data, t := [' ', NUL], Token(1, 1);
    OneLineEnd(data, LineEnd(data), 2);
    assert data[..2] == data;
    CoversOwn(data, ' ', [], t, 2);
    Parts([], [t]);
    assert [] + [t] == [t];
    TokensAreUnique(data, ' ', tokens, [t]);
  }

  /** A space and NUL: one token is found, and none when it is cut again. */
  lemma {:induction false} RetokenizeLoses(tokens: seq<Token>, again: seq<Token>)
    requires Tokenized([' ', NUL], ' ', tokens) && Tokenized(Join(Texts([' ', NUL], tokens), [' ']), ' ', again)
    ensures Texts([' ', NUL], tokens) == [[NUL]] && again == []
  {
    SpaceThenNul(tokens);
    assert Text([' ', NUL], Token(1, 1)) == [NUL];
    assert Texts([' ', NUL], tokens) == [[NUL]];
  }
}

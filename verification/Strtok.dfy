/** The stateful tokenizer: it cuts the caller's buffer with NULs and keeps a
    pointer to the rest between calls. */
module Strtok {
  import opened CString
  import opened Wrappers

  /** First delimiter from position i on, or the end. */
  function Stop(s: string, delim: set<char>, i: nat): (j: nat)
    requires i <= |s|
    ensures i <= j <= |s| && (i < |s| && s[i] !in delim ==> i < j)
    decreases |s| - i
  {
    if i == |s| || s[i] in delim then i else Stop(s, delim, i + 1)
  }

  /** First position from i on that is not a delimiter, or the end. */
  function Begin(s: string, delim: set<char>, i: nat): (j: nat)
    requires i <= |s|
    ensures i <= j <= |s| && (j < |s| ==> s[j] !in delim)
    decreases |s| - i
  {
    if i == |s| || s[i] !in delim then i else Begin(s, delim, i + 1)
  }

  lemma {:induction false} StopFacts(s: string, delim: set<char>, i: nat)
    requires i <= |s|
    ensures var j := Stop(s, delim, i);
      (forall k :: i <= k < j ==> s[k] !in delim) && (j < |s| ==> s[j] in delim)
    decreases |s| - i
  {
    if i < |s| && s[i] !in delim { StopFacts(s, delim, i + 1); }
  }

  lemma {:induction false} BeginFacts(s: string, delim: set<char>, i: nat)
    requires i <= |s|
    ensures forall k :: i <= k < Begin(s, delim, i) ==> s[k] in delim
    decreases |s| - i
  {
    if i < |s| && s[i] in delim { BeginFacts(s, delim, i + 1); }
  }

  /** The tokens from position i on, each as its start and end. */
  function Places(s: string, delim: set<char>, i: nat): seq<(nat, nat)>
    requires i <= |s|
    decreases |s| - i
  {
    var a := Begin(s, delim, i);
    if a == |s| then [] else
      var b := Stop(s, delim, a);
      [(a, b)] + Places(s, delim, b)
  }

  /** Where a substring can stand as a token: it is free of delimiters, not
      empty, and cannot be extended on either side. */
  predicate Maximal(s: string, delim: set<char>, i: int, j: int) {
    && 0 <= i < j <= |s|
    && (forall k :: i <= k < j ==> s[k] !in delim)
    && (i > 0 ==> s[i - 1] in delim)
    && (j < |s| ==> s[j] in delim)
  }

  /** A place where scanning may resume. */
  predicate Boundary(s: string, delim: set<char>, i: nat) {
    i <= |s| && (i == 0 || i == |s| || s[i] in delim || s[i - 1] in delim)
  }

  /** Every token is a maximal delimiter-free substring, and they come in order ... */
  lemma {:induction false} TokensAreMaximal(s: string, delim: set<char>, i: nat, k: nat)
    requires Boundary(s, delim, i) && k < |Places(s, delim, i)|
    ensures var p := Places(s, delim, i)[k]; i <= p.0 && Maximal(s, delim, p.0, p.1)
    ensures k > 0 ==> Places(s, delim, i)[k - 1].1 < Places(s, delim, i)[k].0
    decreases |s| - i
  {
    var a := Begin(s, delim, i);
    var b := Stop(s, delim, a);
    BeginFacts(s, delim, i);
    StopFacts(s, delim, a);
    if k > 0 {
      TokensAreMaximal(s, delim, b, k - 1);
    }
  }

  /** ... and every maximal delimiter-free substring is a token. */
  lemma {:induction false} MaximalIsToken(s: string, delim: set<char>, i: nat, x: nat, y: nat) returns (k: nat)
    requires i <= x && Maximal(s, delim, x, y)
    ensures k < |Places(s, delim, i)| && Places(s, delim, i)[k] == (x, y)
    decreases |s| - i
  {
    var a := Begin(s, delim, i);
    var b := Stop(s, delim, a);
    BeginFacts(s, delim, i);
    StopFacts(s, delim, a);
    assert s[x] !in delim;
    if a == x {
      assert b == y;
      k := 0;
    } else {
      assert s[a] !in delim && s[x - 1] in delim;
      assert b < x;
      k := MaximalIsToken(s, delim, b, x, y);
      k := k + 1;
    }
  }

  /** The tokens themselves from position i on. */
  function TokensFrom(s: string, delim: set<char>, i: nat): seq<string>
    requires i <= |s|
    decreases |s| - i
  {
    var a := Begin(s, delim, i);
    if a == |s| then [] else
      var b := Stop(s, delim, a);
      [s[a..b]] + TokensFrom(s, delim, b)
  }

  function Tokens(s: string, delim: set<char>): seq<string> {
    TokensFrom(s, delim, 0)
  }

  lemma {:induction false} TokenText(s: string, delim: set<char>, i: nat, k: nat)
    requires i <= |s| && k < |TokensFrom(s, delim, i)|
    ensures k < |Places(s, delim, i)|
    ensures var p := Places(s, delim, i)[k]; p.0 <= p.1 <= |s| && TokensFrom(s, delim, i)[k] == s[p.0..p.1]
    decreases |s| - i
  {
    if k > 0 {
      TokenText(s, delim, Stop(s, delim, Begin(s, delim, i)), k - 1);
    }
  }

  lemma {:induction false} AsMany(s: string, delim: set<char>, i: nat)
    requires i <= |s|
    ensures |TokensFrom(s, delim, i)| == |Places(s, delim, i)|
    decreases |s| - i
  {
    var a := Begin(s, delim, i);
    if a < |s| { AsMany(s, delim, Stop(s, delim, a)); }
  }

  /** Where the first token stands. */
  function First(s: string, delim: set<char>): (p: (nat, nat))
    requires Tokens(s, delim) != []
    ensures p.0 < p.1 <= |s| && Tokens(s, delim)[0] == s[p.0..p.1] && p == Places(s, delim, 0)[0]
  {
    (Begin(s, delim, 0), Stop(s, delim, Begin(s, delim, 0)))
  }

  /** What is left behind a cut at position j. */
  function Behind(s: string, j: nat): string
    requires j <= |s|
  {
    if j < |s| then s[j + 1..] else ""
  }

  /** r is s without its first n characters. */
  predicate Drops(s: string, n: nat, r: string) {
    |s| == n + |r| && forall k :: 0 <= k < |r| ==> r[k] == s[n + k]
  }

  lemma {:induction false} StopShifts(s: string, delim: set<char>, n: nat, r: string, i: nat)
    requires Drops(s, n, r) && i <= |r|
    ensures Stop(s, delim, n + i) == n + Stop(r, delim, i)
    decreases |r| - i
  {
    if i < |r| && r[i] !in delim { StopShifts(s, delim, n, r, i + 1); }
  }

  lemma {:induction false} BeginShifts(s: string, delim: set<char>, n: nat, r: string, i: nat)
    requires Drops(s, n, r) && i <= |r|
    ensures Begin(s, delim, n + i) == n + Begin(r, delim, i)
    decreases |r| - i
  {
    if i < |r| && r[i] in delim { BeginShifts(s, delim, n, r, i + 1); }
  }

  lemma SliceShifts(s: string, n: nat, r: string, a: nat, b: nat)
    requires Drops(s, n, r) && a <= b <= |r|
    ensures r[a..b] == s[n + a..n + b]
  {
  }

  /** Dropping a prefix leaves the tokens behind it. */
  lemma {:induction false} TokensShift(s: string, delim: set<char>, n: nat, r: string, i: nat)
    requires Drops(s, n, r) && i <= |r|
    ensures TokensFrom(s, delim, n + i) == TokensFrom(r, delim, i)
    decreases |r| - i
  {
    BeginShifts(s, delim, n, r, i);
    var a := Begin(r, delim, i);
    if a < |r| {
      StopShifts(s, delim, n, r, a);
      var b := Stop(r, delim, a);
      TokensShift(s, delim, n, r, b);
      SliceShifts(s, n, r, a, b);
    }
  }

  lemma TokensStep(s: string, delim: set<char>, i: nat)
    requires i < |s| && s[i] in delim
    ensures TokensFrom(s, delim, i) == TokensFrom(s, delim, i + 1)
  {
  }

  lemma RestOfTokens(s: string, delim: set<char>)
    requires Tokens(s, delim) != []
    ensures Tokens(s, delim)[1..] == TokensFrom(s, delim, First(s, delim).1)
  {
  }

  lemma TokensAfter(s: string, delim: set<char>, j: nat, r: string)
    requires j < |s| && s[j] in delim && Drops(s, j + 1, r)
    ensures TokensFrom(r, delim, 0) == TokensFrom(s, delim, j)
  {
    TokensShift(s, delim, j + 1, r, 0);
    TokensStep(s, delim, j);
  }

  /** Behind the first token lie all the others. */
  lemma TokensBehind(s: string, delim: set<char>)
    requires Tokens(s, delim) != []
    ensures Tokens(Behind(s, First(s, delim).1), delim) == Tokens(s, delim)[1..]
  {
    RestOfTokens(s, delim);
    StopFacts(s, delim, First(s, delim).0);
    var j := First(s, delim).1;
    if j < |s| { TokensAfter(s, delim, j, s[j + 1..]); }
  }

  lemma {:induction false} BeginUnique(s: string, delim: set<char>, i: nat, j: nat)
    requires i <= j <= |s| && (forall k :: i <= k < j ==> s[k] in delim) && (j < |s| ==> s[j] !in delim)
    ensures Begin(s, delim, i) == j
    decreases j - i
  {
    if i < j { BeginUnique(s, delim, i + 1, j); }
  }

  lemma {:induction false} StopUnique(s: string, delim: set<char>, i: nat, j: nat)
    requires i <= j <= |s| && (forall k :: i <= k < j ==> s[k] !in delim) && (j < |s| ==> s[j] in delim)
    ensures Stop(s, delim, i) == j
    decreases j - i
  {
    if i < j { StopUnique(s, delim, i + 1, j); }
  }

  /** Skipping delimiters and then a token's characters finds the first token, or none. */
  lemma FirstToken(s: string, delim: set<char>, i: nat, j: nat)
    requires i <= j <= |s|
    requires (forall k :: 0 <= k < i ==> s[k] in delim) && (i < |s| ==> s[i] !in delim)
    requires (forall k :: i <= k < j ==> s[k] !in delim) && (j < |s| ==> s[j] in delim)
    ensures Tokens(s, delim) == [] <==> i == |s|
    ensures i < |s| ==> First(s, delim) == (i, j)
  {
    BeginUnique(s, delim, 0, i);
    StopUnique(s, delim, i, j);
  }

  /* ---- strtok on a buffer ---- */

  /** The C string s stands at position p of a buffer. */
  predicate Stands(b: seq<char>, p: nat, s: string) {
    && p + |s| < |b| && b[p + |s|] == NUL
    && forall k :: 0 <= k < |s| ==> b[p + k] == s[k] && s[k] != NUL
  }

  /** A pointer to the string s: position p of a buffer, or NULL if negative. */
  predicate Points(b: seq<char>, p: int, s: string) {
    if p < 0 then p == -1 && s == "" else Stands(b, p, s)
  }

  /** A buffer with a NUL written at position i, where wanted. */
  function Cut(b: seq<char>, i: nat, wanted: bool): seq<char>
    requires i < |b|
  {
    if wanted then b[i := NUL] else b
  }

  /** One call of strtok on the string s at `base`: it returns the place of the
      first token, or NULL, leaves the buffer as `after` and saves a pointer. */
  predicate Splits(b: seq<char>, base: int, s: string, delim: set<char>,
                   token: Option<nat>, after: seq<char>, saved: int)
    requires Points(b, base, s)
  {
    if Tokens(s, delim) == [] then token == None && after == b && saved == -1
    else
      var p := First(s, delim);
      && token == Some(base + p.0)
      && after == Cut(b, base + p.1, p.1 < |s|)
      && saved == if p.1 < |s| then base + p.1 + 1 else -1
  }

  /** What a call leaves to be split. */
  function Left(s: string, delim: set<char>): (r: string)
    ensures |r| <= |s| && (Tokens(s, delim) != [] ==> |r| < |s|)
  {
    if Tokens(s, delim) == [] then "" else Behind(s, First(s, delim).1)
  }

  /** Cutting a string behind position j leaves one string up to the cut and one
      behind it. */
  lemma CutStands(b: seq<char>, p: nat, s: string, i: nat, j: nat)
    requires Stands(b, p, s) && i < j <= |s|
    ensures var after := Cut(b, p + j, j < |s|);
      Stands(after, p + i, s[i..j]) && (j < |s| ==> Stands(after, p + j + 1, s[j + 1..]))
  {
  }

  lemma LeftTokens(s: string, delim: set<char>)
    requires Tokens(s, delim) != []
    ensures Tokens(Left(s, delim), delim) == Tokens(s, delim)[1..]
  {
    TokensBehind(s, delim);
  }

  lemma CutPoints(b: seq<char>, base: nat, s: string, i: nat, j: nat, after: seq<char>, saved: int)
    requires Stands(b, base, s) && i < j <= |s|
    requires after == Cut(b, base + j, j < |s|) && saved == if j < |s| then base + j + 1 else -1
    ensures Stands(after, base + i, s[i..j]) && Points(after, saved, Behind(s, j))
  {
    CutStands(b, base, s, i, j);
  }

  /** Such a call delivers the first token as a C string, and what it saves points
      to a string that holds exactly the other tokens. */
  lemma SplitsFirst(b: seq<char>, base: int, s: string, delim: set<char>,
                    token: Option<nat>, after: seq<char>, saved: int)
    requires Points(b, base, s) && Splits(b, base, s, delim, token, after, saved)
    ensures Points(after, saved, Left(s, delim))
    ensures token.None? <==> Tokens(s, delim) == []
    ensures token.Some? ==> Stands(after, token.value, Tokens(s, delim)[0])
    ensures token.Some? ==> Tokens(Left(s, delim), delim) == Tokens(s, delim)[1..]
  {
    if token.Some? {
      var p := First(s, delim);
      CutPoints(b, base, s, p.0, p.1, after, saved);
      LeftTokens(s, delim);
    }
  }

  /** The two scans find the first token. */
  lemma Found(b: seq<char>, base: nat, s: string, delim: set<char>, i: nat, j: nat, after: seq<char>, saved: int)
    requires Stands(b, base, s) && i < j <= |s|
    requires forall k :: 0 <= k < i ==> s[k] in delim
    requires (forall k :: i <= k < j ==> s[k] !in delim) && (j < |s| ==> s[j] in delim)
    requires after == Cut(b, base + j, j < |s|) && saved == if j < |s| then base + j + 1 else -1
    ensures Splits(b, base, s, delim, Some(base + i), after, saved)
    ensures Points(after, saved, Left(s, delim))
  {
    FirstToken(s, delim, i, j);
    SplitsFirst(b, base, s, delim, Some(base + i), after, saved);
  }

  /** The first scan finds nothing but delimiters. */
  lemma NoneFound(b: seq<char>, base: nat, s: string, delim: set<char>)
    requires Stands(b, base, s) && forall k :: 0 <= k < |s| ==> s[k] in delim
    ensures Splits(b, base, s, delim, None, b, -1) && Left(s, delim) == ""
  {
    FirstToken(s, delim, |s|, |s|);
  }

  function Chars(s: string): set<char> {
    set c | c in s
  }

  predicate Bytes(s: seq<char>) {
    forall i :: 0 <= i < |s| ==> s[i] as int < 256
  }

  predicate Table(table: array<bool>, delim: string)
    reads table
  {
    table.Length == 256 && forall c: char :: c as int < 256 ==> table[c as int] == (c in delim)
  }

  /** The table of delimiters by byte. */
  method DelimMap(delim: string) returns (table: array<bool>)
    requires Bytes(delim)
    ensures fresh(table) && Table(table, delim)
  {
    table := new bool[256](_ => false);
    for i := 0 to |delim|
      invariant Table(table, delim[..i])
    {
      table[delim[i] as int] := true;
      assert delim[..i + 1] == delim[..i] + [delim[i]];
    }
    assert delim[..|delim|] == delim;
  }

  /** Step over leading delimiters of the string s standing at `start`. */
  method Skip(b: array<char>, start: nat, ghost s: string, table: array<bool>, ghost delim: string) returns (i: nat)
    requires Stands(b[..], start, s) && Bytes(b[..]) && Table(table, delim) && NUL !in delim
    ensures start <= i <= start + |s| && (i == start + |s| <==> b[i] == NUL)
    ensures (forall k :: 0 <= k < i - start ==> s[k] in delim) && (i < start + |s| ==> s[i - start] !in delim)
  {
    i := start;
    while b[i] != NUL && table[b[i] as int]
      invariant start <= i <= start + |s|
      invariant forall k :: 0 <= k < i - start ==> s[k] in delim
      decreases start + |s| - i
    {
      assert b[i] == s[i - start];
      i := i + 1;
    }
    if i < start + |s| { assert b[i] == s[i - start]; }
  }

  /** Step over a token of s to the delimiter or the end behind it. */
  method Cross(b: array<char>, base: nat, start: nat, ghost s: string, table: array<bool>, ghost delim: string)
      returns (i: nat)
    requires Stands(b[..], base, s) && Bytes(b[..]) && Table(table, delim) && base <= start <= base + |s|
    ensures start <= i <= base + |s| && (i == base + |s| <==> b[i] == NUL)
    ensures (forall k :: start - base <= k < i - base ==> s[k] !in delim) && (i < base + |s| ==> s[i - base] in delim)
  {
    i := start;
    while b[i] != NUL && !table[b[i] as int]
      invariant start <= i <= base + |s|
      invariant forall k :: start - base <= k < i - base ==> s[k] !in delim
      decreases base + |s| - i
    {
      assert b[i] == s[i - base];
      i := i + 1;
    }
    if i < base + |s| { assert b[i] == s[i - base]; }
  }

  class Tokenizer {
    /** The saved pointer: position `saved` of `buf`, or NULL if negative. */
    var buf: array<char>
    var saved: int
    /** The string at the saved pointer. */
    ghost var rest: string

    constructor ()
      ensures Valid() && rest == ""
    {
      buf := new char[0];
      saved, rest := -1, "";
    }

    ghost predicate Valid()
      reads this, buf
    {
      Points(buf[..], saved, rest) && (saved >= 0 ==> Bytes(buf[..]))
    }

    /** strtok: split off the next token of the string `text` at position `start` of
        str, or of the rest where str is NULL. */
    method Strtok(str: array?<char>, start: nat, ghost text: string, delim: string) returns (token: Option<nat>)
      requires Valid() && Bytes(delim) && NUL !in delim
      requires str != null ==> Stands(str[..], start, text) && Bytes(str[..])
      modifies this, if str == null then buf else str
      ensures Valid() && buf == if str == null then old(buf) else str
      ensures rest == Left(if str == null then old(rest) else text, Chars(delim))
      ensures str == null ==> Splits(old(buf[..]), old(saved), old(rest), Chars(delim), token, buf[..], saved)
      ensures str != null ==> Splits(old(str[..]), start, text, Chars(delim), token, buf[..], saved)
    {
      var table := DelimMap(delim);
      if str != null {
        buf, saved, rest := str, start, text;
      }
      if saved < 0 {
        return None;
      }
      token := SplitAt(delim, table);
    }

    /** End the token at position i, and save the pointer behind it; NULL at the
        string's end. */
    method CutAt(i: nat)
      requires i < buf.Length
      modifies this`saved, buf
      ensures buf[..] == Cut(old(buf[..]), i, old(buf[i]) != NUL) && (old(Bytes(buf[..])) ==> Bytes(buf[..]))
      ensures saved == if old(buf[i]) != NUL then i + 1 else -1
    {
      if buf[i] != NUL {
        buf[i] := NUL;
        saved := i + 1;
        assert buf[..] == old(buf[..])[i := NUL];
      } else {
        saved := -1;
      }
    }

    /** The work of strtok on the string at the saved pointer. */
    method SplitAt(ghost delim: string, table: array<bool>) returns (token: Option<nat>)
      requires Valid() && saved >= 0 && NUL !in delim && Table(table, delim)
      modifies this`saved, this`rest, buf
      ensures Valid() && rest == Left(old(rest), Chars(delim))
      ensures Splits(old(buf[..]), old(saved), old(rest), Chars(delim), token, buf[..], saved)
    {
      hide Splits, Left, Tokens, Cut, Table;
      ghost var b, base, s := buf[..], saved, rest;
      var start := Skip(buf, saved, s, table, delim);
      if buf[start] == NUL {
        saved, rest := -1, "";
        NoneFound(b, base, s, Chars(delim));
        return None;
      }
      var i := Cross(buf, saved, start, s, table, delim);
      token := Some(start);
      CutAt(i);
      Found(b, base, s, Chars(delim), start - base, i - base, buf[..], saved);
      rest := Left(s, Chars(delim));
    }
  }

  /* ---- all the calls on one line ---- */

  /** The string w stands in front of the saved pointer, out of reach of later cuts. */
  predicate Before(b: seq<char>, q: nat, w: string, saved: int) {
    Stands(b, q, w) && (saved >= 0 ==> q + |w| < saved)
  }

  /** These places hold the first strings of a list, out of reach of later cuts. */
  predicate DoneBefore(b: seq<char>, saved: int, all: seq<string>, tokens: seq<nat>) {
    |tokens| <= |all| && forall k :: 0 <= k < |tokens| ==> Before(b, tokens[k], all[k], saved)
  }

  /** The m-th token is the next, if there is one, and the rest holds those behind it. */
  predicate IsNext(b: seq<char>, saved: int, rest: string, delim: set<char>,
                   all: seq<string>, m: nat, token: Option<nat>) {
    match token
    case None => m == |all|
    case Some(q) => m < |all| && Before(b, q, all[m], saved) && Tokens(rest, delim) == all[m + 1..]
  }

  /** So many calls on: `tokens` are done, `token` is the next. */
  predicate Progress(b: seq<char>, saved: int, rest: string, delim: set<char>,
                     all: seq<string>, tokens: seq<nat>, token: Option<nat>) {
    Points(b, saved, rest) && DoneBefore(b, saved, all, tokens) && IsNext(b, saved, rest, delim, all, |tokens|, token)
  }

  /** The token a call returns stands before what it saves. */
  lemma TokenBefore(b: seq<char>, base: int, s: string, delim: set<char>,
                    token: Option<nat>, after: seq<char>, saved: int)
    requires Points(b, base, s) && Splits(b, base, s, delim, token, after, saved) && token.Some?
    ensures Before(after, token.value, Tokens(s, delim)[0], saved)
  {
    SplitsFirst(b, base, s, delim, token, after, saved);
  }

  /** A call leaves what stands before its string alone. */
  lemma StaysBefore(b: seq<char>, base: int, s: string, delim: set<char>,
                    token: Option<nat>, after: seq<char>, saved: int, q: nat, w: string)
    requires Points(b, base, s) && Splits(b, base, s, delim, token, after, saved) && Before(b, q, w, base)
    ensures Before(after, q, w, saved)
  {
  }

  lemma ProgressStarts(b: seq<char>, base: nat, s: string, delim: set<char>,
                       token: Option<nat>, after: seq<char>, saved: int)
    requires Stands(b, base, s) && Splits(b, base, s, delim, token, after, saved)
    ensures Progress(after, saved, Left(s, delim), delim, Tokens(s, delim), [], token)
  {
    SplitsFirst(b, base, s, delim, token, after, saved);
    if token.Some? { TokenBefore(b, base, s, delim, token, after, saved); }
  }

  lemma DoneGrows(b: seq<char>, base: int, s: string, delim: set<char>, all: seq<string>, tokens: seq<nat>, q: nat,
                  token: Option<nat>, after: seq<char>, saved: int)
    requires Points(b, base, s) && Splits(b, base, s, delim, token, after, saved)
    requires DoneBefore(b, base, all, tokens) && |tokens| < |all| && Before(b, q, all[|tokens|], base)
    ensures DoneBefore(after, saved, all, tokens + [q])
  {
    hide Splits, Points, Before;
    var done := tokens + [q];
    forall k | 0 <= k < |done| ensures Before(after, done[k], all[k], saved) {
      StaysBefore(b, base, s, delim, token, after, saved, done[k], all[k]);
    }
  }

  lemma NextFollows(b: seq<char>, base: int, s: string, delim: set<char>, all: seq<string>, m: nat,
                    token: Option<nat>, after: seq<char>, saved: int)
    requires Points(b, base, s) && Splits(b, base, s, delim, token, after, saved)
    requires m <= |all| && Tokens(s, delim) == all[m..]
    ensures IsNext(after, saved, Left(s, delim), delim, all, m, token)
  {
    SplitsFirst(b, base, s, delim, token, after, saved);
    SliceTail(all, m);
    hide Tokens, Left, Splits, Points, Before;
    if token.Some? { TokenBefore(b, base, s, delim, token, after, saved); }
  }

  lemma SliceTail(all: seq<string>, m: nat)
    requires m <= |all|
    ensures all[m..] == [] <==> m == |all|
    ensures m < |all| ==> all[m..][0] == all[m] && all[m..][1..] == all[m + 1..]
  {
  }

  lemma ProgressSteps(b: seq<char>, base: int, s: string, delim: set<char>, all: seq<string>, tokens: seq<nat>, q: nat,
                      token: Option<nat>, after: seq<char>, saved: int)
    requires Progress(b, base, s, delim, all, tokens, Some(q))
    requires Splits(b, base, s, delim, token, after, saved)
    ensures Progress(after, saved, Left(s, delim), delim, all, tokens + [q], token)
  {
    SplitsFirst(b, base, s, delim, token, after, saved);
    NextFollows(b, base, s, delim, all, |tokens| + 1, token, after, saved);
    DoneGrows(b, base, s, delim, all, tokens, q, token, after, saved);
    hide Tokens, Left, Splits, Points, DoneBefore, IsNext;
  }

  /** The loop of the terminal's token command, for any delimiters and a line that
      stands anywhere in its buffer: the calls yield the tokens of the line, in
      order, and all stand in the buffer at the end. */
  method CmdToken(t: Tokenizer, line: array<char>, start: nat, ghost text: string, delim: string)
      returns (tokens: seq<nat>)
    requires t.Valid() && Stands(line[..], start, text) && Bytes(line[..]) && Bytes(delim) && NUL !in delim
    modifies t, line
    ensures var all := Tokens(text, Chars(delim));
      |tokens| == |all| && forall k :: 0 <= k < |all| ==> Stands(line[..], tokens[k], all[k])
  {
    ghost var D := Chars(delim);
    ghost var all := Tokens(text, D);
    ghost var b := line[..];
    tokens := [];
    var token := t.Strtok(line, start, text, delim);
    ProgressStarts(b, start, text, D, token, line[..], t.saved);
    while token.Some?
      invariant t.Valid() && t.buf == line
      invariant Progress(line[..], t.saved, t.rest, D, all, tokens, token)
      decreases |all| - |tokens|
    {
      ghost var base, s, q := t.saved, t.rest, token.value;
      b := line[..];
      tokens := tokens + [token.value];
      token := t.Strtok(null, 0, "", delim);
      ProgressSteps(b, base, s, D, all, tokens[..|tokens| - 1], q, token, line[..], t.saved);
    }
  }
}

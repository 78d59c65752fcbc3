/** The chunk table of the physical memory manager as a value: which tables are
    well formed, which set of live blocks a table encodes, and what happens to
    that set when a block is filled in or cleared. */
module PmmTable {
  import opened Bits

  /** Size in chunks of a block whose entries are k. */
  function Width(k: nat): (w: nat)
    ensures k > 0 ==> w > 0
  {
    if k == 0 then 0 else Pow2(k - 1)
  }

  ghost predicate InBlock(b: nat, k: nat, c: nat) {
    b <= c < b + Width(k)
  }

  /** An aligned, in-range run of entries k, long enough for a block. */
  ghost predicate Block(t: seq<byte>, lo: nat, hi: nat, b: nat, k: nat) {
    && k > 0 && lo <= b && b + Width(k) <= hi <= |t|
    && Mod(b, Width(k)) == 0
    && forall c :: b <= c < b + Width(k) ==> t[c] == k
  }

  /** The table records exactly the blocks of `live` (start chunk to entry value). */
  ghost predicate Encodes(t: seq<byte>, lo: nat, hi: nat, live: map<nat, nat>) {
    && hi <= |t|
    && (forall b :: b in live ==> Block(t, lo, hi, b, live[b]))
    && (forall c :: lo <= c < hi && t[c] != 0 ==> exists b :: b in live && InBlock(b, live[b], c))
  }

  function Fill(t: seq<byte>, c: nat, n: nat, v: byte): (t': seq<byte>)
    ensures |t'| == |t|
    ensures forall i :: 0 <= i < |t| ==> t'[i] == if c <= i < c + n then v else t[i]
  {
    seq(|t|, i requires 0 <= i < |t| => if c <= i < c + n then v else t[i])
  }

  /** Two blocks that share a chunk are the same block: the entry fixes the
      width, and aligned windows of one width do not overlap. */
  lemma BlocksDisjoint(t: seq<byte>, lo: nat, hi: nat, b: nat, k: nat, b': nat, k': nat, c: nat)
    requires Block(t, lo, hi, b, k) && Block(t, lo, hi, b', k')
    requires InBlock(b, k, c) && InBlock(b', k', c)
    ensures b == b' && k == k'
  {
    assert t[c] == k && t[c] == k';
    if b < b' { MultiplesGap(b, b', Width(k)); }
    if b' < b { MultiplesGap(b', b, Width(k)); }
  }

  lemma LiveStart(t: seq<byte>, lo: nat, hi: nat, live: map<nat, nat>, b: nat)
    requires Encodes(t, lo, hi, live) && b in live
    ensures lo <= b < hi <= |t| && t[b] == live[b] > 0 && InBlock(b, live[b], b)
    ensures Block(t, lo, hi, b, live[b])
    ensures forall c: nat :: InBlock(b, live[b], c) ==> c < hi && t[c] == live[b]
  {
  }

  /** The block around a nonzero entry. */
  lemma Owner(t: seq<byte>, lo: nat, hi: nat, live: map<nat, nat>, c: nat) returns (b: nat)
    requires Encodes(t, lo, hi, live) && lo <= c < hi && t[c] != 0
    ensures b in live && InBlock(b, live[b], c) && live[b] == t[c] && Block(t, lo, hi, b, live[b])
  {
    b :| b in live && InBlock(b, live[b], c);
  }

  /** Every nonzero entry k lies in an aligned, in-range window of width 2^(k-1)
      filled with k, the one that starts at the next lower multiple of the width. */
  lemma EntriesLieInWindows(t: seq<byte>, lo: nat, hi: nat, live: map<nat, nat>, c: nat)
    requires Encodes(t, lo, hi, live) && lo <= c < hi && t[c] != 0
    ensures Block(t, lo, hi, c - Mod(c, Width(t[c])), t[c])
  {
    var b := Owner(t, lo, hi, live, c);
    ModShift(b, c - b, Width(t[c]));
  }

  /** A chunk starts a live block exactly when its entry is nonzero and its index
      is a multiple of the width the entry stands for. */
  lemma StartTest(t: seq<byte>, lo: nat, hi: nat, live: map<nat, nat>, c: nat)
    requires Encodes(t, lo, hi, live) && lo <= c < hi
    ensures c in live <==> t[c] != 0 && Mod(c, Width(t[c])) == 0
  {
    assert hi <= |t|;
    hide Encodes, Mod;
    if c in live {
      LiveStart(t, lo, hi, live, c);
    } else if t[c] != 0 {
      var b := Owner(t, lo, hi, live, c);
      if Mod(c, Width(t[c])) == 0 { MultiplesGap(b, c, Width(t[c])); }
    }
  }

  /** Canonical encoding: a table encodes at most one set of blocks. */
  lemma EncodingUnique(t: seq<byte>, lo: nat, hi: nat, live: map<nat, nat>, live': map<nat, nat>)
    requires Encodes(t, lo, hi, live) && Encodes(t, lo, hi, live')
    ensures live == live'
  {
    forall b ensures b in live <==> b in live' {
      if lo <= b < hi {
        StartTest(t, lo, hi, live, b);
        StartTest(t, lo, hi, live', b);
      }
    }
    forall b | b in live ensures live[b] == live'[b] {
      LiveStart(t, lo, hi, live, b);
      LiveStart(t, lo, hi, live', b);
    }
  }

  lemma BlocksDisjointEverywhere(t: seq<byte>, lo: nat, hi: nat, live: map<nat, nat>, b: nat, b': nat)
    requires Encodes(t, lo, hi, live) && b in live && b' in live
    ensures forall c: nat :: InBlock(b, live[b], c) && InBlock(b', live[b'], c) ==> b == b'
  {
    forall c: nat | InBlock(b, live[b], c) && InBlock(b', live[b'], c) ensures b == b' {
      BlocksDisjoint(t, lo, hi, b, live[b], b', live[b'], c);
    }
  }

  lemma EntryDetermined(t1: seq<byte>, t2: seq<byte>, lo: nat, hi: nat, live: map<nat, nat>, c: nat)
    requires Encodes(t1, lo, hi, live) && Encodes(t2, lo, hi, live)
    requires lo <= c < hi
    ensures t1[c] != 0 ==> t1[c] == t2[c]
  {
    if t1[c] != 0 {
      var b :| b in live && InBlock(b, live[b], c);
    }
  }

  /** The other direction: a set of blocks fixes the managed part of the table. */
  lemma TableDetermined(t1: seq<byte>, t2: seq<byte>, lo: nat, hi: nat, live: map<nat, nat>)
    requires Encodes(t1, lo, hi, live) && Encodes(t2, lo, hi, live)
    ensures forall c :: lo <= c < hi ==> t1[c] == t2[c]
  {
    forall c | lo <= c < hi ensures t1[c] == t2[c] {
      EntryDetermined(t1, t2, lo, hi, live, c);
      EntryDetermined(t2, t1, lo, hi, live, c);
    }
  }

  /** An all-free aligned window of n chunks inside the managed range. */
  ghost predicate Window(t: seq<byte>, lo: nat, hi: nat, n: nat, c: nat) {
    && n > 0 && lo <= c && c + n <= hi <= |t| && Mod(c, n) == 0
    && forall i :: c <= i < c + n ==> t[i] == 0
  }

  /** Filling a free window with k adds exactly one block. */
  lemma FillAdds(t: seq<byte>, lo: nat, hi: nat, c: nat, k: byte, live: map<nat, nat>)
    requires k > 0 && Encodes(t, lo, hi, live) && Window(t, lo, hi, Width(k), c)
    ensures c !in live
    ensures Encodes(Fill(t, c, Width(k), k), lo, hi, live[c := k])
  {
    var t' := Fill(t, c, Width(k), k);
    var live' := live[c := k];
    if c in live { LiveStart(t, lo, hi, live, c); }
    forall b | b in live' ensures Block(t', lo, hi, b, live'[b]) {
      if b != c {
        forall i | b <= i < b + Width(live[b]) ensures t'[i] == live[b] {
          assert t[i] == live[b] && t[i] != 0;
        }
      }
    }
    forall i | lo <= i < hi && t'[i] != 0 ensures exists b :: b in live' && InBlock(b, live'[b], i) {
      if c <= i < c + Width(k) {
        assert c in live' && InBlock(c, live'[c], i);
      } else {
        var b :| b in live && InBlock(b, live[b], i);
        assert b in live' && InBlock(b, live'[b], i);
      }
    }
  }

  /** Clearing a live block removes exactly that block. */
  lemma ClearRemoves(t: seq<byte>, lo: nat, hi: nat, b: nat, live: map<nat, nat>)
    requires Encodes(t, lo, hi, live) && b in live
    ensures Encodes(Fill(t, b, Width(live[b]), 0), lo, hi, live - {b})
  {
    var t' := Fill(t, b, Width(live[b]), 0);
    var live' := live - {b};
    forall x | x in live' ensures Block(t', lo, hi, x, live'[x]) {
      forall i | x <= i < x + Width(live[x]) ensures t'[i] == live[x] {
        if InBlock(b, live[b], i) { BlocksDisjoint(t, lo, hi, b, live[b], x, live[x], i); }
      }
    }
    forall i | lo <= i < hi && t'[i] != 0 ensures exists x :: x in live' && InBlock(x, live'[x], i) {
      var x :| x in live && InBlock(x, live[x], i);
      assert x != b;
      assert x in live' && InBlock(x, live'[x], i);
    }
  }

  /** The order lists every live block exactly once. */
  ghost predicate ListsOnce(order: seq<nat>, live: map<nat, nat>) {
    && (forall i :: 0 <= i < |order| ==> order[i] in live)
    && (forall b :: b in live ==> b in order)
    && (forall i, j :: 0 <= i < j < |order| ==> order[i] != order[j])
  }

  lemma NothingLive(t: seq<byte>, lo: nat, hi: nat, live: map<nat, nat>)
    requires Encodes(t, lo, hi, live) && live.Keys == {}
    ensures hi <= |t| && forall c :: lo <= c < hi ==> t[c] == 0
  {
  }

  lemma ListsOnceTail(order: seq<nat>, live: map<nat, nat>)
    requires ListsOnce(order, live) && order != []
    ensures ListsOnce(order[1..], live - {order[0]})
  {
    forall b | b in live - {order[0]} ensures b in order[1..] {
      var i :| 0 <= i < |order| && order[i] == b;
      assert order[1..][i - 1] == b;
    }
  }

  /** Chunks in live blocks that start in [p, hi). */
  ghost function LiveChunks(live: map<nat, nat>, p: nat, hi: nat): nat
    decreases hi - p
  {
    if p >= hi then 0 else (if p in live then Width(live[p]) else 0) + LiveChunks(live, p + 1, hi)
  }

  ghost function FreeChunks(t: seq<byte>, p: nat, hi: nat): nat
    requires hi <= |t|
    decreases hi - p
  {
    if p >= hi then 0 else (if t[p] == 0 then 1 else 0) + FreeChunks(t, p + 1, hi)
  }

  lemma {:induction false} CountInside(t: seq<byte>, live: map<nat, nat>, p: nat, q: nat, hi: nat)
    requires p <= q <= hi <= |t|
    requires forall c :: p <= c < q ==> c !in live && t[c] != 0
    ensures LiveChunks(live, p, hi) == LiveChunks(live, q, hi)
    ensures FreeChunks(t, p, hi) == FreeChunks(t, q, hi)
    decreases q - p
  {
    if p < q { CountInside(t, live, p + 1, q, hi); }
  }

  ghost predicate Boundary(t: seq<byte>, live: map<nat, nat>, p: nat, hi: nat)
    requires hi <= |t|
  {
    p < hi && t[p] != 0 ==> p in live
  }

  /** The chunk after a free chunk, or after a whole block, does not split a block. */
  lemma NextBoundary(t: seq<byte>, lo: nat, hi: nat, live: map<nat, nat>, p: nat, q: nat)
    requires Encodes(t, lo, hi, live) && lo <= p < hi && Boundary(t, live, p, hi)
    requires q == if t[p] == 0 then p + 1 else p + Width(live[p])
    ensures p < q <= hi && Boundary(t, live, q, hi)
    ensures t[p] != 0 ==> forall c :: p < c < q ==> c !in live && t[c] != 0
  {
    if t[p] != 0 {
      LiveStart(t, lo, hi, live, p);
      forall c | p < c < q ensures c !in live && t[c] != 0 {
        assert InBlock(p, live[p], c) && t[c] == live[p];
        if c in live {
          LiveStart(t, lo, hi, live, c);
          BlocksDisjoint(t, lo, hi, c, live[c], p, live[p], c);
        }
      }
    }
    if q < hi && t[q] != 0 {
      var b :| b in live && InBlock(b, live[b], q);
      LiveStart(t, lo, hi, live, b);
      if t[p] != 0 { BlocksDisjointEverywhere(t, lo, hi, live, b, p); }
      assert !InBlock(b, live[b], q - 1);
    }
  }

  /** Conservation: chunks of live blocks and free chunks make up the managed range. */
  lemma {:induction false} ChunksConserved(t: seq<byte>, lo: nat, hi: nat, live: map<nat, nat>, p: nat)
    requires Encodes(t, lo, hi, live) && lo <= p <= hi && Boundary(t, live, p, hi)
    ensures LiveChunks(live, p, hi) + FreeChunks(t, p, hi) == hi - p
    decreases hi - p
  {
    if p < hi {
      if p in live { LiveStart(t, lo, hi, live, p); }
      var q := if t[p] == 0 then p + 1 else p + Width(live[p]);
      NextBoundary(t, lo, hi, live, p, q);
      if t[p] != 0 { CountInside(t, live, p + 1, q, hi); }
      ChunksConserved(t, lo, hi, live, q);
    }
  }

  /** Conservation over the whole managed range. */
  lemma AllChunksConserved(t: seq<byte>, lo: nat, hi: nat, live: map<nat, nat>)
    requires lo <= hi && Encodes(t, lo, hi, live)
    ensures LiveChunks(live, lo, hi) + FreeChunks(t, lo, hi) == hi - lo
  {
    if lo < hi && t[lo] != 0 {
      var b :| b in live && InBlock(b, live[b], lo);
      assert Block(t, lo, hi, b, live[b]);
    }
    ChunksConserved(t, lo, hi, live, lo);
  }
}

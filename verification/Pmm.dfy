/** The physical memory manager: one byte per 512-byte chunk, no headers and no
    free lists. Addresses are unsigned 32-bit words and 0 is the null pointer. */
module Pmm {
  import opened Bits
  import opened PmmTable

  const CHUNK_SIZE: nat := 512
  const CHUNK_LOG: nat := 9
  const MAX_REQUEST: nat := 0x8000_0000

  datatype FreeOutcome = Freed | FreeError

  lemma CeilLogRange(size: nat)
    requires CHUNK_SIZE < size <= MAX_REQUEST
    ensures 9 < CeilLog(size) <= 31
    ensures Pow2(CeilLog(size)) == CHUNK_SIZE * Pow2(CeilLog(size) - 9)
  {
    Pow2Word();
    var nine, k := CHUNK_LOG, CeilLog(size);
    PowerWithinWord(size);
    if k <= nine { Pow2Monotone(k, nine); }
    if k > 31 { Pow2Monotone(32, k); }
    Pow2Add(nine, k - nine);
  }

  /** log2 of the number of chunks a request is rounded to. Above 2^31 bytes the
      rounding wraps to zero and the request is served with a single chunk. */
  function ChunkLog(size: nat): (k: nat)
    requires 0 < size < WORD
    ensures k <= 22
  {
    if size <= CHUNK_SIZE || size > MAX_REQUEST then 0
    else (CeilLogRange(size); CeilLog(size) - 9)
  }

  /** The block is large enough exactly for requests up to 2^31 bytes, and then no
      smaller power-of-two number of chunks would do. */
  lemma RequestCovered(size: nat)
    requires 0 < size < WORD
    ensures CHUNK_SIZE * Pow2(ChunkLog(size)) >= size <==> size <= MAX_REQUEST
    ensures size <= MAX_REQUEST && ChunkLog(size) > 0 ==> CHUNK_SIZE * Pow2(ChunkLog(size) - 1) < size
    ensures size > MAX_REQUEST ==> ChunkLog(size) == 0
  {
    if CHUNK_SIZE < size <= MAX_REQUEST {
      CeilLogRange(size);
    }
  }

  /** A request of 2^31 + 1 bytes gets one chunk. */
  lemma OversizedRequestShortchanged()
    ensures ChunkLog(MAX_REQUEST + 1) == 0 && CHUNK_SIZE * Pow2(0) < MAX_REQUEST + 1
  {
  }

  /** Where the table starts: the first chunk boundary at or above the heap's
      start. Behind the last boundary of the word the address wraps to zero. */
  function TableStart(heapStart: nat): (start: nat)
    requires heapStart < WORD
    ensures start % CHUNK_SIZE == 0
    ensures if heapStart <= WORD - CHUNK_SIZE then heapStart <= start < heapStart + CHUNK_SIZE else start == 0
  {
    TableStartBounds(heapStart);
    if Ceil(heapStart, CHUNK_SIZE) == WORD then 0 else Ceil(heapStart, CHUNK_SIZE)
  }

  lemma TableStartBounds(heapStart: nat)
    requires heapStart < WORD
    ensures var c := Ceil(heapStart, CHUNK_SIZE);
      c % CHUNK_SIZE == 0 && heapStart <= c < heapStart + CHUNK_SIZE && (c == WORD <==> heapStart > WORD - CHUNK_SIZE)
  {
    var nine := CHUNK_LOG;
    Pow2Word();
    CeilWithinWord(heapStart, nine);
    CeilIsLeast(heapStart, CHUNK_SIZE);
    ModIsRemainder(Ceil(heapStart, CHUNK_SIZE), CHUNK_SIZE);
  }

  /** What an allocation may do to the table: fail exactly when no aligned free
      window of the rounded size exists, else take the lowest one. */
  ghost predicate AllocStep(lo: nat, hi: nat, t: seq<byte>, size: nat, t': seq<byte>, ptr: nat) {
    && size < WORD
    && (ptr == 0 ==> t' == t && (size == 0 || forall c :: !Window(t, lo, hi, Pow2(ChunkLog(size)), c)))
    && (ptr != 0 ==>
      && size != 0 && ptr % CHUNK_SIZE == 0
      && var n, c0 := Pow2(ChunkLog(size)), ptr / CHUNK_SIZE;
      && Window(t, lo, hi, n, c0)
      && (forall c :: Window(t, lo, hi, n, c) ==> c0 <= c)
      && t' == Fill(t, c0, n, ChunkLog(size) + 1))
  }

  /** What freeing may do: succeed exactly on null and on the start address of a
      live block, clearing that block; otherwise touch nothing. */
  ghost predicate FreeStep(t: seq<byte>, live: map<nat, nat>, ptr: nat, t': seq<byte>, r: FreeOutcome) {
    if ptr == 0 then r == Freed && t' == t
    else if Held(live, ptr) then r == Freed && t' == Fill(t, ptr / CHUNK_SIZE, Width(live[ptr / CHUNK_SIZE]), 0)
    else r == FreeError && t' == t
  }

  /** ptr is the start address of a live block. */
  ghost predicate Held(live: map<nat, nat>, ptr: nat) {
    ptr % CHUNK_SIZE == 0 && ptr / CHUNK_SIZE in live
  }

  /** The live blocks after a call that returned ptr (allocation) or r (free). */
  ghost function AfterAlloc(live: map<nat, nat>, size: nat, ptr: nat): map<nat, nat> {
    if ptr == 0 || !(0 < size < WORD) then live else live[ptr / CHUNK_SIZE := ChunkLog(size) + 1]
  }

  ghost function AfterFree(live: map<nat, nat>, ptr: nat, r: FreeOutcome): map<nat, nat> {
    if ptr == 0 || r == FreeError then live else live - {ptr / CHUNK_SIZE}
  }

  lemma AllocKeepsEncoding(lo: nat, hi: nat, t: seq<byte>, live: map<nat, nat>, size: nat, t': seq<byte>, ptr: nat)
    requires Encodes(t, lo, hi, live) && AllocStep(lo, hi, t, size, t', ptr)
    ensures Encodes(t', lo, hi, AfterAlloc(live, size, ptr))
    ensures ptr != 0 ==> ptr / CHUNK_SIZE !in live
  {
    if ptr != 0 { FillAdds(t, lo, hi, ptr / CHUNK_SIZE, ChunkLog(size) + 1, live); }
  }

  lemma AllocDone(lo: nat, hi: nat, t: seq<byte>, live: map<nat, nat>, size: nat, cnt: nat, log: byte, pos: nat)
    requires 0 < size < WORD && log == ChunkLog(size) + 1 && cnt == Width(log)
    requires 0 < lo && Encodes(t, lo, hi, live) && Window(t, lo, hi, cnt, pos)
    requires forall c :: Window(t, lo, hi, cnt, c) ==> pos <= c
    ensures var t' := Fill(t, pos, cnt, log);
      && AllocStep(lo, hi, t, size, t', pos * CHUNK_SIZE)
      && Encodes(t', lo, hi, live[pos := log]) && pos !in live
  {
    assert pos * CHUNK_SIZE / CHUNK_SIZE == pos;
    FillAdds(t, lo, hi, pos, log, live);
  }

  lemma FreeKeepsEncoding(lo: nat, hi: nat, t: seq<byte>, live: map<nat, nat>, ptr: nat, t': seq<byte>, r: FreeOutcome)
    requires Encodes(t, lo, hi, live) && FreeStep(t, live, ptr, t', r)
    ensures Encodes(t', lo, hi, AfterFree(live, ptr, r))
  {
    if ptr != 0 && r == Freed { ClearRemoves(t, lo, hi, ptr / CHUNK_SIZE, live); }
  }

  /** `1 << n` as the x86 shifter computes it: the count is taken modulo 32. */
  function ShiftOne(n: int): nat {
    Pow2(n % 32)
  }

  /** The tests of the free path recognise exactly the starts of live blocks. */
  lemma FreeTests(t: seq<byte>, lo: nat, hi: nat, live: map<nat, nat>, c: nat, cnt: nat)
    requires Encodes(t, lo, hi, live) && 0 < lo <= c < hi < 0x80_0000
    requires t[c] <= 23 && cnt == ShiftOne(t[c] as int - 1)
    ensures c in live <==> BitAnd(c, cnt - 1) == 0
    ensures c in live ==> live[c] == t[c] && cnt == Width(live[c]) && Block(t, lo, hi, c, live[c])
  {
    assert hi <= |t|;
    hide Encodes, Block;
    var s: nat := (t[c] as int - 1) % 32;
    MaskIsMod(c, s);
    StartTest(t, lo, hi, live, c);
    Pow2Word();
    assert s == if t[c] == 0 then 31 else t[c] - 1;
    if c in live { LiveStart(t, lo, hi, live, c); }
  }

  class Manager {
    var chkStart: nat
    var chkEnd: nat
    var memTable: array<byte>
    /** The live blocks: start chunk to 1 + log2 of the length in chunks. */
    ghost var live: map<nat, nat>

    constructor ()
      ensures fresh(memTable) && chkStart == chkEnd == 0
    {
      chkStart, chkEnd := 0, 0;
      memTable := new byte[0];
      live := map[];
    }

    ghost predicate Valid()
      reads this, memTable
    {
      && 0 < chkStart < chkEnd < 0x80_0000
      && Encodes(memTable[..], chkStart, chkEnd, live)
      && forall c :: chkStart <= c < chkEnd ==> memTable[c] <= 23
    }

    /** Boot: lay the table out at the start of the heap and reserve its chunks.
        `boot` is the memory the table occupies, as found. Only the first
        chkEnd - chkStart bytes of it are cleared. */
    method Init(heapStart: nat, heapEnd: nat, boot: array<byte>) returns (ok: bool)
      requires heapStart < WORD && heapEnd < WORD && boot.Length == heapEnd / CHUNK_SIZE
      modifies this, boot
      ensures memTable == boot && chkEnd == heapEnd / CHUNK_SIZE
      // the managed range starts at the least chunk behind the table
      ensures CHUNK_SIZE * (chkStart - 1) < TableStart(heapStart) + chkEnd <= CHUNK_SIZE * chkStart
      // there is memory exactly when the table leaves at least one chunk
      ensures ok <==> TableStart(heapStart) + heapEnd / CHUNK_SIZE <= CHUNK_SIZE * (heapEnd / CHUNK_SIZE - 1)
      ensures !ok ==> boot[..] == old(boot[..])
      ensures ok ==> chkStart < chkEnd && forall c :: 0 <= c < boot.Length ==>
        boot[c] == if c < chkStart then 255 else if c < chkEnd - chkStart then 0 else old(boot[c])
      // the allocator starts empty exactly when the managed bytes it never cleared were zero
      ensures ok ==> live == map[] && (Valid() <==>
        forall c :: chkStart <= c < chkEnd && chkEnd - chkStart <= c ==> old(boot[c]) == 0)
    {
      memTable := boot;
      live := map[];
      chkStart, chkEnd := Layout(heapStart, heapEnd);
      if chkStart >= chkEnd {
        return false;
      }
      for i := 0 to chkEnd - chkStart
        modifies boot
        invariant forall c :: 0 <= c < boot.Length ==> boot[c] == if c < i then 0 else old(boot[c])
      {
        memTable[i] := 0;
      }
      for i := 0 to chkStart
        modifies boot
        invariant forall c :: 0 <= c < boot.Length ==>
          boot[c] == if c < i then 255 else if c < chkEnd - chkStart then 0 else old(boot[c])
      {
        memTable[i] := 255;
      }
      ok := true;
    }

    /** The managed chunk range. The table sits at the first chunk boundary of the
        heap and takes one byte per chunk below the heap's end. */
    static method Layout(heapStart: nat, heapEnd: nat) returns (lo: nat, hi: nat)
      requires heapStart < WORD && heapEnd < WORD
      ensures hi == heapEnd / CHUNK_SIZE < 0x80_0000 && (hi > 0 ==> lo > 0)
      ensures CHUNK_SIZE * (lo - 1) < TableStart(heapStart) + hi <= CHUNK_SIZE * lo
    {
      var nine := CHUNK_LOG;
      Pow2Word();
      CeilWithinWord(heapStart, nine);
      ModIsRemainder(heapEnd, CHUNK_SIZE);
      var start := RoundUp(heapStart, nine);
      var end := RoundDown(heapEnd, nine);
      hi := end / CHUNK_SIZE;
      lo := start / CHUNK_SIZE + (hi + CHUNK_SIZE - 1) / CHUNK_SIZE;
    }

    /** Allocate: first fit among the windows aligned to the rounded size. */
    method Alloc(size: nat) returns (ptr: nat)
      requires Valid() && size < WORD
      modifies this`live, memTable
      ensures Valid() && ptr < WORD
      ensures AllocStep(chkStart, chkEnd, old(memTable[..]), size, memTable[..], ptr)
      ensures live == AfterAlloc(old(live), size, ptr)
      ensures ptr != 0 ==> ptr % CHUNK_SIZE == 0 && ptr / CHUNK_SIZE !in old(live)
    {
      assert chkEnd <= memTable.Length;
      hide Encodes, Window, ChunkLog, Fill;
      if size == 0 { return 0; }
      ghost var t := memTable[..];
      var cnt, log := RoundedChunks(size);
      var found, pos := FirstFit(cnt, log - 1);
      if found {
        FillWindow(pos, cnt, log);
        ptr := pos * CHUNK_SIZE;
        assert ptr / CHUNK_SIZE == pos && ptr % CHUNK_SIZE == 0;
        AllocDone(chkStart, chkEnd, t, live, size, cnt, log, pos);
        live := live[pos := log];
      } else {
        ptr := 0;
      }
    }

    /** Scan the aligned windows of cnt = 2^k chunks upwards for an all-free one. */
    method FirstFit(cnt: nat, k: nat) returns (found: bool, pos: nat)
      requires chkStart <= chkEnd < 0x80_0000 && chkEnd <= memTable.Length
      requires k <= 22 && cnt == Pow2(k)
      ensures found ==> Window(memTable[..], chkStart, chkEnd, cnt, pos)
      ensures forall c :: Window(memTable[..], chkStart, chkEnd, cnt, c) ==> found && pos <= c
    {
      Pow2Word();
      Pow2Monotone(k, 22);
      CeilIsLeast(chkStart, cnt);
      pos := RoundUp(chkStart, k);
      while pos + cnt <= chkEnd
        invariant chkStart <= pos && Mod(pos, cnt) == 0
        invariant forall c :: Window(memTable[..], chkStart, chkEnd, cnt, c) ==> pos <= c
      {
        var i := pos;
        while i < pos + cnt && memTable[i] == 0
          invariant pos <= i <= pos + cnt
          invariant forall j :: pos <= j < i ==> memTable[j] == 0
        {
          i := i + 1;
        }
        if i == pos + cnt { return true, pos; }
        NextWindow(memTable[..], chkStart, chkEnd, cnt, pos, i);
        pos := pos + cnt;
      }
      found := false;
    }

    /** Round a request to a power-of-two number of chunks and count its bits. */
    method RoundedChunks(size: nat) returns (cnt: nat, log: nat)
      requires 0 < size < WORD
      ensures log == ChunkLog(size) + 1 && cnt == Pow2(log - 1) == Width(log)
    {
      var bytes := RoundToPower(size);
      if bytes < CHUNK_SIZE { bytes := CHUNK_SIZE; }
      cnt := bytes / CHUNK_SIZE;
      ghost var k := ChunkLog(size);
      RoundedIsPow2(size, bytes);
      var rest := cnt;
      log := 0;
      while rest != 0
        invariant log <= k + 1
        invariant rest == if log == k + 1 then 0 else Pow2(k - log)
        decreases rest
      {
        log := log + 1;
        rest := rest / 2;
      }
      assert log == k + 1;
    }

    /** Write one block's entries. */
    method FillWindow(pos: nat, cnt: nat, v: byte)
      requires pos + cnt <= memTable.Length
      modifies memTable
      ensures memTable[..] == Fill(old(memTable[..]), pos, cnt, v)
    {
      for i := pos to pos + cnt
        invariant forall j :: 0 <= j < memTable.Length ==>
          memTable[j] == if pos <= j < i then v else old(memTable[j])
      {
        memTable[i] := v;
      }
    }

    /** Free: the source's tests in order, then check and clear entry by entry. */
    method Free(ptr: nat) returns (r: FreeOutcome)
      requires Valid() && ptr < WORD
      modifies this`live, memTable
      ensures Valid()
      ensures FreeStep(old(memTable[..]), old(live), ptr, memTable[..], r)
      ensures live == AfterFree(old(live), ptr, r)
      ensures r == Freed <==> ptr == 0 || Held(old(live), ptr)
      ensures !Held(live, 0) && !old(Held(live, 0))
    {
      if ptr == 0 { return Freed; }
      var chk := ptr / CHUNK_SIZE;
      MaskOfChunk(ptr);
      if BitAnd(ptr, CHUNK_SIZE - 1) != 0 { return FreeError; }
      if chk < chkStart || chk >= chkEnd { return FreeError; }
      var log := memTable[chk];
      var cnt := ShiftOne(log as int - 1);
      ghost var t := memTable[..];
      FreeTests(t, chkStart, chkEnd, live, chk, cnt);
      if BitAnd(chk, cnt - 1) != 0 { return FreeError; }
      if chk + cnt > chkEnd { return FreeError; }
      var intact := CheckAndClear(chk, cnt, log);
      live := live - {chk};
      r := if intact then Freed else FreeError;
      FreeKeepsEncoding(chkStart, chkEnd, t, old(live), ptr, memTable[..], r);
    }

    /** Clear entries one by one as long as they equal log. On a mismatch the
        entries before it stay cleared. */
    method CheckAndClear(chk: nat, cnt: nat, log: byte) returns (intact: bool)
      requires chk + cnt <= memTable.Length
      modifies memTable
      ensures intact <==> forall j :: chk <= j < chk + cnt ==> old(memTable[j]) == log
      ensures intact ==> memTable[..] == Fill(old(memTable[..]), chk, cnt, 0)
      ensures !intact ==> exists n ::
        0 <= n < cnt && old(memTable[chk + n]) != log && memTable[..] == Fill(old(memTable[..]), chk, n, 0)
    {
      ghost var t := memTable[..];
      var i := chk;
      while i < chk + cnt
        invariant chk <= i <= chk + cnt
        invariant forall j :: chk <= j < i ==> t[j] == log
        invariant forall j :: 0 <= j < memTable.Length ==> memTable[j] == if chk <= j < i then 0 else t[j]
      {
        if memTable[i] != log {
          ghost var n := i - chk;
          assert old(memTable[chk + n]) != log && memTable[..] == Fill(t, chk, n, 0);
          return false;
        }
        memTable[i] := 0;
        i := i + 1;
      }
      intact := true;
    }
  }

  lemma MaskOfChunk(ptr: nat)
    ensures BitAnd(ptr, CHUNK_SIZE - 1) == ptr % CHUNK_SIZE
  {
    var nine := CHUNK_LOG;
    Pow2Word();
    MaskIsMod(ptr, nine);
    ModIsRemainder(ptr, CHUNK_SIZE);
  }

  lemma RoundedIsPow2(size: nat, bytes: nat)
    requires 0 < size < WORD
    requires var p := if size <= MAX_REQUEST then Pow2(CeilLog(size)) else 0;
      bytes == if p < CHUNK_SIZE then CHUNK_SIZE else p
    ensures bytes == CHUNK_SIZE * Pow2(ChunkLog(size))
  {
    Pow2Word();
    if CHUNK_SIZE < size <= MAX_REQUEST {
      CeilLogRange(size);
    } else if size <= CHUNK_SIZE {
      CeilLogIsLeast(size);
      assert size <= Pow2(9);
    }
  }

  /** If the window at pos has a busy entry, the next candidate is cnt further on. */
  lemma NextWindow(t: seq<byte>, lo: nat, hi: nat, cnt: nat, pos: nat, busy: nat)
    requires cnt > 0 && Mod(pos, cnt) == 0 && pos <= busy < pos + cnt && busy < |t| && t[busy] != 0
    requires forall c :: Window(t, lo, hi, cnt, c) ==> pos <= c
    ensures Mod(pos + cnt, cnt) == 0
    ensures forall c :: Window(t, lo, hi, cnt, c) ==> pos + cnt <= c
  {
    SumOfMultiples(pos, cnt, cnt);
    forall c | Window(t, lo, hi, cnt, c) ensures pos + cnt <= c {
      if pos < c { MultiplesGap(pos, c, cnt); }
    }
  }

  /* ---- whole runs ---- */

  datatype Call = AllocCall(size: nat, ptr: nat) | FreeCall(at: nat, outcome: FreeOutcome)

  ghost predicate Step(lo: nat, hi: nat, t: seq<byte>, live: map<nat, nat>, call: Call, t': seq<byte>) {
    match call
    case AllocCall(size, ptr) => AllocStep(lo, hi, t, size, t', ptr)
    case FreeCall(at, outcome) => FreeStep(t, live, at, t', outcome)
  }

  ghost function AfterCall(live: map<nat, nat>, call: Call): map<nat, nat> {
    match call
    case AllocCall(size, ptr) => AfterAlloc(live, size, ptr)
    case FreeCall(at, outcome) => AfterFree(live, at, outcome)
  }

  /** The live blocks according to the caller alone: what the calls returned,
      never looking at the table. */
  ghost function History(live: map<nat, nat>, calls: seq<Call>): map<nat, nat>
    decreases |calls|
  {
    if calls == [] then live else History(AfterCall(live, calls[0]), calls[1..])
  }

  /** A run from table t to table t' through the listed calls. */
  ghost predicate Run(lo: nat, hi: nat, t: seq<byte>, live: map<nat, nat>, calls: seq<Call>, t': seq<byte>)
    decreases |calls|
  {
    if calls == [] then t' == t
    else exists u :: Step(lo, hi, t, live, calls[0], u) && Run(lo, hi, u, AfterCall(live, calls[0]), calls[1..], t')
  }

  /** In every run the table goes on encoding exactly the caller's history. */
  lemma {:induction false} RunEncodesHistory(lo: nat, hi: nat, t: seq<byte>, live: map<nat, nat>,
                                             calls: seq<Call>, t': seq<byte>)
    requires Encodes(t, lo, hi, live) && Run(lo, hi, t, live, calls, t')
    ensures Encodes(t', lo, hi, History(live, calls))
    decreases |calls|
  {
    if calls != [] {
      var next := AfterCall(live, calls[0]);
      var u :| Step(lo, hi, t, live, calls[0], u) && Run(lo, hi, u, next, calls[1..], t');
      match calls[0] {
        case AllocCall(size, ptr) => AllocKeepsEncoding(lo, hi, t, live, size, u, ptr);
        case FreeCall(at, outcome) => FreeKeepsEncoding(lo, hi, t, live, at, u, outcome);
      }
      RunEncodesHistory(lo, hi, u, next, calls[1..], t');
    }
  }

  /** What was asked for the blocks that are live: start chunk to bytes requested. */
  ghost function AfterRequest(asked: map<nat, nat>, call: Call): map<nat, nat> {
    match call
    case AllocCall(size, ptr) => if ptr == 0 || !(0 < size < WORD) then asked else asked[ptr / CHUNK_SIZE := size]
    case FreeCall(at, outcome) => if at == 0 || outcome == FreeError then asked else asked - {at / CHUNK_SIZE}
  }

  ghost function Asked(asked: map<nat, nat>, calls: seq<Call>): map<nat, nat>
    decreases |calls|
  {
    if calls == [] then asked else Asked(AfterRequest(asked, calls[0]), calls[1..])
  }

  /** Every live block has the size its request is rounded to. */
  ghost predicate Serves(live: map<nat, nat>, asked: map<nat, nat>) {
    live.Keys == asked.Keys && forall b :: b in live ==> 0 < asked[b] < WORD && live[b] == ChunkLog(asked[b]) + 1
  }

  lemma {:induction false} HistoryServes(live: map<nat, nat>, asked: map<nat, nat>, calls: seq<Call>)
    requires Serves(live, asked)
    ensures Serves(History(live, calls), Asked(asked, calls))
    decreases |calls|
  {
    if calls != [] { HistoryServes(AfterCall(live, calls[0]), AfterRequest(asked, calls[0]), calls[1..]); }
  }

  /** Blocks held after any run from an empty table are in range, aligned to their
      own size and pairwise disjoint, and with the free chunks they fill the range.
      Each is as large as its request if and only if that was at most 2^31 bytes,
      and lies above the table, which ends at `tableEnd`. */
  lemma RunSafety(lo: nat, hi: nat, t: seq<byte>, calls: seq<Call>, t': seq<byte>, tableEnd: nat)
    requires lo <= hi <= |t| && forall c :: lo <= c < hi ==> t[c] == 0
    requires Run(lo, hi, t, map[], calls, t') && tableEnd <= CHUNK_SIZE * lo
    ensures hi <= |t'|
    ensures var held, asked := History(map[], calls), Asked(map[], calls);
      && held.Keys == asked.Keys
      && (forall b :: b in held ==> (CHUNK_SIZE * Width(held[b]) >= asked[b] <==> asked[b] <= MAX_REQUEST))
      && (forall b :: b in held ==> tableEnd <= CHUNK_SIZE * b)
    ensures var held := History(map[], calls);
      && (forall b :: b in held ==> held[b] > 0 && lo <= b && b + Width(held[b]) <= hi && Mod(b, Width(held[b])) == 0)
      && (forall b, b' :: b in held && b' in held && b < b' ==> b + Width(held[b]) <= b')
      && LiveChunks(held, lo, hi) + FreeChunks(t', lo, hi) == hi - lo
  {
    RunEncodesHistory(lo, hi, t, map[], calls, t');
    HistoryServes(map[], map[], calls);
    var held, asked := History(map[], calls), Asked(map[], calls);
    forall b | b in held ensures CHUNK_SIZE * Width(held[b]) >= asked[b] <==> asked[b] <= MAX_REQUEST {
      RequestCovered(asked[b]);
    }
    forall b, b' | b in held && b' in held && b < b' ensures b + Width(held[b]) <= b' {
      LiveStart(t', lo, hi, held, b');
      BlocksDisjointEverywhere(t', lo, hi, held, b, b');
    }
    AllChunksConserved(t', lo, hi, held);
  }

  lemma FreeOfLive(lo: nat, hi: nat, t: seq<byte>, live: map<nat, nat>, b: nat, t': seq<byte>, r: FreeOutcome)
    requires 0 < lo && Encodes(t, lo, hi, live) && b in live && FreeStep(t, live, b * CHUNK_SIZE, t', r)
    ensures r == Freed && AfterFree(live, b * CHUNK_SIZE, r) == live - {b}
    ensures Encodes(t', lo, hi, live - {b})
  {
    LiveStart(t, lo, hi, live, b);
    assert Held(live, b * CHUNK_SIZE);
    FreeKeepsEncoding(lo, hi, t, live, b * CHUNK_SIZE, t', r);
  }

  /** Freeing every live block once, in whatever order, succeeds call by call and
      leaves the managed range all free. */
  lemma {:induction false} FreeingAllRestores(lo: nat, hi: nat, t: seq<byte>, live: map<nat, nat>,
                                              order: seq<nat>, calls: seq<Call>, t': seq<byte>)
    requires 0 < lo && Encodes(t, lo, hi, live) && Run(lo, hi, t, live, calls, t')
    requires ListsOnce(order, live) && |calls| == |order|
    requires forall i :: 0 <= i < |calls| ==> calls[i].FreeCall? && calls[i].at == order[i] * CHUNK_SIZE
    ensures forall i :: 0 <= i < |calls| ==> calls[i].outcome == Freed
    ensures hi <= |t'| && forall c :: lo <= c < hi ==> t'[c] == 0
    decreases |calls|
  {
    hide Encodes, Fill;
    if calls == [] {
      assert live.Keys == {};
      NothingLive(t, lo, hi, live);
    } else {
      var next := AfterCall(live, calls[0]);
      var u :| Step(lo, hi, t, live, calls[0], u) && Run(lo, hi, u, next, calls[1..], t');
      FreeOfLive(lo, hi, t, live, order[0], u, calls[0].outcome);
      ListsOnceTail(order, live);
      FreeingAllRestores(lo, hi, u, next, order[1..], calls[1..], t');
    }
  }
}

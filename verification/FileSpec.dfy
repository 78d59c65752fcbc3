/** What a growable file means: a byte sequence that writes overlay and seeks
    zero-fill, seen through handles with offsets of their own. */
module FileSpec {
  import opened Bits
  import opened Wrappers

  const O_RDONLY: nat := 4
  const O_WRONLY: nat := 2
  const SEEK_SET: int := 0
  const SEEK_CUR: int := 1
  const SEEK_END: int := 2

  /** Initial allocation of a file, in bytes. */
  const FIRST_CAPACITY: nat := 512

  /** capacity and copied are bookkeeping: the allocated size, and the bytes all
      reallocations so far have copied. */
  datatype File = File(content: seq<byte>, capacity: nat, copied: nat)

  datatype Handle = Handle(offset: nat, flags: nat)

  datatype Op = Read(size: nat) | Write(data: seq<byte>) | Lseek(off: int, whence: int)

  /** New file and handle, returned value, bytes delivered to the caller. */
  datatype Outcome = Outcome(file: File, handle: Handle, ret: int, data: seq<byte>)

  /** Byte i of a file; zero beyond its end. */
  function ByteAt(c: seq<byte>, i: nat): byte {
    if i < |c| then c[i] else 0
  }

  /** Put d at position off; whatever lies between the old end and off is zero. */
  function Overlay(c: seq<byte>, off: nat, d: seq<byte>): (r: seq<byte>)
    ensures |r| == if |c| <= off + |d| then off + |d| else |c|
    ensures forall i :: 0 <= i < |r| ==> r[i] == if off <= i < off + |d| then d[i - off] else ByteAt(c, i)
  {
    seq(if |c| <= off + |d| then off + |d| else |c|,
        i requires 0 <= i => if off <= i < off + |d| then d[i - off] else ByteAt(c, i))
  }

  /** Make room for n bytes, zero-filled. Beyond the capacity this needs memory,
      twice the new size. */
  function Grow(f: File, n: nat, memory: bool): Option<File> {
    if n <= |f.content| then Some(f)
    else if n <= f.capacity then Some(f.(content := Overlay(f.content, n, [])))
    else if memory then Some(File(Overlay(f.content, n, []), 2 * n, f.copied + |f.content|))
    else None
  }

  /** The position a seek aims at; None for an unknown whence. */
  function Target(f: File, h: Handle, off: int, whence: int): Option<int> {
    if whence == SEEK_SET then Some(off)
    else if whence == SEEK_CUR then Some(off + h.offset)
    else if whence == SEEK_END then Some(off + |f.content|)
    else None
  }

  /** One call through a handle. A short read delivers what is left but returns 0. */
  function Apply(f: File, h: Handle, op: Op, memory: bool): Outcome {
    match op
    case Read(size) =>
      if BitAnd(h.flags, O_RDONLY) == 0 || h.offset > |f.content| then Outcome(f, h, -1, [])
      else if h.offset + size > |f.content| then
        Outcome(f, h.(offset := |f.content|), 0, f.content[h.offset..])
      else Outcome(f, h.(offset := h.offset + size), size, f.content[h.offset..h.offset + size])
    case Write(data) =>
      if BitAnd(h.flags, O_WRONLY) == 0 then Outcome(f, h, -1, [])
      else (match Grow(f, h.offset + |data|, memory)
            case None => Outcome(f, h, -1, [])
            case Some(g) =>
              Outcome(g.(content := Overlay(f.content, h.offset, data)), h.(offset := h.offset + |data|), |data|, []))
    case Lseek(off, whence) =>
      match Target(f, h, off, whence)
      case None => Outcome(f, h, -1, [])
      case Some(t) =>
        if t < 0 then Outcome(f, h, -1, [])
        else match Grow(f, t, memory)
          case None => Outcome(f, h, -1, [])
          case Some(g) => Outcome(g, h.(offset := t), t, [])
  }

  /** Offsets within the content, content within the capacity, and copying paid
      for by the growth of the capacity. */
  predicate FileOk(f: File) {
    |f.content| <= f.capacity && f.copied + FIRST_CAPACITY <= f.capacity
  }

  /* ---- what each call does, outright ---- */

  function Zeros(n: nat): (r: seq<byte>)
    ensures |r| == n && forall i :: 0 <= i < n ==> r[i] == 0
  {
    seq(n, _ => 0)
  }

  /** Growing needs memory exactly beyond the capacity. It appends zeros up to the
      new size, and a reallocation doubles that size and copies the old content once. */
  lemma GrowOutcome(f: File, n: nat, memory: bool)
    requires FileOk(f)
    ensures Grow(f, n, memory) == None <==> n > f.capacity && !memory
    ensures Grow(f, n, memory).Some? ==> var g := Grow(f, n, memory).value;
      && g.content == f.content + Zeros(if n > |f.content| then n - |f.content| else 0)
      && (n <= f.capacity ==> g.capacity == f.capacity && g.copied == f.copied)
      && (n > f.capacity ==> g.capacity == n + n && g.copied == f.copied + |f.content|)
  {
  }

  /** A seek aims from the start (whence 0), from the handle (1) or from the end
      (2). It fails exactly for another whence, a negative position, or a position
      beyond the capacity without memory. Otherwise it returns the position, the
      handle stands there, and the file reaches there, with zeros behind its content. */
  lemma SeekOutcome(f: File, h: Handle, off: int, whence: int, memory: bool)
    requires FileOk(f) && h.offset <= |f.content|
    ensures var o := Apply(f, h, Lseek(off, whence), memory);
      var t := off + (if whence == 1 then h.offset else if whence == 2 then |f.content| else 0);
      && (o.ret == -1 <==> (whence != 0 && whence != 1 && whence != 2) || t < 0 || (t > f.capacity && !memory))
      && (o.ret == -1 ==> o.file == f && o.handle == h)
      && (o.ret != -1 ==> o.ret == o.handle.offset == t && o.handle.flags == h.flags)
      && (o.ret != -1 ==> o.file.content == f.content + Zeros(if t > |f.content| then t - |f.content| else 0))
  {
    hide BitAnd;
    var t := off + (if whence == 1 then h.offset else if whence == 2 then |f.content| else 0);
    if t >= 0 { GrowOutcome(f, t, memory); }
  }

  /** A read fails exactly without the read flag (4). Otherwise it delivers the
      bytes between the old and the new offset: as many as asked for, or all that
      are left, and in that case it returns 0. */
  lemma ReadOutcome(f: File, h: Handle, size: nat, memory: bool)
    requires h.offset <= |f.content|
    ensures var o := Apply(f, h, Read(size), memory);
      && o.file == f && o.handle.flags == h.flags
      && (o.ret == -1 <==> BitAnd(h.flags, 4) == 0) && (o.ret == -1 ==> o.handle == h && o.data == [])
      && (o.ret != -1 ==>
        && h.offset <= o.handle.offset <= |f.content|
        && o.data == f.content[h.offset..o.handle.offset]
        && if h.offset + size <= |f.content| then o.ret == |o.data| == size
           else o.ret == 0 && o.handle.offset == |f.content|)
  {
  }

  /** A write fails exactly without the write flag (2), or beyond the capacity
      without memory. Otherwise the data stands at the offset, the content before
      and behind it is kept, and the handle stands behind it. */
  lemma WriteOutcome(f: File, h: Handle, data: seq<byte>, memory: bool)
    requires FileOk(f) && h.offset <= |f.content|
    ensures var o := Apply(f, h, Write(data), memory);
      var end := h.offset + |data|;
      && o.handle.flags == h.flags
      && (o.ret == -1 <==> BitAnd(h.flags, 2) == 0 || (end > f.capacity && !memory))
      && (o.ret == -1 ==> o.file == f && o.handle == h)
      && (o.ret != -1 ==> o.ret == |data| && o.handle.offset == end)
      && (o.ret != -1 ==>
        o.file.content == f.content[..h.offset] + data + (if end < |f.content| then f.content[end..] else []))
  {
    GrowOutcome(f, h.offset + |data|, memory);
  }

  /** Seek to the end to measure a file, seek back, and read that many bytes: they
      are the whole file. */
  lemma MeasureThenRead(f: File, h: Handle, memory: bool)
    requires FileOk(f) && h.offset <= |f.content| && BitAnd(h.flags, O_RDONLY) != 0
    ensures var end := Apply(f, h, Lseek(0, SEEK_END), memory);
      var start := Apply(end.file, end.handle, Lseek(0, SEEK_SET), memory);
      var all := Apply(start.file, start.handle, Read(end.ret), memory);
      && end.ret == |f.content| && start.ret == 0
      && all.ret == |f.content| && all.data == f.content
      && all.file == f && all.handle == Handle(|f.content|, h.flags)
  {
    assert f.content[0..|f.content|] == f.content;
  }

  /** Two reads in a row deliver what one read of both sizes does, and leave the
      handle where it does. */
  lemma ReadsCompose(f: File, h: Handle, m: nat, n: nat, memory: bool)
    requires h.offset <= |f.content|
    ensures var a := Apply(f, h, Read(m), memory);
      var b := Apply(a.file, a.handle, Read(n), memory);
      var ab := Apply(f, h, Read(m + n), memory);
      ab.data == a.data + b.data && ab.handle == b.handle && ab.file == b.file
  {
  }

  /** Two writes in a row leave the content and the handle of one write of both. */
  lemma WritesCompose(f: File, h: Handle, d: seq<byte>, e: seq<byte>, memory: bool)
    requires FileOk(f) && h.offset <= |f.content| && Apply(f, h, Write(d), memory).ret != -1
    ensures var a := Apply(f, h, Write(d), memory);
      var b := Apply(a.file, a.handle, Write(e), memory);
      var ab := Apply(f, h, Write(d + e), memory);
      b.ret != -1 && ab.ret != -1 ==> b.file.content == ab.file.content && b.handle == ab.handle
  {
    ApplyKeeps(f, h, Write(d), memory);
    var a := Apply(f, h, Write(d), memory);
    var b := Apply(a.file, a.handle, Write(e), memory);
    var ab := Apply(f, h, Write(d + e), memory);
    WritePuts(f, h, d, memory);
    PutTwice(f.content, h.offset, d, e);
    hide Apply, Put;
    if b.ret != -1 { WritePuts(a.file, a.handle, e, memory); }
    if ab.ret != -1 { WritePuts(f, h, d + e, memory); }
  }

  lemma WritePuts(f: File, h: Handle, d: seq<byte>, memory: bool)
    requires FileOk(f) && h.offset <= |f.content| && Apply(f, h, Write(d), memory).ret != -1
    ensures var a := Apply(f, h, Write(d), memory);
      a.file.content == Put(f.content, h.offset, d) && a.handle == Handle(h.offset + |d|, h.flags)
  {
    WriteOutcome(f, h, d, memory);
    hide Apply;
  }

  /** Content with d put at off, which is not beyond its end. */
  function Put(c: seq<byte>, off: nat, d: seq<byte>): seq<byte>
    requires off <= |c|
  {
    c[..off] + d + (if off + |d| < |c| then c[off + |d|..] else [])
  }

  lemma PutTwice(c: seq<byte>, off: nat, d: seq<byte>, e: seq<byte>)
    requires off <= |c|
    ensures Put(Put(c, off, d), off + |d|, e) == Put(c, off, d + e)
  {
    var end, end2 := off + |d|, off + |d| + |e|;
    assert Put(c, off, d)[..end] == c[..off] + d;
    if end2 < |c| { assert Put(c, off, d)[end2..] == c[end2..]; }
  }

  /* ---- one file, many handles ---- */

  datatype System = System(file: File, handles: seq<Handle>)

  datatype Call = Call(handle: nat, op: Op, memory: bool)

  predicate SystemOk(s: System) {
    FileOk(s.file) && forall i :: 0 <= i < |s.handles| ==> s.handles[i].offset <= |s.file.content|
  }

  function Step(s: System, c: Call): System
    requires c.handle < |s.handles|
  {
    var o := Apply(s.file, s.handles[c.handle], c.op, c.memory);
    System(o.file, s.handles[c.handle := o.handle])
  }

  predicate CallsOk(calls: seq<Call>, n: nat) {
    forall i :: 0 <= i < |calls| ==> calls[i].handle < n
  }

  function Run(s: System, calls: seq<Call>): (r: System)
    requires CallsOk(calls, |s.handles|)
    ensures |r.handles| == |s.handles|
    decreases |calls|
  {
    if calls == [] then s else Run(Step(s, calls[0]), calls[1..])
  }

  /** A call never shortens the file, moves only its own handle, and on failure changes nothing. */
  lemma ApplyKeeps(f: File, h: Handle, op: Op, memory: bool)
    requires FileOk(f) && h.offset <= |f.content|
    ensures var o := Apply(f, h, op, memory);
      && FileOk(o.file) && o.handle.offset <= |o.file.content|
      && |f.content| <= |o.file.content|
      && o.handle.flags == h.flags
      && (o.ret == -1 ==> o.file == f && o.handle == h)
  {
  }

  lemma StepKeeps(s: System, c: Call)
    requires SystemOk(s) && c.handle < |s.handles|
    ensures SystemOk(Step(s, c)) && |s.file.content| <= |Step(s, c).file.content|
  {
    ApplyKeeps(s.file, s.handles[c.handle], c.op, c.memory);
  }

  /** In every interleaving through any number of handles: offset <= length <=
      capacity for every handle, and all bytes ever copied by reallocation fit
      into the capacity less the first 512 bytes. */
  lemma {:induction false} RunKeeps(s: System, calls: seq<Call>)
    requires SystemOk(s) && CallsOk(calls, |s.handles|)
    ensures SystemOk(Run(s, calls))
    decreases |calls|
  {
    if calls != [] {
      StepKeeps(s, calls[0]);
      RunKeeps(Step(s, calls[0]), calls[1..]);
    }
  }

  /** The byte a call stores at position i, if it is a successful write that covers i. */
  function Stored(s: System, c: Call, i: nat): Option<byte>
    requires c.handle < |s.handles|
  {
    var off := s.handles[c.handle].offset;
    if c.op.Write? && Apply(s.file, s.handles[c.handle], c.op, c.memory).ret != -1 && off <= i < off + |c.op.data|
    then Some(c.op.data[i - off]) else None
  }

  /** The last byte a run stores at position i. */
  function LastStored(s: System, calls: seq<Call>, i: nat): Option<byte>
    requires CallsOk(calls, |s.handles|)
    decreases |calls|
  {
    if calls == [] then None else
      var later := LastStored(Step(s, calls[0]), calls[1..], i);
      if later.Some? then later else Stored(s, calls[0], i)
  }

  /** After any run each byte of the file is the last one stored there; a
      position never stored to keeps its old byte, or zero beyond the old end. */
  lemma {:induction false} LastWriteWins(s: System, calls: seq<Call>, i: nat)
    requires SystemOk(s) && CallsOk(calls, |s.handles|)
    ensures ByteAt(Run(s, calls).file.content, i) ==
      match LastStored(s, calls, i) case Some(b) => b case None => ByteAt(s.file.content, i)
    decreases |calls|
  {
    if calls != [] {
      StepKeeps(s, calls[0]);
      LastWriteWins(Step(s, calls[0]), calls[1..], i);
    }
  }

  /** Reading back through one handle what was just written through another. */
  lemma ReadBack(f: File, w: Handle, r: Handle, data: seq<byte>, memory: bool)
    requires FileOk(f) && w.offset <= |f.content| && r.offset == w.offset && BitAnd(r.flags, O_RDONLY) != 0
    requires Apply(f, w, Write(data), memory).ret != -1
    ensures var g := Apply(f, w, Write(data), memory).file;
      var o := Apply(g, r, Read(|data|), true);
      o.ret == |data| && o.data == data && o.file == g
  {
  }
}

/** The key-value file system: a fixed table of named, growable buffers, and open
    files that read, write and seek in them. */
module Kvfs {
  import opened Bits
  import opened FileSpec
  import opened Wrappers

  /** Sizes and offsets stay below 2^30, where no 32-bit integer of the code overflows. */
  const SIZE_LIMIT: nat := 0x4000_0000

  /** One entry of a file system's table. `copied` counts the bytes its
      reallocations have copied. */
  class Kvp {
    var valid: bool
    var key: string
    var length: nat
    var capacity: nat
    var data: array<byte>
    ghost var copied: nat

    constructor ()
      ensures !valid
    {
      valid, key, length, capacity, copied := false, "", 0, 0, 0;
      data := new byte[0];
    }

    ghost predicate Ok()
      reads this`capacity, this`data, this`length, this`copied
    {
      capacity == data.Length && length <= capacity && copied + FIRST_CAPACITY <= capacity
    }

    ghost function Abs(): File
      requires Ok()
      reads this, data
    {
      File(data[..length], capacity, copied)
    }

    /** Make room for newsize bytes. `memory` tells whether the allocator has a
        block for the doubled size. */
    method Expand(newsize: nat, memory: bool) returns (r: int)
      requires Ok() && newsize < SIZE_LIMIT
      modifies this`length, this`capacity, this`data, this`copied, data
      ensures Ok()
      ensures match Grow(old(Abs()), newsize, memory)
        case None => r == -1 && Abs() == old(Abs()) && data == old(data) && data[..] == old(data[..])
        case Some(g) =>
          r == (if newsize <= old(length) then 1 else 0) && Abs() == g && (data == old(data) || fresh(data))
    {
      if newsize <= length { return 1; }
      if newsize > capacity {
        var newcap := newsize * 2;
        if !memory { return -1; }
        var newdata := new byte[newcap];
        forall i | 0 <= i < length { newdata[i] := data[i]; }
        copied := copied + length;
        data := newdata;
        capacity := newcap;
      }
      forall i | length <= i < newsize { data[i] := 0; }
      length := newsize;
      r := 0;
    }

    /** Copy the first size bytes of buf over the bytes from `at` on. */
    method Store(at: nat, buf: array<byte>, size: nat)
      requires Ok() && size <= buf.Length && at + size <= length && buf != data
      modifies data
      ensures Abs() == old(Abs()).(content := Overlay(old(Abs()).content, at, buf[..size]))
    {
      forall i | 0 <= i < size { data[at + i] := buf[i]; }
    }
  }

  const MAX_KVP: nat := 128
  const MAX_KEY: nat := 31

  /** A mounted or mountable file system. It is alive until deleted. */
  class Kvfs {
    const kvp: seq<Kvp>
    var refcnt: int
    ghost var alive: bool

    /** A new file system: every entry is free. The name is not modelled. */
    constructor ()
      ensures Valid() && fresh(Entries()) && alive && refcnt == 0
      ensures forall k :: k in Entries() ==> !k.valid
    {
      var table: seq<Kvp> := [];
      while |table| < MAX_KVP
        invariant |table| <= MAX_KVP
        invariant forall k :: k in table ==> fresh(k) && !k.valid
        invariant forall i, j :: 0 <= i < j < |table| ==> table[i] != table[j]
      {
        var k := new Kvp();
        table := table + [k];
      }
      kvp, refcnt, alive := table, 0, true;
    }

    ghost predicate Valid()
    {
      |kvp| == MAX_KVP && forall i, j :: 0 <= i < j < |kvp| ==> kvp[i] != kvp[j]
    }

    ghost function Entries(): set<Kvp> {
      set k | k in kvp
    }

    ghost predicate HasKey(i: int, path: string)
      requires 0 <= i < |kvp|
      reads kvp
    {
      kvp[i].valid && kvp[i].key == path
    }

    /** Names resolve to at most one inode. */
    ghost predicate KeysDistinct()
      reads Entries()`valid, Entries()`key
    {
      forall i, j :: 0 <= i < j < |kvp| && kvp[i].valid && kvp[j].valid ==> kvp[i].key != kvp[j].key
    }

    /** Some entry has this key. */
    ghost predicate Has(path: string)
      reads kvp
    {
      exists i :: 0 <= i < |kvp| && HasKey(i, path)
    }

    /** With distinct keys a name determines the entry. */
    lemma OneInode(k: Kvp, l: Kvp)
      requires KeysDistinct() && k in kvp && l in kvp && k.valid && l.valid && k.key == l.key
      ensures k == l
    {
      var i :| 0 <= i < |kvp| && kvp[i] == k;
      var j :| 0 <= j < |kvp| && kvp[j] == l;
    }

    /** Every entry is in use. */
    ghost predicate Full()
      reads kvp
    {
      forall i :: 0 <= i < |kvp| ==> kvp[i].valid
    }

    /** The inode of a key, -1 if there is none. */
    method Lookup(path: string) returns (inode: int)
      requires Valid()
      ensures -1 <= inode < |kvp|
      ensures inode >= 0 ==> HasKey(inode, path)
      ensures forall i :: 0 <= i < |kvp| && HasKey(i, path) ==> 0 <= inode <= i
    {
      for i := 0 to MAX_KVP
        invariant forall j :: 0 <= j < i ==> !HasKey(j, path)
      {
        if kvp[i].valid && path == kvp[i].key { return i; }
      }
      inode := -1;
    }

    /** Enter a key into the first free slot with an empty file of 512 bytes.
        Fails on a long key, without memory, or on a full table. */
    method Create(path: string, memory: bool) returns (inode: int)
      requires Valid()
      modifies set k | k in kvp && !k.valid
      ensures -1 <= inode < |kvp|
      ensures inode == -1 <==> |path| > MAX_KEY || !memory || old(Full())
      ensures forall k :: k in kvp && old(k.valid) ==> unchanged(k)
      ensures forall i :: 0 <= i < |kvp| && i != inode ==> kvp[i].valid == old(kvp[i].valid)
      ensures inode >= 0 ==> !old(kvp[inode].valid) && HasKey(inode, path)
      ensures inode >= 0 ==> kvp[inode].Ok() && fresh(kvp[inode].data)
      ensures inode >= 0 ==> kvp[inode].Abs() == File([], FIRST_CAPACITY, 0)
      // an unused key stays the only one; a used one would be entered twice
      ensures inode >= 0 && old(KeysDistinct()) ==>
        (KeysDistinct() <==> !old(Has(path)))
    {
      if |path| > MAX_KEY { return -1; }
      for i := 0 to MAX_KVP
        invariant forall j :: 0 <= j < i ==> kvp[j].valid
        invariant unchanged(kvp)
      {
        if !kvp[i].valid {
          kvp[i].key := path;
          if !memory { return -1; }
          kvp[i].data := new byte[FIRST_CAPACITY];
          kvp[i].valid := true;
          kvp[i].capacity := FIRST_CAPACITY;
          kvp[i].length := 0;
          kvp[i].copied := 0;
          forall j | 0 <= j < |kvp| && j != i ensures kvp[j] != kvp[i] && HasKey(j, path) == old(HasKey(j, path)) {
            assert kvp[if i < j then i else j] != kvp[if i < j then j else i];
          }
          forall j | 0 <= j < |kvp| && old(HasKey(j, path)) ensures !KeysDistinct() {
            assert HasKey(j, path) && HasKey(i, path) && j != i;
            assert kvp[if i < j then i else j].key == kvp[if i < j then j else i].key;
          }
          return i;
        }
      }
      inode := -1;
    }

    /** A new handle on an inode, with one reference; null without memory. */
    method Open(inode: nat, flags: nat, memory: bool) returns (file: KvFile?)
      requires inode < |kvp|
      ensures memory <==> file != null
      ensures file != null ==> fresh(file) && file.fs == this && file.kvp == kvp[inode] && file.flags == flags
      ensures file != null ==> file.refcnt == 1 && file.offset == 0
    {
      if !memory { return null; }
      file := new KvFile(this, kvp[inode], flags);
      file.refcnt := file.refcnt + 1;
    }
  }

  /** Growing first does not change what a write leaves. */
  lemma OverlayGrown(f: File, off: nat, d: seq<byte>, memory: bool)
    requires Grow(f, off + |d|, memory).Some?
    ensures Overlay(Grow(f, off + |d|, memory).value.content, off, d) == Overlay(f.content, off, d)
  {
  }

  /** An open file. */
  class KvFile {
    const fs: Kvfs
    const kvp: Kvp
    const flags: nat
    var refcnt: int
    var offset: nat

    constructor (fs: Kvfs, kvp: Kvp, flags: nat)
      ensures this.fs == fs && this.kvp == kvp && this.flags == flags && refcnt == 0 && offset == 0
    {
      this.fs, this.kvp, this.flags, refcnt, offset := fs, kvp, flags, 0, 0;
    }

    ghost predicate Ok()
      reads this, kvp
    {
      kvp.Ok() && offset <= kvp.length
    }

    ghost function Abs(): Handle
      reads this
    {
      Handle(offset, flags)
    }

    /** Read up to size bytes into buf. */
    method Read(buf: array<byte>, size: nat) returns (ret: int)
      requires Ok() && size <= buf.Length && size < SIZE_LIMIT && kvp.length < SIZE_LIMIT && buf != kvp.data
      modifies this`offset, buf
      ensures Ok()
      ensures var o := Apply(kvp.Abs(), old(Abs()), FileSpec.Read(size), true);
        o.file == kvp.Abs() && o.handle == Abs() && o.ret == ret
        && |o.data| <= buf.Length && buf[..] == o.data + old(buf[..])[|o.data|..]
    {
      if BitAnd(flags, O_RDONLY) == 0 { return -1; }
      var n := if offset + size > kvp.length then kvp.length - offset else size;
      forall i | 0 <= i < n { buf[i] := kvp.data[offset + i]; }
      if offset + size > kvp.length {
        offset := kvp.length;
        ret := 0;
      } else {
        offset := offset + size;
        ret := size;
      }
    }

    /** Write the first size bytes of buf. */
    method Write(buf: array<byte>, size: nat, memory: bool) returns (ret: int)
      requires Ok() && size <= buf.Length && offset + size < SIZE_LIMIT && buf != kvp.data
      modifies this`offset, kvp`length, kvp`capacity, kvp`data, kvp`copied, kvp.data
      ensures Ok() && (kvp.data == old(kvp.data) || fresh(kvp.data)) && kvp.length >= old(kvp.length)
      ensures var o := Apply(old(kvp.Abs()), old(Abs()), FileSpec.Write(buf[..size]), memory);
        o.file == kvp.Abs() && o.handle == Abs() && o.ret == ret
    {
      hide BitAnd, Overlay;
      if BitAnd(flags, O_WRONLY) == 0 { return -1; }
      var r := kvp.Expand(offset + size, memory);
      if r < 0 { return -1; }
      kvp.Store(offset, buf, size);
      OverlayGrown(old(kvp.Abs()), offset, buf[..size], memory);
      offset := offset + size;
      ret := size;
    }

    /** Move the offset; past the end this extends the file, whatever the flags. */
    method Lseek(off: int, whence: int, memory: bool) returns (ret: int)
      requires Ok() && off + kvp.length < SIZE_LIMIT && off < SIZE_LIMIT
      modifies this`offset, kvp`length, kvp`capacity, kvp`data, kvp`copied, kvp.data
      ensures Ok() && (kvp.data == old(kvp.data) || fresh(kvp.data)) && kvp.length >= old(kvp.length)
      ensures var o := Apply(old(kvp.Abs()), old(Abs()), FileSpec.Lseek(off, whence), memory);
        o.file == kvp.Abs() && o.handle == Abs() && o.ret == ret
    {
      hide Grow;
      var target := off;
      if whence == SEEK_SET {
      } else if whence == SEEK_CUR {
        target := target + offset;
      } else if whence == SEEK_END {
        target := target + kvp.length;
      } else {
        return -1;
      }
      if target < 0 { return -1; }
      ret := MoveTo(target, memory);
    }

    /** Move the offset, growing the file as needed. */
    method MoveTo(target: nat, memory: bool) returns (ret: int)
      requires Ok() && target < SIZE_LIMIT
      modifies this`offset, kvp`length, kvp`capacity, kvp`data, kvp`copied, kvp.data
      ensures Ok() && (kvp.data == old(kvp.data) || fresh(kvp.data)) && kvp.length >= old(kvp.length)
      ensures match Grow(old(kvp.Abs()), target, memory)
        case None => ret == -1 && kvp.Abs() == old(kvp.Abs()) && offset == old(offset)
        case Some(g) => ret == target && kvp.Abs() == g && offset == target
    {
      var r := kvp.Expand(target, memory);
      if r < 0 { return -1; }
      offset := target;
      ret := target;
    }
  }

  /* ---- many handles on many files ---- */

  /** Entries in use are in order, each with storage of its own. */
  ghost predicate StoreOk(entries: set<Kvp>)
    reads entries`valid, entries`capacity, entries`data, entries`length, entries`copied
  {
    && (forall k :: k in entries && k.valid ==> k.Ok())
    && (forall k, l :: k in entries && l in entries && k.valid && l.valid && k != l ==> k.data != l.data)
  }

  /** A file system without files meets what mounting asks of its entries. */
  lemma NewJoins(entries: set<Kvp>, fs: Kvfs)
    requires StoreOk(entries) && forall k :: k in fs.Entries() ==> !k.valid
    ensures StoreOk(entries + fs.Entries()) && fs.KeysDistinct()
  {
    forall i | 0 <= i < |fs.kvp| ensures !fs.kvp[i].valid {
      assert fs.kvp[i] in fs.Entries();
    }
  }

  /** Handles refer to entries in use, at offsets within the file. */
  ghost predicate HandlesOk(files: set<KvFile>, entries: set<Kvp>)
    reads files`offset, entries`valid, entries`length
  {
    forall f :: f in files ==> f.kvp in entries && f.kvp.valid && f.offset <= f.kvp.length
  }

  /** Mounted file systems share no entry, and in each a key has at most one inode. */
  ghost predicate KeysOk(mounted: set<Kvfs>, entries: set<Kvp>)
    reads entries`valid, entries`key
  {
    && (forall fs :: fs in mounted ==> fs.Entries() <= entries && fs.KeysDistinct())
    && (forall a, b :: a in mounted && b in mounted && a != b ==> a.Entries() !! b.Entries())
  }

  lemma KeysJoin(mounted: set<Kvfs>, entries: set<Kvp>, fs: Kvfs)
    requires KeysOk(mounted, entries) && fs !in mounted && fs.Entries() !! entries && fs.KeysDistinct()
    ensures KeysOk(mounted + {fs}, entries + fs.Entries())
  {
  }

  lemma KeysShrink(mounted: set<Kvfs>, entries: set<Kvp>, fs: Kvfs)
    requires KeysOk(mounted, entries)
    ensures KeysOk(mounted - {fs}, entries)
  {
  }

  /** The buffer is not the storage of a file. */
  ghost predicate Foreign(buf: array<byte>, entries: set<Kvp>)
    reads entries`valid, entries`data
  {
    forall k :: k in entries && k.valid ==> k.data != buf
  }

  /** Every other file in use keeps its contents. */
  twostate predicate OthersKept(kvp: Kvp, entries: set<Kvp>)
    reads entries, set k | k in entries :: k.data
  {
    forall k :: k in entries && old(k.valid) && k != kvp ==>
      unchanged(k) && k.data[..] == old(k.data[..])
  }

  /** No reference count is touched. */
  twostate predicate CountsKept(files: set<KvFile>, mounted: set<Kvfs>)
    reads files`refcnt, mounted`refcnt, mounted`alive
  {
    && (forall f :: f in files ==> f.refcnt == old(f.refcnt))
    && (forall fs :: fs in mounted ==> fs.refcnt == old(fs.refcnt) && fs.alive == old(fs.alive))
  }

  /** A read through one of many handles. */
  method ReadThrough(f: KvFile, buf: array<byte>, size: nat,
                     ghost entries: set<Kvp>, ghost files: set<KvFile>, ghost mounted: set<Kvfs>)
      returns (ret: int)
    requires f in files && StoreOk(entries) && HandlesOk(files, entries) && Foreign(buf, entries)
    requires size <= buf.Length && size < SIZE_LIMIT && f.kvp.length < SIZE_LIMIT
    modifies f`offset, buf
    ensures StoreOk(entries) && HandlesOk(files, entries) && CountsKept(files, mounted)
    ensures f.kvp.Ok() && f.kvp.Abs() == old(f.kvp.Abs()) && OthersKept(f.kvp, entries)
    ensures var o := Apply(f.kvp.Abs(), old(f.Abs()), FileSpec.Read(size), true);
      o.handle == f.Abs() && o.ret == ret
      && |o.data| <= buf.Length && buf[..] == o.data + old(buf[..])[|o.data|..]
  {
    ret := f.Read(buf, size);
  }

  /** A write through one of many handles: all stay in order, and no other file changes. */
  method WriteThrough(f: KvFile, buf: array<byte>, size: nat, memory: bool,
                      ghost entries: set<Kvp>, ghost files: set<KvFile>, ghost mounted: set<Kvfs>)
      returns (ret: int)
    requires f in files && StoreOk(entries) && HandlesOk(files, entries) && Foreign(buf, entries)
    requires size <= buf.Length && f.offset + size < SIZE_LIMIT
    modifies f`offset, f.kvp`length, f.kvp`capacity, f.kvp`data, f.kvp`copied, f.kvp.data
    ensures StoreOk(entries) && HandlesOk(files, entries) && CountsKept(files, mounted) && OthersKept(f.kvp, entries)
    ensures f.kvp.data == old(f.kvp.data) || fresh(f.kvp.data)
    ensures f.kvp.Ok() && var o := Apply(old(f.kvp.Abs()), old(f.Abs()), FileSpec.Write(buf[..size]), memory);
      o.file == f.kvp.Abs() && o.handle == f.Abs() && o.ret == ret
  {
    ret := f.Write(buf, size, memory);
  }

  /** A seek through one of many handles. */
  method SeekThrough(f: KvFile, off: int, whence: int, memory: bool,
                     ghost entries: set<Kvp>, ghost files: set<KvFile>, ghost mounted: set<Kvfs>)
      returns (ret: int)
    requires f in files && StoreOk(entries) && HandlesOk(files, entries)
    requires off + f.kvp.length < SIZE_LIMIT && off < SIZE_LIMIT
    modifies f`offset, f.kvp`length, f.kvp`capacity, f.kvp`data, f.kvp`copied, f.kvp.data
    ensures StoreOk(entries) && HandlesOk(files, entries) && CountsKept(files, mounted) && OthersKept(f.kvp, entries)
    ensures f.kvp.data == old(f.kvp.data) || fresh(f.kvp.data)
    ensures f.kvp.Ok() && var o := Apply(old(f.kvp.Abs()), old(f.Abs()), FileSpec.Lseek(off, whence), memory);
      o.file == f.kvp.Abs() && o.handle == f.Abs() && o.ret == ret
  {
    ret := f.Lseek(off, whence, memory);
  }
}

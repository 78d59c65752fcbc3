/** The mount table, per-thread descriptors and the two levels of reference
    counts. Every operation runs under vfs_lock, so a run of the system is a
    sequence of these calls by whichever threads. */
module Vfs {
  import opened Bits
  import opened CString
  import opened FileSpec
  import opened Kvfs

  const NR_MOUNTPOINTS: nat := 16
  const MAX_PATH: nat := 128
  const MAX_FD: nat := 16

  /** One slot of the mount table. The path buffer outlives the mount. */
  datatype MountPoint = MountPoint(valid: bool, path: seq<char>, fs: Kvfs?)

  /** Threads, and the descriptor array inside each thread's record. */
  type Tid = nat
  type Descriptors = map<Tid, seq<KvFile?>>

  /** A descriptor slot. */
  datatype Slot = Slot(tid: Tid, fd: nat)

  /** The file in a slot; null where there is none. */
  function FileAt(fds: Descriptors, s: Slot): KvFile? {
    if s.tid in fds && s.fd < |fds[s.tid]| then fds[s.tid][s.fd] else null
  }

  /** `files` lists the open files, each with the one slot it sits in. */
  ghost predicate SlotsOk(fds: Descriptors, files: map<KvFile, Slot>) {
    && (forall t :: t in fds ==> |fds[t]| == MAX_FD)
    && (forall s :: FileAt(fds, s) != null ==> FileAt(fds, s) in files && files[FileAt(fds, s)] == s)
    && (forall f :: f in files ==> FileAt(fds, files[f]) == f)
  }

  function SetFd(fds: Descriptors, t: Tid, fd: nat, f: KvFile?): (r: Descriptors)
    requires t in fds && fd < |fds[t]|
  {
    fds[t := fds[t][fd := f]]
  }

  lemma SetFdAt(fds: Descriptors, t: Tid, fd: nat, f: KvFile?)
    requires t in fds && fd < |fds[t]|
    ensures forall s :: FileAt(SetFd(fds, t, fd, f), s) == if s == Slot(t, fd) then f else FileAt(fds, s)
  {
  }

  lemma SlotsAttach(fds: Descriptors, files: map<KvFile, Slot>, t: Tid, fd: nat, f: KvFile)
    requires SlotsOk(fds, files) && t in fds && fd < |fds[t]| && fds[t][fd] == null && f !in files
    ensures SlotsOk(SetFd(fds, t, fd, f), files[f := Slot(t, fd)])
  {
    SetFdAt(fds, t, fd, f);
  }

  lemma SlotsDetach(fds: Descriptors, files: map<KvFile, Slot>, t: Tid, fd: nat)
    requires SlotsOk(fds, files) && t in fds && fd < MAX_FD && fds[t][fd] != null
    ensures fds[t][fd] in files && SlotsOk(SetFd(fds, t, fd, null), files - {fds[t][fd]})
  {
    SetFdAt(fds, t, fd, null);
    assert FileAt(fds, Slot(t, fd)) != null;
  }

  /** Sixteen slots, whose path buffers end in a NUL. */
  ghost predicate PathsOk(mounts: seq<MountPoint>) {
    && |mounts| == NR_MOUNTPOINTS
    && forall i :: 0 <= i < |mounts| ==> |mounts[i].path| == MAX_PATH && mounts[i].path[MAX_PATH - 1] == NUL
  }

  /** Open files live in mounted file systems. */
  ghost predicate FilesMounted(files: map<KvFile, Slot>, mounted: map<Kvfs, nat>) {
    forall f :: f in files ==> f.fs in mounted
  }

  /** `mounted` lists the file systems in valid mount slots, each with its one slot. */
  ghost predicate MountsOk(mounts: seq<MountPoint>, mounted: map<Kvfs, nat>) {
    && PathsOk(mounts)
    && (forall i :: 0 <= i < |mounts| && mounts[i].valid ==>
         mounts[i].fs != null && mounts[i].fs in mounted && mounted[mounts[i].fs] == i)
    && (forall fs :: fs in mounted ==> fs.Valid())
    && (forall fs :: fs in mounted ==>
         mounted[fs] < |mounts| && mounts[mounted[fs]].valid && mounts[mounted[fs]].fs == fs)
  }

  /** The open files of a file system. */
  ghost function OpenOn(files: map<KvFile, Slot>, fs: Kvfs): set<KvFile> {
    set f | f in files && f.fs == fs
  }

  lemma OpenAttach(files: map<KvFile, Slot>, f: KvFile, s: Slot)
    requires f !in files
    ensures forall g :: |OpenOn(files[f := s], g)| == |OpenOn(files, g)| + (if g == f.fs then 1 else 0)
  {
    forall g ensures |OpenOn(files[f := s], g)| == |OpenOn(files, g)| + (if g == f.fs then 1 else 0) {
      assert OpenOn(files[f := s], g) == OpenOn(files, g) + (if g == f.fs then {f} else {});
    }
  }

  lemma OpenDetach(files: map<KvFile, Slot>, f: KvFile)
    requires f in files
    ensures forall g :: |OpenOn(files - {f}, g)| == |OpenOn(files, g)| - (if g == f.fs then 1 else 0)
  {
    forall g ensures |OpenOn(files - {f}, g)| == |OpenOn(files, g)| - (if g == f.fs then 1 else 0) {
      assert OpenOn(files, g) == OpenOn(files - {f}, g) + (if g == f.fs then {f} else {});
    }
  }

  lemma {:induction false} ImageSize(files: map<KvFile, Slot>, a: set<KvFile>)
    requires a <= files.Keys && forall f, g :: f in a && g in a && f != g ==> files[f] != files[g]
    ensures |set f | f in a :: files[f]| == |a|
  {
    if a != {} {
      var f :| f in a;
      ImageSize(files, a - {f});
      assert (set g | g in a :: files[g]) == (set g | g in a - {f} :: files[g]) + {files[f]};
    }
  }

  /** The open files of a file system are as many as the descriptor slots that refer to it. */
  lemma SlotsCounted(fds: Descriptors, files: map<KvFile, Slot>, fs: Kvfs)
    requires SlotsOk(fds, files)
    ensures var slots := set f | f in OpenOn(files, fs) :: files[f];
      && (forall s :: s in slots <==> FileAt(fds, s) != null && FileAt(fds, s).fs == fs)
      && |slots| == |OpenOn(files, fs)|
  {
    ImageSize(files, OpenOn(files, fs));
    forall s | FileAt(fds, s) != null && FileAt(fds, s).fs == fs
      ensures s in set f | f in OpenOn(files, fs) :: files[f]
    {
      assert FileAt(fds, s) in OpenOn(files, fs);
    }
  }

  /** Mount m is a candidate for path: its nonempty path is a prefix. */
  predicate Covers(m: MountPoint, path: string) {
    m.valid && Text(m.path) != [] && Text(m.path) <= path
  }

  predicate MountedAt(m: MountPoint, path: string) {
    m.valid && Text(m.path) == path
  }

  /** No two valid mounts have the same path. */
  ghost predicate PathsDistinct(mounts: seq<MountPoint>) {
    forall i, j :: 0 <= i < j < |mounts| && mounts[i].valid && mounts[j].valid ==>
      Text(mounts[i].path) != Text(mounts[j].path)
  }

  /** r is the slot of the longest covering mount, the lowest such slot, or -1 if none covers. */
  ghost predicate Resolves(mounts: seq<MountPoint>, path: string, r: int) {
    && -1 <= r < |mounts|
    && (r >= 0 ==> Covers(mounts[r], path))
    && forall j :: 0 <= j < |mounts| && Covers(mounts[j], path) ==>
         r >= 0 && |Text(mounts[j].path)| <= |Text(mounts[r].path)|
         && (|Text(mounts[j].path)| == |Text(mounts[r].path)| ==> r <= j)
  }

  /** Resolution is a function, and with distinct paths no other covering mount is as long. */
  lemma ResolutionUnique(mounts: seq<MountPoint>, path: string, r: int, r': int)
    requires Resolves(mounts, path, r) && Resolves(mounts, path, r')
    ensures r == r'
    ensures PathsDistinct(mounts) ==> forall j :: 0 <= j < |mounts| && j != r && Covers(mounts[j], path) ==>
      |Text(mounts[j].path)| < |Text(mounts[r].path)|
  {
    if PathsDistinct(mounts) {
      forall j | 0 <= j < |mounts| && j != r && Covers(mounts[j], path)
        ensures |Text(mounts[j].path)| < |Text(mounts[r].path)|
      {
        SamePrefix(Text(mounts[j].path), Text(mounts[r].path), path);
      }
    }
  }

  lemma SamePrefix(a: string, b: string, path: string)
    requires a <= path && b <= path
    ensures |a| == |b| ==> a == b
  {
  }

  /** The test of mount and unmount on the resolved slot finds a mount at exactly
      this path whenever there is one. */
  lemma ExactMatch(mounts: seq<MountPoint>, path: string, r: int)
    requires path != [] && Resolves(mounts, path, r)
    ensures (exists i :: 0 <= i < |mounts| && MountedAt(mounts[i], path)) <==>
      r >= 0 && Text(mounts[r].path) == path
  {
    if i :| 0 <= i < |mounts| && MountedAt(mounts[i], path) {
      assert Covers(mounts[i], path);
    }
    if r >= 0 && Text(mounts[r].path) == path {
      assert MountedAt(mounts[r], path);
    }
  }

  predicate FirstFree(mounts: seq<MountPoint>, i: int) {
    0 <= i < |mounts| && !mounts[i].valid && forall j :: 0 <= j < i ==> mounts[j].valid
  }

  /** The lowest empty descriptor slot of a thread. */
  predicate FirstNull(fds: Descriptors, t: Tid, i: int) {
    t in fds && 0 <= i < |fds[t]| && fds[t][i] == null && forall j :: 0 <= j < i ==> fds[t][j] != null
  }

  /** The mount table after strcpy has put the path into slot i. */
  function Mounting(mounts: seq<MountPoint>, i: nat, path: string, fs: Kvfs): seq<MountPoint>
    requires i < |mounts| && |path| <= |mounts[i].path|
  {
    mounts[i := MountPoint(true, Copied(mounts[i].path, path), fs)]
  }

  /** The path a new mount ends up with is the one asked for exactly when the
      slot's old buffer has a NUL right behind it, and mount paths stay distinct
      exactly when the path it ends up with is not in use. */
  lemma MountingPath(mounts: seq<MountPoint>, i: nat, path: string, fs: Kvfs)
    requires PathsOk(mounts) && FirstFree(mounts, i) && 0 < |path| < MAX_PATH && NUL !in path
    requires PathsDistinct(mounts)
    ensures var stored := Text(Copied(mounts[i].path, path));
      && (stored == path <==> mounts[i].path[|path|] == NUL)
      && (PathsDistinct(Mounting(mounts, i, path, fs)) <==>
          forall j :: 0 <= j < |mounts| ==> !MountedAt(mounts[j], stored))
  {
    var after := Mounting(mounts, i, path, fs);
    var stored := Text(Copied(mounts[i].path, path));
    CopyReadsBack(mounts[i].path, path);
    if j :| 0 <= j < |mounts| && MountedAt(mounts[j], stored) {
      var lo, hi := if i < j then i else j, if i < j then j else i;
      assert after[lo].valid && after[hi].valid && Text(after[lo].path) == Text(after[hi].path);
    } else {
      forall p, q | 0 <= p < q < |after| && after[p].valid && after[q].valid
        ensures Text(after[p].path) != Text(after[q].path)
      {
        assert p == i ==> !MountedAt(mounts[q], stored);
        assert q == i ==> !MountedAt(mounts[p], stored);
      }
    }
  }

  /** No free slot has been used before, and mount paths are distinct. */
  ghost predicate Tidy(mounts: seq<MountPoint>) {
    PathsDistinct(mounts) && forall i, c :: 0 <= i < |mounts| && !mounts[i].valid && c in mounts[i].path ==> c == NUL
  }

  /** In a slot that has not been used before a mount is entered under its own path. */
  lemma MountingTidy(mounts: seq<MountPoint>, i: nat, path: string, fs: Kvfs)
    requires PathsOk(mounts) && FirstFree(mounts, i) && 0 < |path| < MAX_PATH && NUL !in path
    requires Tidy(mounts) && forall j :: 0 <= j < |mounts| ==> !MountedAt(mounts[j], path)
    ensures Tidy(Mounting(mounts, i, path, fs)) && Text(Mounting(mounts, i, path, fs)[i].path) == path
  {
    assert mounts[i].path[|path|] in mounts[i].path;
    MountingPath(mounts, i, path, fs);
  }

  /** Clearing a slot keeps the other paths distinct. */
  lemma PathsLeave(mounts: seq<MountPoint>, i: nat)
    requires PathsDistinct(mounts) && i < |mounts|
    ensures PathsDistinct(mounts[i := mounts[i].(valid := false)])
  {
  }

  lemma MountsEnter(mounts: seq<MountPoint>, mounted: map<Kvfs, nat>, i: nat, path: string, fs: Kvfs)
    requires MountsOk(mounts, mounted) && i < |mounts| && !mounts[i].valid && 0 < |path| < MAX_PATH
    requires fs.Valid() && fs !in mounted
    ensures MountsOk(Mounting(mounts, i, path, fs), mounted[fs := i])
  {
  }

  lemma MountsLeave(mounts: seq<MountPoint>, mounted: map<Kvfs, nat>, i: nat)
    requires MountsOk(mounts, mounted) && i < |mounts| && mounts[i].valid
    ensures MountsOk(mounts[i := mounts[i].(valid := false)], mounted - {mounts[i].fs})
  {
  }

  lemma NothingOpen(files: map<KvFile, Slot>, mounted: map<Kvfs, nat>, fs: Kvfs)
    requires FilesMounted(files, mounted) && fs !in mounted
    ensures OpenOn(files, fs) == {}
  {
  }

  lemma FilesJoin(files: map<KvFile, Slot>, mounted: map<Kvfs, nat>, f: KvFile, s: Slot)
    requires FilesMounted(files, mounted) && f.fs in mounted
    ensures FilesMounted(files[f := s], mounted)
  {
  }

  lemma FilesStay(files: map<KvFile, Slot>, mounted: map<Kvfs, nat>, fs: Kvfs, i: nat)
    requires FilesMounted(files, mounted)
    ensures FilesMounted(files, mounted[fs := i])
  {
  }

  /** Without an open file on it, a file system can go without orphaning a descriptor. */
  lemma FilesLeave(files: map<KvFile, Slot>, mounted: map<Kvfs, nat>, fs: Kvfs)
    requires FilesMounted(files, mounted) && |OpenOn(files, fs)| == 0
    ensures FilesMounted(files, mounted - {fs}) && OpenOn(files, fs) == {}
  {
    forall f | f in files ensures f.fs != fs {
      assert f !in OpenOn(files, fs);
    }
  }

  /** The path a slot has in a list of paths; "" stands for a free slot. */
  function PathAt(paths: seq<string>, i: nat): string {
    if i < |paths| then paths[i] else ""
  }

  predicate SlotShows(m: MountPoint, path: string) {
    if path == "" then !m.valid else MountedAt(m, path)
  }

  /** The table shows these paths, and all further slots are free. */
  ghost predicate Shows(mounts: seq<MountPoint>, paths: seq<string>) {
    && PathsOk(mounts) && |paths| <= |mounts|
    && (forall i :: 0 <= i < |mounts| ==> SlotShows(mounts[i], PathAt(paths, i)))
  }

  /** The slot of the next mount: the first "", or else behind the paths. */
  function Next(paths: seq<string>): (n: nat)
    ensures n <= |paths| && PathAt(paths, n) == ""
    ensures forall i :: 0 <= i < n ==> paths[i] != ""
  {
    if paths == [] || paths[0] == "" then 0
    else (assert forall i :: 0 < i < |paths| ==> paths[i] == paths[1..][i - 1]; 1 + Next(paths[1..]))
  }

  /** Paths after a mount that ends up under the path `stored`. */
  function Placed(paths: seq<string>, stored: string): (r: seq<string>)
    ensures |paths| <= |r| <= |paths| + 1
    ensures forall i: nat :: PathAt(r, i) == if i == Next(paths) then stored else PathAt(paths, i)
  {
    if Next(paths) == |paths| then paths + [stored] else paths[Next(paths) := stored]
  }

  lemma PathsOkAfter(mounts: seq<MountPoint>, i: nat, path: string, fs: Kvfs)
    requires PathsOk(mounts) && i < |mounts| && |path| < MAX_PATH
    ensures PathsOk(Mounting(mounts, i, path, fs))
  {
  }

  lemma ShowsMount(mounts: seq<MountPoint>, paths: seq<string>, r: int, path: string, fs: Kvfs)
    requires Shows(mounts, paths) && FirstFree(mounts, r) && 0 < |path| < MAX_PATH && |paths| < |mounts|
    requires r == Next(paths) ==> Text(Copied(mounts[r].path, path)) != ""
    ensures r == Next(paths)
    ensures Shows(Mounting(mounts, r, path, fs), Placed(paths, Text(Copied(mounts[r].path, path))))
  {
    hide Next, Text, Copied, PathsOk, Placed;
    var n := Next(paths);
    assert SlotShows(mounts[n], PathAt(paths, n));
    assert forall i :: 0 <= i < n ==> SlotShows(mounts[i], PathAt(paths, i));
    PathsOkAfter(mounts, r, path, fs);
  }

  /** An unmount leaves a free slot. */
  lemma ShowsUnmount(mounts: seq<MountPoint>, paths: seq<string>, i: nat)
    requires Shows(mounts, paths) && i < |paths|
    ensures Shows(mounts[i := mounts[i].(valid := false)], paths[i := ""])
  {
  }

  /** An unmount at the path of slot i finds slot i. */
  lemma ShowsResolves(mounts: seq<MountPoint>, paths: seq<string>, i: nat, id: int)
    requires Shows(mounts, paths) && i < |paths| && paths[i] != ""
    requires forall j :: 0 <= j < |paths| && j != i ==> paths[j] != paths[i]
    requires Resolves(mounts, paths[i], id)
    ensures id == i
  {
    assert SlotShows(mounts[i], PathAt(paths, i));
    ExactMatch(mounts, paths[i], id);
    assert SlotShows(mounts[id], PathAt(paths, id));
  }

  lemma CleanTable(mounts: seq<MountPoint>)
    requires Tidy(mounts) && Shows(mounts, [])
    ensures |mounts| == NR_MOUNTPOINTS
    ensures forall i :: 0 <= i < |mounts| ==>
      |mounts[i].path| == MAX_PATH && forall c :: c in mounts[i].path ==> c == NUL
  {
    forall i | 0 <= i < |mounts| ensures !mounts[i].valid {
      assert SlotShows(mounts[i], PathAt([], i));
    }
  }

  class Vfs {
    const mounts: array<MountPoint>
    var fds: Descriptors
    /** Each open file with its slot, each mounted file system with its mount slot. */
    ghost var files: map<KvFile, Slot>
    ghost var mounted: map<Kvfs, nat>
    /** The table entries of all file systems ever mounted. */
    ghost var entries: set<Kvp>

    /** An open file has one reference. */
    ghost predicate FileRefsOk()
      reads this`files, files.Keys`refcnt
    {
      forall f :: f in files ==> f.refcnt == 1
    }

    /** A mounted file system is alive and counts exactly its open files; the
        count of `late` is still to be changed by d. */
    ghost predicate FsRefsOk(late: Kvfs?, d: int)
      reads this`files, this`mounted, mounted.Keys`refcnt, mounted.Keys`alive
    {
      forall fs :: fs in mounted ==> fs.alive && fs.refcnt + (if fs == late then d else 0) == |OpenOn(files, fs)|
    }

    ghost predicate TablesOk()
      reads this`fds, this`files, this`mounted, mounts
    {
      SlotsOk(fds, files) && MountsOk(mounts[..], mounted) && FilesMounted(files, mounted)
    }

    ghost predicate Valid()
      reads this`fds, this`files, this`mounted, mounts
      reads files.Keys`refcnt, mounted.Keys`refcnt, mounted.Keys`alive
    {
      TablesOk() && FileRefsOk() && FsRefsOk(null, 0)
    }

    /** Every open handle is within its file. */
    ghost predicate HandlesIn()
      reads this`files, this`entries, files.Keys`offset, entries`valid, entries`length
    {
      forall f :: f in files ==> f.kvp in entries && f.kvp.valid && f.offset <= f.kvp.length
    }

    /** All files, handles and keys are in order. */
    ghost predicate Sound()
      reads this`files, this`mounted, this`entries, files.Keys`offset
      reads entries`valid, entries`key, entries`capacity, entries`data, entries`length, entries`copied
    {
      StoreOk(entries) && HandlesIn() && KeysOk(mounted.Keys, entries)
    }

    constructor (threads: set<Tid>)
      ensures Valid() && Sound() && Tidy(mounts[..]) && fresh(mounts) && fds.Keys == threads
      ensures files == map[] && mounted == map[] && entries == {}
      ensures Shows(mounts[..], [])
    {
      fds := map t | t in threads :: seq(MAX_FD, _ => null);
      files, mounted, entries := map[], map[], {};
      mounts := new MountPoint[NR_MOUNTPOINTS](_ => MountPoint(false, seq(MAX_PATH, _ => NUL), null));
    }

    /** Mount fs at a path, in the lowest free slot. The file system must not be
        mounted yet; it is deleted when the mount fails. */
    method Mount(path: string, fs: Kvfs) returns (ret: int)
      requires Valid() && Sound() && path != [] && NUL !in path
      requires fs.Valid() && fs.alive && fs.refcnt == 0 && fs !in mounted
      requires fs.Entries() !! entries && StoreOk(entries + fs.Entries()) && fs.KeysDistinct()
      modifies this`mounted, this`entries, mounts, fs`alive
      ensures Valid() && Sound()
      ensures ret == -1 <==>
        |path| >= MAX_PATH
        || (exists i :: 0 <= i < mounts.Length && MountedAt(old(mounts[..])[i], path))
        || (forall i :: 0 <= i < mounts.Length ==> old(mounts[..])[i].valid)
      ensures ret == -1 ==> mounts[..] == old(mounts[..]) && mounted == old(mounted) && entries == old(entries)
      ensures ret == -1 ==> !fs.alive
      ensures ret != -1 ==> FirstFree(old(mounts[..]), ret) && |path| < |old(mounts[..])[ret].path|
      // the lowest free mount slot
      ensures ret != -1 ==> !old(mounts[..])[ret].valid && forall j :: 0 <= j < ret ==> old(mounts[..])[j].valid
      ensures ret != -1 ==> fs.alive && mounted == old(mounted)[fs := ret] && entries == old(entries) + fs.Entries()
      ensures ret != -1 ==> mounts[..] == Mounting(old(mounts[..]), ret, path, fs)
      // paths stay distinct exactly if the path that ends up in the slot was not in use
      ensures ret != -1 && old(PathsDistinct(mounts[..])) ==>
        (PathsDistinct(mounts[..]) <==> forall j :: 0 <= j < mounts.Length ==>
          !MountedAt(old(mounts[..])[j], Text(Copied(old(mounts[..])[ret].path, path))))
      ensures old(Tidy(mounts[..])) ==> Tidy(mounts[..])
    {
      hide Valid, Sound, StoreOk;
      if |path| >= MAX_PATH {
        DeleteUnmounted(fs);
        return -1;
      }
      var fsid := FindFs(path);
      ExactMatch(mounts[..], path, fsid);
      if fsid >= 0 && Text(mounts[fsid].path) == path {
        DeleteUnmounted(fs);
        return -1;
      }
      var i := FreeSlot();
      if i < NR_MOUNTPOINTS {
        ghost var before := mounts[..];
        Admit(i, path, fs);
        if PathsDistinct(before) { MountingPath(before, i, path, fs); }
        if Tidy(before) { MountingTidy(before, i, path, fs); }
        return i;
      }
      DeleteUnmounted(fs);
      ret := -1;
    }

    /** The first free mount slot; NR_MOUNTPOINTS if there is none. */
    method FreeSlot() returns (i: nat)
      requires Valid()
      ensures PathsOk(mounts[..]) && i <= NR_MOUNTPOINTS
      ensures i < NR_MOUNTPOINTS ==> FirstFree(mounts[..], i)
      ensures i == NR_MOUNTPOINTS ==> forall j :: 0 <= j < mounts.Length ==> mounts[j].valid
    {
      i := 0;
      while i < NR_MOUNTPOINTS && mounts[i].valid
        invariant 0 <= i <= NR_MOUNTPOINTS
        invariant forall j :: 0 <= j < i ==> mounts[j].valid
      {
        i := i + 1;
      }
    }

    /** Destroy a file system that is not mounted, hence not open either. */
    method DeleteUnmounted(fs: Kvfs)
      requires Valid() && Sound() && fs !in mounted
      modifies fs`alive
      ensures Valid() && Sound() && !fs.alive
    {
      fs.alive := false;
    }

    /** Mount a file system in slot i; its entries are in order and its own. */
    method Admit(i: nat, path: string, fs: Kvfs)
      requires Valid() && Sound() && i < mounts.Length && !mounts[i].valid && 0 < |path| < MAX_PATH
      requires fs.Valid() && fs.alive && fs.refcnt == 0 && fs !in mounted
      requires fs.Entries() !! entries && StoreOk(entries + fs.Entries()) && fs.KeysDistinct()
      modifies this`mounted, this`entries, mounts
      ensures Valid() && Sound()
      ensures entries == old(entries) + fs.Entries() && mounted == old(mounted)[fs := i]
      ensures |path| <= |old(mounts[..])[i].path| && mounts[..] == Mounting(old(mounts[..]), i, path, fs)
    {
      hide Valid, StoreOk, KeysOk;
      ghost var all, ms := entries + fs.Entries(), mounted.Keys;
      KeysJoin(ms, entries, fs);
      Enter(i, path, fs);
      entries := all;
      assert mounted.Keys == ms + {fs};
      assert Valid();
      assert StoreOk(entries);
      assert KeysOk(mounted.Keys, entries);
    }

    /** Fill slot i of the mount table. */
    method Enter(i: nat, path: string, fs: Kvfs)
      requires Valid() && i < mounts.Length && !mounts[i].valid && 0 < |path| < MAX_PATH
      requires fs.Valid() && fs.alive && fs.refcnt == 0 && fs !in mounted
      modifies this`mounted, mounts
      ensures Valid() && mounted == old(mounted)[fs := i]
      ensures |path| <= |old(mounts[..])[i].path| && mounts[..] == Mounting(old(mounts[..]), i, path, fs)
    {
      hide SlotsOk, MountsOk, FileRefsOk, FilesMounted;
      NothingOpen(files, mounted, fs);
      MountsEnter(mounts[..], mounted, i, path, fs);
      FilesStay(files, mounted, fs, i);
      mounts[i] := MountPoint(true, Copied(mounts[i].path, path), fs);
      mounted := mounted[fs := i];
      assert mounts[..] == Mounting(old(mounts[..]), i, path, fs);
      assert FileRefsOk();
    }

    /** Unmount the file system at exactly this path, unless descriptors still
        refer to it. `id` is the resolved slot. */
    method Unmount(path: string) returns (ret: int, ghost id: int)
      requires Valid() && Sound() && NUL !in path
      modifies this`mounted, mounts, mounted.Keys`alive
      ensures Valid() && Sound()
      ensures Resolves(old(mounts[..]), path, id) && (ret == 0 || ret == -1)
      ensures ret == 0 <==>
        |path| < MAX_PATH && id >= 0 && Text(old(mounts[..])[id].path) == path
        && old(OpenOn(files, mounts[id].fs)) == {}
      ensures ret == 0 ==> old(mounts[..])[id].fs in old(mounted) && !old(mounts[..])[id].fs.alive
      ensures ret == 0 ==> mounted == old(mounted) - {old(mounts[..])[id].fs}
      ensures ret == 0 ==> mounts[..] == old(mounts[..])[id := old(mounts[..])[id].(valid := false)]
      ensures ret == -1 ==> mounts[..] == old(mounts[..]) && mounted == old(mounted)
      ensures forall fs :: fs in mounted ==> unchanged(fs)
      ensures old(PathsDistinct(mounts[..])) ==> PathsDistinct(mounts[..])
    {
      var slot := FindFs(path);
      id := slot;
      if |path| >= MAX_PATH { return -1, id; }
      if slot < 0 || Text(mounts[slot].path) != path { return -1, id; }
      if mounts[slot].fs.refcnt != 0 { return -1, id; }
      ghost var before := mounts[..];
      Evict(slot);
      if PathsDistinct(before) { PathsLeave(before, slot); }
      ret := 0;
    }

    /** Unmount the unused file system in slot i. */
    method Evict(i: nat)
      requires Valid() && Sound() && i < mounts.Length && mounts[i].valid && mounts[i].fs != null
      requires mounts[i].fs.refcnt == 0
      modifies this`mounted, mounts, mounts[i].fs`alive
      ensures Valid() && Sound() && old(OpenOn(files, mounts[i].fs)) == {}
      ensures mounts[..] == old(mounts[..])[i := old(mounts[i]).(valid := false)]
      ensures !old(mounts[i].fs).alive && mounted == old(mounted) - {old(mounts[i].fs)}
    {
      hide Valid, StoreOk, KeysOk;
      ghost var ms, fs := mounted.Keys, mounts[i].fs;
      KeysShrink(ms, entries, fs);
      Destroy(i);
      assert Valid();
      assert mounted.Keys == ms - {fs};
      assert StoreOk(entries);
      assert KeysOk(mounted.Keys, entries);
    }

    /** Delete the unused file system in slot i and clear the slot. */
    method Destroy(i: nat)
      requires Valid() && i < mounts.Length && mounts[i].valid && mounts[i].fs.refcnt == 0
      modifies this`mounted, mounts, mounts[i].fs`alive
      ensures Valid() && old(OpenOn(files, mounts[i].fs)) == {}
      ensures mounts[..] == old(mounts[..])[i := old(mounts[i]).(valid := false)]
      ensures !old(mounts[i].fs).alive && mounted == old(mounted) - {old(mounts[i].fs)}
    {
      ghost var fs := mounts[i].fs;
      FilesLeave(files, mounted, fs);
      MountsLeave(mounts[..], mounted, i);
      mounts[i].fs.alive := false;
      mounts[i] := mounts[i].(valid := false);
      mounted := mounted - {fs};
      assert mounts[..] == old(mounts[..])[i := old(mounts[i]).(valid := false)];
    }

    /** f is a handle on the file whose name is the mount path of slot id followed
        by the key of the file's entry. */
    ghost predicate On(path: string, id: int, f: KvFile)
      requires 0 <= id < mounts.Length
      reads mounts, f.kvp`valid, f.kvp`key
    {
      && mounts[id].fs == f.fs && f.kvp in f.fs.kvp
      && f.kvp.valid && Text(mounts[id].path) + f.kvp.key == path
    }

    /** f is a handle at the start of the file that `path` names under the mount
        slot it resolves to. */
    ghost predicate Names(path: string, id: int, f: KvFile)
      reads mounts, f`offset, f.kvp`valid, f.kvp`key
    {
      Resolves(mounts[..], path, id) && id >= 0 && On(path, id, f) && f.offset == 0
    }

    /** Two paths under one mount name the same file exactly if they are the same path. */
    lemma SameFileIff(id: int, path: string, f: KvFile, path': string, g: KvFile)
      requires 0 <= id < mounts.Length && On(path, id, f) && On(path', id, g) && f.fs.KeysDistinct()
      ensures f.kvp == g.kvp <==> path == path'
    {
      if path == path' {
        assert f.kvp.key == path[|Text(mounts[id].path)|..] == g.kvp.key;
        f.fs.OneInode(f.kvp, g.kvp);
      }
    }

    /** Entries of the file system in mount slot id, none without one. */
    ghost function Under(id: int): set<Kvp>
      requires id < mounts.Length
      reads mounts
    {
      if id >= 0 && mounts[id].fs != null then mounts[id].fs.Entries() else {}
    }

    /** Under mount slot id there is a file with this path: the mount path followed
        by the key of an entry in use. */
    ghost predicate IsThere(path: string, id: int)
      requires id < mounts.Length
      reads mounts, Under(id)
    {
      id >= 0 && mounts[id].fs != null && var kvp := mounts[id].fs.kvp;
      exists i :: 0 <= i < |kvp| && kvp[i].valid && Text(mounts[id].path) + kvp[i].key == path
    }

    /** Opening a path that resolves to mount slot id can succeed: the file is
        there, or what follows the mount path is short enough for a key, an entry
        is free, and there is memory; and there is memory for the handle. */
    ghost predicate CanOpen(path: string, id: int, memory1: bool, memory2: bool)
      requires id < mounts.Length
      reads mounts, Under(id)
    {
      id >= 0 && mounts[id].fs != null && memory2 && var kvp := mounts[id].fs.kvp;
      IsThere(path, id)
      || (|path| <= |Text(mounts[id].path)| + MAX_KEY && memory1 && exists i :: 0 <= i < |kvp| && !kvp[i].valid)
    }

    /** What follows the mount path is the key to look up. */
    lemma KeyFollows(path: string, id: int)
      requires Resolves(mounts[..], path, id) && id >= 0 && mounts[id].fs != null
      ensures Text(mounts[id].path) + Rest(mounts[id], path) == path
      ensures IsThere(path, id) <==> mounts[id].fs.Has(Rest(mounts[id], path))
      ensures forall m1, m2 :: CanOpen(path, id, m1, m2) <==>
        m2 && Obtainable(mounts[id].fs, Rest(mounts[id], path), m1)
    {
      var m, fs := mounts[id], mounts[id].fs;
      forall i | 0 <= i < |fs.kvp|
        ensures fs.HasKey(i, Rest(m, path)) <==> fs.kvp[i].valid && Text(m.path) + fs.kvp[i].key == path
      {
        SplitOnce(Text(m.path), fs.kvp[i].key, path);
      }
    }

    /** The first free descriptor slot of a thread; MAX_FD if there is none. */
    method FreeFd(t: Tid) returns (i: nat)
      requires Valid() && t in fds
      ensures i <= MAX_FD && (i < MAX_FD <==> null in fds[t]) && (i < MAX_FD ==> FirstNull(fds, t, i))
    {
      i := 0;
      while i < MAX_FD && fds[t][i] != null
        invariant 0 <= i <= MAX_FD
        invariant forall j :: 0 <= j < i ==> fds[t][j] != null
      {
        i := i + 1;
      }
    }

    /** Open a path in the first free descriptor slot of thread t, creating the
        file if there is none; `id` is the mount slot the path resolves to, `file`
        the new handle. A file that is there keeps its entry, and the handle is on
        it; so it is on a new entry exactly if the file was not there. The memory
        flags tell whether the allocations for a new file's data and for the
        handle succeed. */
    method Open(t: Tid, path: string, flags: nat, memory1: bool, memory2: bool)
        returns (ret: int, ghost id: int, ghost file: KvFile?)
      requires Valid() && Sound() && t in fds
      modifies this`files, this`fds, mounted.Keys`refcnt, set k | k in entries && !k.valid
      ensures Valid() && Sound() && Resolves(old(mounts[..]), path, id)
      ensures ret != -1 <==> old(null in fds[t]) && old(CanOpen(path, id, memory1, memory2))
      ensures ret == -1 ==> fds == old(fds) && files == old(files)
      // the lowest free descriptor slot
      ensures ret != -1 ==> 0 <= ret < |old(fds)[t]| && old(fds)[t][ret] == null
      ensures ret != -1 ==> forall j :: 0 <= j < ret ==> old(fds)[t][j] != null
      ensures ret != -1 ==> file != null && fresh(file) && file.flags == flags && Names(path, id, file)
      ensures ret != -1 ==> Text(mounts[id].path) + file.kvp.key == path
      ensures ret != -1 ==> file.kvp in entries && var k := file.kvp; old(k.valid) == old(IsThere(path, id))
      ensures ret != -1 ==> files == old(files)[file := Slot(t, ret)]
      ensures ret != -1 ==> fds == old(fds)[t := old(fds)[t][ret := file]]
      ensures NewFilesEmpty(entries) && AtMostOneNew(entries)
    {
      hide Valid, Sound;
      var i := FreeFd(t);
      if i == MAX_FD {
        id := FindFs(path);
        return -1, id, null;
      }
      var ok;
      ok, id, file := OpenAt(t, i, path, flags, memory1, memory2);
      ret := if ok then i else -1;
    }

    /** Open into an empty slot. */
    method OpenAt(t: Tid, fd: nat, path: string, flags: nat, memory1: bool, memory2: bool)
        returns (ok: bool, ghost id: int, ghost file: KvFile?)
      requires Valid() && Sound() && FirstNull(fds, t, fd)
      modifies this`files, this`fds, mounted.Keys`refcnt, set k | k in entries && !k.valid
      ensures Valid() && Sound() && Resolves(old(mounts[..]), path, id)
      ensures ok <==> old(CanOpen(path, id, memory1, memory2))
      ensures !ok ==> fds == old(fds) && files == old(files)
      ensures ok ==> file != null && fresh(file) && file.flags == flags && Names(path, id, file)
      ensures ok ==> file.kvp in entries && var k := file.kvp; old(k.valid) == old(IsThere(path, id))
      ensures ok ==> files == old(files)[file := Slot(t, fd)] && fds == SetFd(old(fds), t, fd, file)
      ensures NewFilesEmpty(entries) && AtMostOneNew(entries)
    {
      hide Valid, Sound;
      var handle;
      handle, id := OpenFile(path, flags, memory1, memory2);
      file, ok := handle, handle != null;
      if handle != null {
        Link(t, fd, handle);
      }
    }

    /** Put a fresh handle into an empty slot and count it. */
    method Link(t: Tid, fd: nat, file: KvFile)
      requires Valid() && Sound() && FirstNull(fds, t, fd)
      requires file !in files && file.refcnt == 1 && file.fs in mounted
      requires file.kvp in entries && file.kvp.valid && file.offset == 0
      modifies this`files, this`fds, file.fs`refcnt
      ensures Valid() && Sound()
      ensures files == old(files)[file := Slot(t, fd)] && fds == SetFd(old(fds), t, fd, file)
    {
      hide Valid, StoreOk, KeysOk;
      Attach(t, fd, file);
      assert StoreOk(entries);
      assert KeysOk(mounted.Keys, entries);
    }

    /** Resolve a path to a mounted file system and a key there, and make a
        handle; the reference counts do not notice yet. */
    method OpenFile(path: string, flags: nat, memory1: bool, memory2: bool) returns (file: KvFile?, ghost id: int)
      requires Valid() && Sound()
      modifies set k | k in entries && !k.valid
      ensures Valid() && Sound() && Resolves(old(mounts[..]), path, id)
      ensures file != null <==> old(CanOpen(path, id, memory1, memory2))
      ensures file != null ==> fresh(file) && file.flags == flags && file.refcnt == 1 && file.fs in mounted
      ensures file != null ==> Names(path, id, file) && file.kvp in entries
      ensures file != null ==> var k := file.kvp; old(k.valid) == old(IsThere(path, id))
      ensures NewFilesEmpty(entries) && AtMostOneNew(entries)
    {
      var fsid := FindFs(path);
      id := fsid;
      if fsid < 0 { return null, id; }
      var fs := mounts[fsid].fs;
      KeyFollows(path, fsid);
      file := OpenKey(fs, Rest(mounts[fsid], path), flags, memory1, memory2, entries, files.Keys, mounted.Keys);
      assert mounts[..] == old(mounts[..]);
    }

    /** Read through the descriptor that holds f: no file changes. */
    method Read(t: Tid, fd: nat, ghost f: KvFile, buf: array<byte>, size: nat) returns (ret: int)
      requires Valid() && Sound() && FileAt(fds, Slot(t, fd)) == f && Foreign(buf, entries)
      requires size <= buf.Length && size < SIZE_LIMIT && f.kvp.length < SIZE_LIMIT
      modifies f`offset, buf
      ensures Valid() && Sound() && f.Ok() && OthersKept(f.kvp, entries)
      ensures f.kvp.Abs() == old(f.kvp.Abs())
      ensures var o := Apply(f.kvp.Abs(), old(f.Abs()), FileSpec.Read(size), true);
        o.handle == f.Abs() && o.ret == ret
        && |o.data| <= buf.Length && buf[..] == o.data + old(buf[..])[|o.data|..]
    {
      ret := ReadThrough(fds[t][fd], buf, size, entries, files.Keys, mounted.Keys);
      assert mounts[..] == old(mounts[..]);
    }

    /** Write through the descriptor that holds f: no other file changes, and every
        handle on any file stays within it. */
    method Write(t: Tid, fd: nat, ghost f: KvFile, buf: array<byte>, size: nat, memory: bool) returns (ret: int)
      requires Valid() && Sound() && FileAt(fds, Slot(t, fd)) == f && Foreign(buf, entries)
      requires size <= buf.Length && f.offset + size < SIZE_LIMIT
      modifies f`offset, f.kvp`length, f.kvp`capacity, f.kvp`data, f.kvp`copied, f.kvp.data
      ensures Valid() && Sound() && f.Ok() && OthersKept(f.kvp, entries)
      ensures var o := Apply(old(f.kvp.Abs()), old(f.Abs()), FileSpec.Write(buf[..size]), memory);
        o.file == f.kvp.Abs() && o.handle == f.Abs() && o.ret == ret
    {
      ret := WriteThrough(fds[t][fd], buf, size, memory, entries, files.Keys, mounted.Keys);
      assert mounts[..] == old(mounts[..]);
    }

    /** Seek through the descriptor that holds f. */
    method Lseek(t: Tid, fd: nat, ghost f: KvFile, off: int, whence: int, memory: bool) returns (ret: int)
      requires Valid() && Sound() && FileAt(fds, Slot(t, fd)) == f
      requires off < SIZE_LIMIT && off + f.kvp.length < SIZE_LIMIT
      modifies f`offset, f.kvp`length, f.kvp`capacity, f.kvp`data, f.kvp`copied, f.kvp.data
      ensures Valid() && Sound() && f.Ok() && OthersKept(f.kvp, entries)
      ensures var o := Apply(old(f.kvp.Abs()), old(f.Abs()), FileSpec.Lseek(off, whence), memory);
        o.file == f.kvp.Abs() && o.handle == f.Abs() && o.ret == ret
    {
      ret := SeekThrough(fds[t][fd], off, whence, memory, entries, files.Keys, mounted.Keys);
      assert mounts[..] == old(mounts[..]);
    }

    /** Put a fresh file of a mounted file system into an empty slot. */
    method Attach(t: Tid, fd: nat, file: KvFile)
      requires Valid() && FirstNull(fds, t, fd)
      requires file !in files && file.refcnt == 1 && file.fs in mounted
      modifies this`files, this`fds, file.fs`refcnt
      ensures Valid() && files == old(files)[file := Slot(t, fd)] && fds == SetFd(old(fds), t, fd, file)
      ensures file.fs.refcnt == old(file.fs.refcnt) + 1
    {
      hide TablesOk, OpenOn;
      StoreFd(t, fd, file);
      file.fs.refcnt := file.fs.refcnt + 1;
    }

    /** Write a fresh file into its slot; its file system's count is one behind. */
    method StoreFd(t: Tid, fd: nat, file: KvFile)
      requires Valid() && FirstNull(fds, t, fd)
      requires file !in files && file.refcnt == 1 && file.fs in mounted
      modifies this`files, this`fds
      ensures TablesOk() && FileRefsOk() && FsRefsOk(file.fs, 1)
      ensures files == old(files)[file := Slot(t, fd)] && fds == SetFd(old(fds), t, fd, file)
    {
      hide SlotsOk, MountsOk, FilesMounted, OpenOn;
      SlotsAttach(fds, files, t, fd, file);
      OpenAttach(files, file, Slot(t, fd));
      FilesJoin(files, mounted, file, Slot(t, fd));
      fds := SetFd(fds, t, fd, file);
      files := files[file := Slot(t, fd)];
      assert mounts[..] == old(mounts[..]);
    }

    /** Take a file out of its slot and drop it. */
    method Close(t: Tid, fd: nat, ghost f: KvFile) returns (ret: int)
      requires Valid() && Sound() && FileAt(fds, Slot(t, fd)) == f
      modifies this`files, this`fds, f`refcnt, f.fs`refcnt
      ensures Valid() && Sound() && ret == 0
      ensures old(f in files) && files == old(files) - {f}
      ensures fds == old(fds)[t := old(fds)[t][fd := null]]
      ensures f.refcnt == 0 && f.fs.refcnt == old(f.fs.refcnt) - 1
    {
      hide Valid, StoreOk, KeysOk;
      DropFd(t, fd, f);
      assert StoreOk(entries);
      assert KeysOk(mounted.Keys, entries);
      ret := 0;
    }

    method DropFd(t: Tid, fd: nat, ghost f: KvFile)
      requires Valid() && FileAt(fds, Slot(t, fd)) == f
      modifies this`files, this`fds, f`refcnt, f.fs`refcnt
      ensures Valid()
      ensures old(f in files) && files == old(files) - {f} && fds == SetFd(old(fds), t, fd, null)
      ensures f.refcnt == 0 && f.fs.refcnt == old(f.fs.refcnt) - 1
    {
      var file := fds[t][fd];
      SlotsDetach(fds, files, t, fd);
      file.refcnt := file.refcnt - 1;
      if file.refcnt == 0 { file.fs.refcnt := file.fs.refcnt - 1; }
      ClearFd(t, fd);
    }

    /** Clear a slot whose file, and its file system's count, are already given up. */
    method ClearFd(t: Tid, fd: nat)
      requires TablesOk() && t in fds && fd < MAX_FD && fds[t][fd] != null
      requires forall f :: f in files && f != fds[t][fd] ==> f.refcnt == 1
      requires FsRefsOk(fds[t][fd].fs, 1)
      modifies this`files, this`fds
      ensures Valid() && fds == SetFd(old(fds), t, fd, null)
      ensures old(fds[t][fd] in files) && files == old(files) - {old(fds[t][fd])}
    {
      SlotsDetach(fds, files, t, fd);
      OpenDetach(files, fds[t][fd]);
      files := files - {fds[t][fd]};
      fds := SetFd(fds, t, fd, null);
      assert mounts[..] == old(mounts[..]);
    }

    /** The mount slot a path resolves to. */
    method FindFs(path: string) returns (ret: int)
      requires Valid()
      ensures Resolves(mounts[..], path, ret)
    {
      ret := LongestPrefix(path);
    }

    /** Longest-prefix resolution, character by character. */
    method LongestPrefix(path: string) returns (ret: int)
      requires PathsOk(mounts[..])
      ensures Resolves(mounts[..], path, ret)
    {
      hide Text;
      ret := -1;
      var maxlen := 0;
      for i := 0 to NR_MOUNTPOINTS
        invariant -1 <= ret < i
        invariant if ret == -1 then maxlen == 0 else Covers(mounts[ret], path) && maxlen == |Text(mounts[ret].path)|
        invariant forall j :: 0 <= j < i && Covers(mounts[j], path) ==>
          ret >= 0 && |Text(mounts[j].path)| <= maxlen && (|Text(mounts[j].path)| == maxlen ==> ret <= j)
      {
        if mounts[i].valid {
          TextFits(mounts[i].path);
          var covered, len := Match(mounts[i].path, path);
          if covered && len > maxlen {
            maxlen := len;
            ret := i;
          }
        }
      }
    }
  }

  /** What follows the mount path in a path it covers. */
  function Rest(m: MountPoint, path: string): string {
    if Covers(m, path) then path[|Text(m.path)|..] else ""
  }

  /** A path splits behind a prefix in one way. */
  lemma SplitOnce(prefix: string, key: string, path: string)
    requires prefix <= path
    ensures prefix + path[|prefix|..] == path
    ensures prefix + key == path <==> key == path[|prefix|..]
  {
    assert (prefix + key)[|prefix|..] == key;
  }

  /** A key is there, or can be created. */
  ghost predicate Obtainable(fs: Kvfs, key: string, memory: bool)
    reads fs.kvp
  {
    fs.Has(key) || (|key| <= MAX_KEY && memory && !fs.Full())
  }

  /** Files that were not there before are empty. */
  twostate predicate NewFilesEmpty(entries: set<Kvp>)
    reads entries
  {
    forall k :: k in entries && k.valid && !old(k.valid) ==>
      k.Ok() && k.length == 0 && k.capacity == FIRST_CAPACITY && fresh(k.data)
  }

  twostate predicate AtMostOneNew(entries: set<Kvp>)
    reads entries
  {
    forall k, l :: k in entries && l in entries && k.valid && l.valid && !old(k.valid) && !old(l.valid) ==> k == l
  }

  /** The inode of a key, creating it with an empty file if it is missing. Keys
      stay distinct, and a key that is there keeps its inode. */
  method LookupOrCreate(fs: Kvfs, key: string, memory: bool) returns (inode: int)
    requires fs.Valid()
    modifies set k | k in fs.kvp && !k.valid
    ensures -1 <= inode < |fs.kvp|
    ensures inode != -1 <==> old(Obtainable(fs, key, memory))
    ensures inode >= 0 ==> fs.HasKey(inode, key)
    ensures old(fs.KeysDistinct()) ==> fs.KeysDistinct()
    ensures forall k :: k in fs.kvp && old(k.valid) ==> unchanged(k)
    ensures old(fs.Has(key)) ==> unchanged(fs.kvp)
    ensures inode >= 0 && !old(fs.Has(key)) ==>
      fs.kvp[inode].Ok() && fs.kvp[inode].Abs() == File([], FIRST_CAPACITY, 0) && fresh(fs.kvp[inode].data)
    ensures forall i :: 0 <= i < |fs.kvp| && i != inode && fs.kvp[i].valid ==> old(fs.kvp[i].valid)
    ensures inode >= 0 ==> old(fs.kvp[inode].valid) == old(fs.Has(key))
  {
    inode := fs.Lookup(key);
    if inode < 0 {
      assert !fs.Has(key);
      inode := fs.Create(key, memory);
    }
  }

  /** A new handle on the file of a key. */
  method OpenKey(fs: Kvfs, key: string, flags: nat, memory1: bool, memory2: bool,
                 ghost entries: set<Kvp>, ghost files: set<KvFile>, ghost mounted: set<Kvfs>)
      returns (file: KvFile?)
    requires fs.Valid() && fs in mounted
    requires StoreOk(entries) && HandlesOk(files, entries) && KeysOk(mounted, entries)
    modifies set k | k in fs.kvp && !k.valid
    ensures file != null <==> old(Obtainable(fs, key, memory1)) && memory2
    ensures file != null ==> fresh(file) && file.flags == flags && file.refcnt == 1 && file.offset == 0
    ensures file != null ==> file.fs == fs && file.kvp in fs.kvp && file.kvp.valid && file.kvp.key == key
    ensures file != null ==> var k := file.kvp; old(k.valid) == old(fs.Has(key))
    ensures NewFilesEmpty(entries) && AtMostOneNew(entries)
    ensures StoreOk(entries) && HandlesOk(files, entries) && KeysOk(mounted, entries) && CountsKept(files, mounted)
  {
    var inode := LookupOrCreate(fs, key, memory1);
    if inode < 0 { return null; }
    file := fs.Open(inode, flags, memory2);
  }

  /** Compare a mount path with the start of a path; len is the mount path's
      length if it is a prefix. */
  method Match(buf: seq<char>, path: string) returns (covered: bool, len: nat)
    requires |Text(buf)| < |buf|
    ensures covered <==> Text(buf) <= path
    ensures covered ==> len == |Text(buf)|
  {
    len := 0;
    TextStops(buf, len);
    while buf[len] != NUL
      invariant len <= |Text(buf)| && len <= |path| && buf[..len] == path[..len]
      decreases |buf| - len
    {
      TextStops(buf, len);
      if len == |path| || path[len] != buf[len] { return false, len; }
      len := len + 1;
    }
    TextStops(buf, len);
    covered := true;
  }

  lemma TextStops(buf: seq<char>, pos: nat)
    requires pos <= |Text(buf)| < |buf|
    ensures buf[pos] == NUL <==> pos == |Text(buf)|
    ensures pos < |Text(buf)| ==> buf[pos] == Text(buf)[pos]
  {
    var s := Text(buf);
    assert pos < |s| ==> s[pos] in s;
  }

  lemma TextFits(buf: seq<char>)
    requires buf != [] && buf[|buf| - 1] == NUL
    ensures |Text(buf)| < |buf|
  {
    var s := Text(buf);
    assert forall i :: 0 <= i < |s| ==> s[i] in s && s[i] == buf[i];
  }

  /* ---- two descriptors, one file ---- */

  /** Two opens, by whichever threads: descriptors below one mount are on the same
      file exactly if they were opened with the same path. */
  method OpenBoth(v: Vfs, t: Tid, path: string, u: Tid, path': string, flags: nat, memory: bool)
      returns (fd: int, fd': int, ghost f: KvFile?, ghost g: KvFile?)
    requires v.Valid() && v.Sound() && t in v.fds && u in v.fds
    modifies v`files, v`fds, v.mounted.Keys`refcnt, set k | k in v.entries && !k.valid
    ensures v.Valid() && v.Sound()
    ensures fd >= 0 ==> FileAt(v.fds, Slot(t, fd)) == f && f != null
    ensures fd' >= 0 ==> FileAt(v.fds, Slot(u, fd')) == g && g != null
    ensures fd >= 0 && fd' >= 0 && f.fs == g.fs ==> (f.kvp == g.kvp <==> path == path')
  {
    hide Vfs.Valid, Vfs.Sound, Vfs.CanOpen, Vfs.IsThere, Vfs.Names, Vfs.On, Resolves, NewFilesEmpty, AtMostOneNew;
    ghost var id, id';
    fd, id, f := v.Open(t, path, flags, memory, memory);
    if fd >= 0 { NamesMounted(v, id, f, path); }
    fd', id', g := v.Open(u, path', flags, memory, memory);
    if fd >= 0 && fd' >= 0 && f.fs == g.fs {
      SameMount(v, id, id', f, path, g, path');
    }
  }

  lemma NamesMounted(v: Vfs, id: int, f: KvFile, path: string)
    requires v.Names(path, id, f)
    ensures 0 <= id < v.mounts.Length && v.mounts[id].valid && v.On(path, id, f)
  {
  }

  lemma SameMount(v: Vfs, id: int, id': int, f: KvFile, path: string, g: KvFile, path': string)
    requires v.Valid() && v.Sound() && f.fs == g.fs
    requires v.Names(path', id', g) && 0 <= id < v.mounts.Length && v.mounts[id].valid && v.On(path, id, f)
    ensures f.kvp == g.kvp <==> path == path'
  {
    assert v.mounted[f.fs] == id == id';
    v.SameFileIff(id, path, f, path', g);
  }

  /* ---- a path in use twice ---- */

  /** Copied into a buffer that holds nothing, a path reads back. */
  lemma CleanCopy(buf: seq<char>, path: string)
    requires |path| < |buf| && NUL !in path && forall c :: c in buf ==> c == NUL
    ensures Text(Copied(buf, path)) == path
  {
    assert buf[|path|] in buf;
    CopyReadsBack(buf, path);
  }

  /** "/a" copied over "/xb" leaves "/ab". */
  lemma StaleCopy(buf: seq<char>)
    requires |buf| == MAX_PATH && forall c :: c in buf ==> c == NUL
    ensures Text(Copied(Copied(buf, "/xb"), "/a")) == "/ab"
  {
    var after := Copied(Copied(buf, "/xb"), "/a");
    assert after[3] == buf[3] && buf[3] in buf;
    assert after[..3] == "/ab";
    TextUnique(after, "/ab");
  }

  /** Mount a new file system, as the kernel does at boot and its tests do. */
  method MountNew(v: Vfs, path: string) returns (ret: int, fs: Kvfs)
    requires v.Valid() && v.Sound() && path != [] && NUL !in path
    modifies v`mounted, v`entries, v.mounts
    ensures v.Valid() && v.Sound() && fresh(fs)
    ensures ret == -1 <==>
      |path| >= MAX_PATH
      || (exists i :: 0 <= i < v.mounts.Length && MountedAt(old(v.mounts[..])[i], path))
      || (forall i :: 0 <= i < v.mounts.Length ==> old(v.mounts[..])[i].valid)
    ensures ret == -1 ==> v.mounts[..] == old(v.mounts[..]) && v.mounted == old(v.mounted)
    ensures ret != -1 ==> FirstFree(old(v.mounts[..]), ret) && |path| < |old(v.mounts[..])[ret].path|
    ensures ret != -1 ==> v.mounts[..] == Mounting(old(v.mounts[..]), ret, path, fs)
    ensures ret != -1 ==> v.mounted == old(v.mounted)[fs := ret]
  {
    fs := new Kvfs();
    assert StoreOk(v.entries) && fs !in v.mounted;
    NewJoins(v.entries, fs);
    hide Vfs.Valid, Vfs.Sound, StoreOk;
    ret := v.Mount(path, fs);
  }

  /** A mount in a table that shows these paths. */
  method MountShown(v: Vfs, ghost paths: seq<string>, path: string)
    requires v.Valid() && v.Sound() && path != "" && NUL !in path && |path| < MAX_PATH
    requires Shows(v.mounts[..], paths) && |paths| < v.mounts.Length && path !in paths
    requires Text(Copied(v.mounts[Next(paths)].path, path)) != ""
    modifies v`mounted, v`entries, v.mounts
    ensures v.Valid() && v.Sound() && fresh(v.mounted.Keys - old(v.mounted.Keys))
    ensures Shows(v.mounts[..], Placed(paths, Text(Copied(old(v.mounts[Next(paths)].path), path))))
    ensures forall i :: 0 <= i < v.mounts.Length && i != Next(paths) ==> v.mounts[i] == old(v.mounts[i])
    ensures v.mounts[Next(paths)].path == Copied(old(v.mounts[Next(paths)].path), path)
  {
    hide Vfs.Valid, Vfs.Sound, PathsOk;
    ghost var m := v.mounts[..];
    forall i | 0 <= i < |m| ensures SlotShows(m[i], PathAt(paths, i)) && !MountedAt(m[i], path) {
      assert i < |paths| ==> paths[i] in paths;
    }
    assert !m[|paths|].valid;
    var ret, fs := MountNew(v, path);
    ShowsMount(m, paths, ret, path, fs);
  }

  /** Two mounts at "/ab" although mount refuses a path in use: slot 0 last held
      "/xb", and the copied "/a" picks up the leftover "b". */
  method StaleBufferDuplicatesPath() returns (v: Vfs)
    ensures v.Valid() && v.Sound() && Shows(v.mounts[..], ["/ab", "/ab"])
    ensures !PathsDistinct(v.mounts[..])
  {
    hide Vfs.Valid, Vfs.Sound, Shows, Copied, Text;
    v := new Vfs({});
    ghost var clean := v.mounts[..];
    CleanTable(clean);
    PlacedThrice();
    CleanCopy(clean[0].path, "/xb");
    CleanCopy(clean[1].path, "/ab");
    StaleCopy(clean[0].path);
    MountShown(v, [], "/xb");
    MountShown(v, ["/xb"], "/ab");
    ghost var two := v.mounts[..];
    assert Shows(two, ["/xb", "/ab"]);
    ghost var id;
    var ret;
    assert v.files == map[];
    ret, id := v.Unmount("/xb");
    ShowsResolves(two, ["/xb", "/ab"], 0, id);
    ShowsUnmount(two, ["/xb", "/ab"], 0);
    assert ret == 0 && ["/xb", "/ab"][0 := ""] == ["", "/ab"];
    MountShown(v, ["", "/ab"], "/a");
    SameTwice(v.mounts[..], "/ab");
  }

  lemma PlacedThrice()
    ensures Next([]) == 0 && Placed([], "/xb") == ["/xb"]
    ensures Next(["/xb"]) == 1 && Placed(["/xb"], "/ab") == ["/xb", "/ab"]
    ensures Next(["", "/ab"]) == 0 && Placed(["", "/ab"], "/ab") == ["/ab", "/ab"]
  {
    assert ["/xb"][1..] == [];
  }

  lemma SameTwice(mounts: seq<MountPoint>, path: string)
    requires Shows(mounts, [path, path]) && path != ""
    ensures !PathsDistinct(mounts)
  {
    assert SlotShows(mounts[0], PathAt([path, path], 0)) && SlotShows(mounts[1], PathAt([path, path], 1));
  }
}

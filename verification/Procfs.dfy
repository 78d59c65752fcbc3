/** Names in the process file system: thread numbers printed with %d, and
    looked up again with atoi. */
module Procfs {
  import opened Bits
  import opened Numerals
  import opened Format
  import opened Printf
  import opened CString
  import opened Limits
  import opened Wrappers

  const CPUINFO_INODE: int := 128
  const MEMINFO_INODE: int := 129

  datatype Entry = Entry(name: string, inode: int)

  /** The name of thread i. */
  function Name(i: nat): string
    requires i < NR_THREADS
  {
    FormatInt(PLAIN, i)
  }

  /** The entries for live threads below i. */
  function ThreadEntries(live: seq<bool>, i: nat): seq<Entry>
    requires i <= |live| == NR_THREADS
  {
    if i == 0 then [] else ThreadEntries(live, i - 1) + (if live[i - 1] then [Entry(Name(i - 1), i - 1)] else [])
  }

  function Entries(live: seq<bool>): seq<Entry>
    requires |live| == NR_THREADS
  {
    ThreadEntries(live, NR_THREADS) + [Entry("cpuinfo", CPUINFO_INODE), Entry("meminfo", MEMINFO_INODE)]
  }

  /** The inode a name resolves to. */
  function Inode(live: seq<bool>, path: string): int
    requires |live| == NR_THREADS
  {
    if path == "cpuinfo" then CPUINFO_INODE
    else if path == "meminfo" then MEMINFO_INODE
    else if 0 <= Atoi(path) < NR_THREADS && live[Atoi(path)] then Atoi(path) else -1
  }

  /** "%d" prints one signed number. */
  lemma PercentD(w: nat)
    requires w < WORD
    ensures Printed("%d", 0, [Word(w)]) == Some(FormatInt(PLAIN, Signed(w)))
  {
    var f := "%d";
    assert ParseFlags(f, 1, PLAIN) == (PLAIN, 1) && ParseNumber(f, 1, 0) == (0, 1);
    assert ParseConv(f, 1, [Word(w)]) == Some(Parsed(PLAIN, 1, [Word(w)]));
    var text := FormatInt(PLAIN, Signed(w));
    assert Printed(f, 2, []) == Some("") && text + "" == text;
    assert [Word(w)][1..] == [];
  }

  /** Thread names are short, contain no NUL, and read back as the thread number. */
  lemma NameFacts(i: nat)
    requires i < NR_THREADS
    ensures |Name(i)| < 32 && NUL !in Name(i) && Atoi(Name(i)) == i
    ensures Name(i) != "" && IsDigit(Name(i)[0])
  {
    AtoiUndoesPrint(PLAIN, i);
    NameIsDecimal(i);
    DecimalIsCanonical(i);
    WordFitsDigits(i, 10, false);
  }

  /** sprintf of "%d" into a buffer of 32 characters. */
  method PrintName(i: nat) returns (name: string)
    requires i < NR_THREADS
    ensures name == Name(i)
  {
    var buf := new char[32](_ => NUL);
    PercentD(i);
    NameFacts(i);
    var n, stored := Sprintf(buf, "%d", [Word(i)]);
    StoredText(buf[..], Name(i));
    name := Text(buf[..]);
  }

  /** List the directory: format each live thread's number into a buffer and hand
      it to the callback, which ends the walk by a nonzero answer. `visited` is
      what the callback has seen. */
  method Walk(live: seq<bool>, fn: Entry -> int) returns (val: int, visited: seq<Entry>)
    requires |live| == NR_THREADS
    ensures visited <= Entries(live)
    ensures val == 0 ==> visited == Entries(live) && forall e :: e in visited ==> fn(e) == 0
    ensures val != 0 ==> visited != [] && fn(visited[|visited| - 1]) == val
    ensures val != 0 ==> forall k :: 0 <= k < |visited| - 1 ==> fn(visited[k]) == 0
  {
    visited := [];
    for i := 0 to NR_THREADS
      invariant visited == ThreadEntries(live, i) && forall e :: e in visited ==> fn(e) == 0
    {
      ThreadEntriesGrow(live, i, NR_THREADS);
      if live[i] {
        ThreadEntriesGrow(live, i + 1, NR_THREADS);
        var name := PrintName(i);
        visited := visited + [Entry(name, i)];
        val := fn(Entry(name, i));
        if val != 0 { return; }
      }
    }
    visited := visited + [Entry("cpuinfo", CPUINFO_INODE)];
    val := fn(Entry("cpuinfo", CPUINFO_INODE));
    if val != 0 { return; }
    visited := visited + [Entry("meminfo", MEMINFO_INODE)];
    val := fn(Entry("meminfo", MEMINFO_INODE));
  }

  lemma {:induction false} ThreadEntriesGrow(live: seq<bool>, i: nat, n: nat)
    requires i <= n <= |live| == NR_THREADS
    ensures ThreadEntries(live, i) <= ThreadEntries(live, n)
  {
    if i < n { ThreadEntriesGrow(live, i, n - 1); }
  }

  /** Resolve a name. */
  method Lookup(live: seq<bool>, path: string) returns (inode: int)
    requires |live| == NR_THREADS
    ensures inode == Inode(live, path)
  {
    if path == "cpuinfo" { return CPUINFO_INODE; }
    if path == "meminfo" { return MEMINFO_INODE; }
    var tid := ParseInt(path);
    if tid < 0 || tid >= NR_THREADS { return -1; }
    if !live[tid] { return -1; }
    inode := tid;
  }

  /** Lookup in full: the two information files by name, a live thread by any text
      that atoi reads as its number, and -1 for everything else: for a number
      outside the table, and for one whose thread is not live. */
  lemma LookupIff(live: seq<bool>, path: string)
    requires |live| == NR_THREADS
    ensures var r := Inode(live, path);
      && (r == 128 <==> path == "cpuinfo") && (r == 129 <==> path == "meminfo")
      && (0 <= r < 128 ==> r == Atoi(path) && r < NR_THREADS && live[r])
      && (r < 0 ==> r == -1)
    ensures Inode(live, path) == -1 <==>
      path != "cpuinfo" && path != "meminfo" && forall t: nat :: t < NR_THREADS && live[t] ==> Atoi(path) != t
  {
    hide Atoi;
  }

  /** Every listed name resolves to the inode it is listed with. */
  lemma ListedNamesResolve(live: seq<bool>, k: nat)
    requires |live| == NR_THREADS && k < |Entries(live)|
    ensures Inode(live, Entries(live)[k].name) == Entries(live)[k].inode
  {
    var t := ThreadEntries(live, NR_THREADS);
    if k < |t| {
      ThreadEntryShape(live, NR_THREADS, k);
      NameResolves(live, t[k].inode);
    }
  }

  lemma NameResolves(live: seq<bool>, i: nat)
    requires |live| == NR_THREADS && i < NR_THREADS && live[i]
    ensures Inode(live, Name(i)) == i
  {
    NameFacts(i);
  }

  lemma {:induction false} ThreadEntryShape(live: seq<bool>, i: nat, k: nat)
    requires i <= |live| == NR_THREADS && k < |ThreadEntries(live, i)|
    ensures var e := ThreadEntries(live, i)[k]; 0 <= e.inode < i && live[e.inode] && e.name == Name(e.inode)
  {
    if k < |ThreadEntries(live, i - 1)| { ThreadEntryShape(live, i - 1, k); }
  }

  /** Thread i is listed under the decimal numeral of i. */
  lemma NameIsDecimal(i: nat)
    requires i < NR_THREADS
    ensures Name(i) == Decimal(i)
  {
    var d := Numeral(i, 10, false, PLAIN);
    assert NumberD(PLAIN, 0, i) == d by { assert "" + d == d; }
    assert "" + d == d && d + "" == d && "" + d + "" == d;
  }

  /** The names the directory lists, from the text alone: the two information
      files, and the canonical numerals of live threads. */
  predicate IsListedName(live: seq<bool>, path: string)
    requires |live| == NR_THREADS
  {
    path in {"cpuinfo", "meminfo"}
    || (Canonical(path) && Denotes(path, 10) < NR_THREADS && live[Denotes(path, 10)])
  }

  lemma ListedIff(live: seq<bool>, path: string)
    requires |live| == NR_THREADS
    ensures (exists k :: 0 <= k < |Entries(live)| && Entries(live)[k].name == path) <==> IsListedName(live, path)
  {
    var es := Entries(live);
    var t := ThreadEntries(live, NR_THREADS);
    forall k | 0 <= k < |es| && es[k].name == path ensures IsListedName(live, path) {
      if k < |t| {
        ThreadEntryShape(live, NR_THREADS, k);
        NameIsDecimal(t[k].inode);
        DecimalIsCanonical(t[k].inode);
      }
    }
    if path in {"cpuinfo", "meminfo"} {
      assert es[|t|].name == "cpuinfo" && es[|t| + 1].name == "meminfo";
    } else if IsListedName(live, path) {
      var i := Denotes(path, 10);
      CanonicalIsDecimal(path);
      NameIsDecimal(i);
      var k := EntryOf(live, NR_THREADS, i);
      assert es[k].name == path;
    }
  }

  /** No entry is listed twice: inodes ascend, threads first. */
  lemma ListedInOrder(live: seq<bool>, k: nat, l: nat)
    requires |live| == NR_THREADS && k < l < |Entries(live)|
    ensures Entries(live)[k].inode < Entries(live)[l].inode
  {
    var t := ThreadEntries(live, NR_THREADS);
    if l < |t| {
      ThreadsInOrder(live, NR_THREADS, k, l);
    } else if k < |t| {
      ThreadEntryShape(live, NR_THREADS, k);
    }
  }

  lemma {:induction false} ThreadsInOrder(live: seq<bool>, i: nat, k: nat, l: nat)
    requires i <= |live| == NR_THREADS && k < l < |ThreadEntries(live, i)|
    ensures ThreadEntries(live, i)[k].inode < ThreadEntries(live, i)[l].inode
  {
    ThreadEntryShape(live, i, k);
    if l < |ThreadEntries(live, i - 1)| {
      ThreadsInOrder(live, i - 1, k, l);
    } else {
      ThreadEntryShape(live, i - 1, k);
    }
  }

  /** Every live thread has its entry. */
  lemma {:induction false} EntryOf(live: seq<bool>, n: nat, i: nat) returns (k: nat)
    requires i < n <= |live| == NR_THREADS && live[i]
    ensures k < |ThreadEntries(live, n)| && ThreadEntries(live, n)[k].name == Name(i)
  {
    if i == n - 1 {
      k := |ThreadEntries(live, i)|;
    } else {
      k := EntryOf(live, n - 1, i);
    }
  }

  /** Lookup takes more than that: a sign, leading zeros, and any text without a
      leading number, which opens thread 0. */
  lemma UnlistedNamesResolve(live: seq<bool>)
    requires |live| == NR_THREADS
    ensures live[0] ==> Inode(live, "x") == 0
    ensures live[1] ==> Inode(live, "+1") == 1
    ensures live[7] ==> Inode(live, "007") == 7
    ensures !IsListedName(live, "x") && !IsListedName(live, "+1") && !IsListedName(live, "007")
  {
    assert Atoi("x") == SignedNumber("x") == 0;
    AtoiSigned('+', "1");
    assert LeadingNumber("1", 0) == 1 && ['+'] + "1" == "+1";
    AtoiPlain("007");
    ZerosSkipped(2, "7");
    assert Repeat('0', 2) + "7" == "007" && LeadingNumber("7", 0) == 7;
    assert !IsDigit("x"[0]) && !IsDigit("+1"[0]) && "007"[0] == '0';
  }
}

/** C strings in fixed buffers, and the strcpy of this C library, which never
    writes the terminating NUL. */
module CString {
  const NUL: char := '\0'

  /** The string a buffer holds: what stands before the first NUL. */
  function Text(buf: seq<char>): (s: string)
    ensures s <= buf && NUL !in s
    ensures |s| < |buf| ==> buf[|s|] == NUL
  {
    if buf == [] || buf[0] == NUL then [] else [buf[0]] + Text(buf[1..])
  }

  lemma {:induction false} TextUnique(buf: seq<char>, s: string)
    requires s <= buf && NUL !in s && |s| < |buf| && buf[|s|] == NUL
    ensures Text(buf) == s
  {
    if s != [] {
      assert s[0] in s;
      forall c | c in s[1..] ensures c != NUL { assert c in s; }
      TextUnique(buf[1..], s[1..]);
    }
  }

  /** What copying src over the start of a buffer leaves there. */
  function Copied(buf: seq<char>, src: string): (r: seq<char>)
    requires |src| <= |buf|
    ensures |r| == |buf|
  {
    src + buf[|src|..]
  }

  /** The copy reads back as the source exactly when the buffer happened to hold a
      NUL right behind it. */
  lemma CopyReadsBack(buf: seq<char>, src: string)
    requires NUL !in src && |src| < |buf|
    ensures Text(Copied(buf, src)) == src <==> buf[|src|] == NUL
  {
    var r := Copied(buf, src);
    assert r[|src|] == buf[|src|];
    if buf[|src|] == NUL { TextUnique(r, src); }
  }

  /** "/a" copied over "/bcd" leaves "/acd". */
  lemma CopyLeavesTail()
    ensures Text(Copied("/bcd\0", "/a")) == "/acd"
  {
    assert Copied("/bcd\0", "/a") == "/acd\0";
    TextUnique("/acd\0", "/acd");
  }

  /** strcpy: copy characters up to the source's NUL, which stays behind. The
      first character is copied before any test, so src must not be empty. */
  method Strcpy(dest: array<char>, src: array<char>, n: nat)
    requires 0 < n < src.Length && src[n] == NUL && (forall i :: 0 <= i < n ==> src[i] != NUL)
    requires dest != src && n <= dest.Length
    modifies dest
    ensures dest[..] == Copied(old(dest[..]), src[..n])
  {
    dest[0] := src[0];
    var i := 1;
    while src[i] != NUL
      invariant 1 <= i <= n
      invariant forall j :: 0 <= j < dest.Length ==> dest[j] == if j < i then src[j] else old(dest[j])
      decreases n - i
    {
      dest[i] := src[i];
      i := i + 1;
    }
  }
}

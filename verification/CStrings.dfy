/** C strings: NUL-terminated runs of bytes inside buffers, and the few string.h routines the server leans on.
    A string in a buffer is described by the Dafny `string` it spells; the NUL is never part of it. */
module CStrings {

  const NUL: char := '\0'

  type CString = s: string | NUL !in s

  datatype Option<+T> = None | Some(value: T)

  /** `buf` holds the NUL-terminated string `t`, starting at index `from`. */
  ghost predicate HoldsAt(buf: array<char>, from: nat, t: string)
    reads buf
  {
    && NUL !in t
    && from + |t| < buf.Length
    && buf[from..from + |t|] == t
    && buf[from + |t|] == NUL
  }

  ghost predicate Holds(buf: array<char>, t: string)
    reads buf
  {
    HoldsAt(buf, 0, t)
  }

  lemma TakeNext<T>(s: seq<T>, i: nat)
    requires i < |s|
    ensures s[..i + 1] == s[..i] + [s[i]]
  {
  }

  method StrLen(buf: array<char>, from: nat, ghost t: string) returns (n: nat)
    requires HoldsAt(buf, from, t)
    ensures n == |t|
  {
    n := 0;
    while buf[from + n] != NUL
      invariant n <= |t|
      decreases |t| - n
    {
      assert n < |t|;
      n := n + 1;
    }
  }

  /** strncat(buf, &c, 1) */
  method Append(buf: array<char>, c: char, ghost t: string)
    requires Holds(buf, t) && c != NUL && |t| + 1 < buf.Length
    modifies buf
    ensures Holds(buf, t + [c])
  {
    var n := StrLen(buf, 0, t);
    buf[n] := c;
    buf[n + 1] := NUL;
  }

  /** strrchr(buf, c): the last index of `c`, or -1. */
  method StrRChr(buf: array<char>, c: char, ghost t: string) returns (k: int)
    requires Holds(buf, t) && c != NUL
    ensures -1 <= k < |t|
    ensures k >= 0 ==> t[k] == c
    ensures forall i | k < i < |t| :: t[i] != c
  {
    var i := 0;
    k := -1;
    while buf[i] != NUL
      invariant -1 <= k < i <= |t|
      invariant k >= 0 ==> t[k] == c
      invariant forall j | k < j < i :: t[j] != c
      decreases |t| - i
    {
      assert i < |t| && t[i] == buf[..|t|][i];
      if buf[i] == c {
        k := i;
      }
      i := i + 1;
    }
  }

  /** strchr(buf + from, c) != NULL */
  method Contains(buf: array<char>, from: nat, c: char, ghost t: string) returns (found: bool)
    requires HoldsAt(buf, from, t) && c != NUL
    ensures found <==> c in t
  {
    var i := 0;
    found := false;
    while buf[from + i] != NUL && !found
      invariant 0 <= i <= |t|
      invariant found <==> c in t[..i]
      decreases |t| - i, if found then 0 else 1
    {
      assert i < |t| && t[i] == buf[from..from + |t|][i];
      found := buf[from + i] == c;
      i := i + 1;
    }
  }

  function Lower(c: char): char {
    if 'A' <= c <= 'Z' then c - 'A' + 'a' else c
  }

  function LowerAll(s: string): (r: string)
    ensures |r| == |s|
    ensures forall i | 0 <= i < |s| :: r[i] == Lower(s[i])
  {
    seq(|s|, i requires 0 <= i < |s| => Lower(s[i]))
  }

  /** strcasecmp(a, b) == 0 */
  predicate EqualIgnoringCase(a: string, b: string) {
    LowerAll(a) == LowerAll(b)
  }

  /** That is so when the two are equally long, and byte by byte are the same or one letter in two cases. */
  lemma IgnoringCaseMeans(a: string, b: string)
    ensures EqualIgnoringCase(a, b) <==>
            |a| == |b| && forall i | 0 <= i < |a| ::
              || a[i] == b[i]
              || ('A' <= a[i] <= 'Z' && b[i] as int == a[i] as int + 32)
              || ('A' <= b[i] <= 'Z' && a[i] as int == b[i] as int + 32)
  {
    if EqualIgnoringCase(a, b) {
      assert forall i | 0 <= i < |a| :: LowerAll(a)[i] == LowerAll(b)[i];
    } else if |a| == |b| {
      assert exists i | 0 <= i < |a| :: LowerAll(a)[i] != LowerAll(b)[i];
    }
  }
}

/** Option, the stock wrapper for a value that may be absent (NULL in the source). */
module Wrappers {
  datatype Option<+T> = None | Some(value: T)
}

/**
 * Bytes and the C character classes the parsers use.
 * A byte is a character below 256; text handled by the parsers is a sequence of bytes.
 * `isspace` and `isdigit` are the ASCII ("C" locale) predicates.
 */
module Bytes {
  type Byte = c: char | c as int < 0x100

  type Text = seq<Byte>

  const NUL: Byte := 0 as char

  /** 2^64: u64 arithmetic is arithmetic modulo U64. */
  const U64: nat := 0x1_0000_0000_0000_0000

  /** isspace in the C locale: space, \t, \n, \v, \f, \r. */
  predicate IsSpace(c: Byte) {
    c == ' ' || (9 <= c as int <= 13)
  }

  /** isdigit: the ten ASCII digits. */
  predicate IsDigit(c: Byte) {
    '0' <= c <= '9'
  }

  /** The content of a C string never contains its terminator. */
  predicate NoNul(s: Text) {
    forall i :: 0 <= i < |s| ==> s[i] != NUL
  }

  /** Number of occurrences of `c` in `s`. */
  function Occ(s: Text, c: Byte): nat {
    multiset(s)[c]
  }

  /** A NUL-terminated buffer: its last byte is the terminator. */
  predicate Terminated(s: Text) {
    |s| > 0 && s[|s| - 1] == NUL
  }

  /** strlen on a buffer that holds a NUL: the index of the first NUL. */
  function StrLen(s: Text): (n: nat)
    requires NUL in s
    ensures n < |s| && s[n] == NUL && NoNul(s[..n])
  {
    if s[0] == NUL then 0 else
      assert NUL in s[1..];
      1 + StrLen(s[1..])
  }

  /** The C string stored at the start of a buffer: the bytes before the first NUL. */
  function CStr(s: Text): (r: Text)
    requires NUL in s
    ensures NoNul(r) && |r| < |s| && r == s[..|r|] && s[|r|] == NUL
  {
    s[..StrLen(s)]
  }

  /** The first NUL is the only NUL with no NUL before it. */
  lemma StrLenUnique(s: Text, n: nat)
    requires n < |s| && s[n] == NUL && NoNul(s[..n])
    ensures StrLen(s) == n
  {
    var m := StrLen(s);
    assert forall i :: 0 <= i < m ==> s[i] != NUL;
    assert forall i :: 0 <= i < n ==> s[i] != NUL;
  }

  /** The bytes of `a` up to its first NUL are `s`. */
  ghost predicate HoldsCStr(a: array<Byte>, s: Text)
    reads a
  {
    |s| < a.Length && a[|s|] == NUL && forall i :: 0 <= i < |s| ==> a[i] == s[i] && s[i] != NUL
  }

  lemma CStrOfArray(a: array<Byte>)
    requires NUL in a[..]
    ensures HoldsCStr(a, CStr(a[..]))
  {
    var s := CStr(a[..]);
    assert forall i :: 0 <= i < |s| ==> a[..][i] == s[i];
  }

  /** Slicing facts, proved once on a generic sequence. */
  lemma DropDrop<T>(s: seq<T>, a: nat, b: nat)
    requires a + b <= |s|
    ensures s[a..][b..] == s[a + b..]
  {
  }

  lemma DropTake<T>(s: seq<T>, a: nat, n: nat)
    requires a + n <= |s|
    ensures s[a..][..n] == s[a .. a + n] && s[a..][n..] == s[a + n..]
  {
  }

  lemma SplitThree<T>(s: seq<T>, k: nat, n: nat)
    requires k + n <= |s|
    ensures s == s[..k] + s[k .. k + n] + s[k + n..]
  {
  }

  lemma OccSplit(a: Text, b: Text, c: Byte)
    ensures Occ(a + b, c) == Occ(a, c) + Occ(b, c)
  {
    assert multiset(a + b) == multiset(a) + multiset(b);
  }
}

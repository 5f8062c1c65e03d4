/** Octets, octet strings and the few C library string functions the programs rely on. */
module Octets {
  newtype byte = b: int | 0 <= b < 256
  type bytes = seq<byte>

  const NUL: byte := 0
  const HT: byte := 9
  const LF: byte := 10
  const CR: byte := 13
  const SP: byte := 32
  const HASH: byte := 35
  const COLON: byte := 58
  const SEMI: byte := 59
  const EQUALS: byte := 61
  const BACKSLASH: byte := 92

  datatype Option<+T> = None | Some(value: T)

  /** The octets of an ASCII literal. */
  function Ascii(s: string): (r: bytes)
    requires forall i :: 0 <= i < |s| ==> s[i] < 128 as char
    ensures |r| == |s|
  {
    seq(|s|, i requires 0 <= i < |s| => s[i] as byte)
  }

  /** memchr(3) and strchr(3): the offset of the first `c`, or the length if there is none. */
  function Span(s: bytes, c: byte): (n: nat)
    ensures n <= |s|
    ensures c !in s[..n]
    ensures n < |s| ==> s[n] == c
  {
    if s == [] || s[0] == c then 0 else
      var n := 1 + Span(s[1..], c);
      assert s[..n] == [s[0]] + s[1..][..n - 1];
      n
  }

  /** Span is the only offset with its defining property. */
  lemma SpanUnique(s: bytes, c: byte, n: nat)
    requires n <= |s| && c !in s[..n] && (n < |s| ==> s[n] == c)
    ensures Span(s, c) == n
  {
    var m := Span(s, c);
    assert forall i :: 0 <= i < n ==> s[i] in s[..n];
    assert forall i :: 0 <= i < m ==> s[i] in s[..m];
  }

  /** The C string that starts at the head of a buffer. */
  function CStr(s: bytes): (r: bytes)
    ensures NUL !in r && |r| <= |s|
  {
    s[..Span(s, NUL)]
  }

  lemma CStrOf(s: bytes, n: nat)
    requires n < |s| && NUL !in s[..n] && s[n] == NUL
    ensures CStr(s) == s[..n]
  {
    SpanUnique(s, NUL, n);
  }

  /** tolower(3) in the C locale. */
  function Lower(c: byte): byte {
    if 65 <= c <= 90 then c + 32 else c
  }

  /** strcasecmp(3) == 0. */
  predicate EqIgnoreCase(a: bytes, b: bytes) {
    |a| == |b| && forall i :: 0 <= i < |a| ==> Lower(a[i]) == Lower(b[i])
  }

  /** isspace(3) in the C locale. */
  predicate IsSpace(c: byte) {
    c == SP || 9 <= c <= 13
  }

  /** isdigit(3). */
  predicate IsDigit(c: byte) {
    48 <= c <= 57
  }

  /** The octets by their characters. */
  lemma Characters()
    ensures [NUL, HT, LF, CR, SP] == Ascii("\0\t\n\r ")
    ensures [HASH, COLON, SEMI, EQUALS, BACKSLASH] == Ascii("#:;=\\")
  {
  }

  /** White space, letters and digits of the C locale. */
  lemma Classes(c: byte)
    ensures IsSpace(c) <==> c in [9, 10, 11, 12, 13, 32]
    ensures IsDigit(c) <==> '0' as int <= c as int <= '9' as int
    ensures Lower(c) as int == if 'A' as int <= c as int <= 'Z' as int then c as int - 'A' as int + 'a' as int else c as int
  {
  }

  function Zeros(n: nat): (r: bytes)
    ensures |r| == n && forall i :: 0 <= i < n ==> r[i] == 0
  {
    seq(n, i => 0)
  }

  /** memcpy(3) into the middle of an array. */
  method CopyIn(dst: array<byte>, at: nat, src: bytes)
    requires at + |src| <= dst.Length
    modifies dst
    ensures dst[..] == old(dst[..at]) + src + old(dst[at + |src|..])
  {
    forall i | 0 <= i < |src| {
      dst[at + i] := src[i];
    }
  }
}

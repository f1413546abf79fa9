/** Raw memory as the C++ side sees it: bytes, C strings and `memcpy`. */
module Bytes {

  /** One octet of a buffer (`uint8_t` / `char`). */
  newtype byte = b: int | 0 <= b < 0x100

  /** The terminator of a C string. */
  const NUL: byte := 0

  /** Every character of `s` is 7-bit ASCII, so a C++ string literal stores it as one byte. */
  ghost predicate IsAscii(s: string) {
    forall i | 0 <= i < |s| :: s[i] as int < 128
  }

  /** The bytes a C++ string literal made of ASCII characters occupies (without its terminator). */
  function Ascii(s: string): (r: seq<byte>)
    requires IsAscii(s)
    ensures |r| == |s|
    ensures forall i | 0 <= i < |s| :: r[i] as int == s[i] as int
  {
    seq(|s|, i requires 0 <= i < |s| => s[i] as int as byte)
  }

  /** No byte of `b` is a terminator. */
  predicate NulFree(b: seq<byte>) {
    forall i | 0 <= i < |b| :: b[i] != NUL
  }

  /** The `length() + 1` bytes `std::string::c_str()` exposes: the contents, then one NUL. */
  function CStr(s: seq<byte>): (r: seq<byte>)
    ensures |r| == |s| + 1
    ensures r[|s|] == NUL
    ensures r[..|s|] == s
  {
    s + [NUL]
  }

  /** `strlen`: the position of the first NUL, or the whole length when there is none. */
  function StrLen(b: seq<byte>): (n: nat)
    ensures n <= |b|
    ensures NulFree(b[..n])
    ensures n < |b| ==> b[n] == NUL
  {
    if b == [] || b[0] == NUL then 0 else 1 + StrLen(b[1..])
  }

  /** `memcpy(dst, src, n)`, copying one byte at a time from the front. */
  function Memcpy(dst: seq<byte>, src: seq<byte>, n: nat): (r: seq<byte>)
    requires n <= |dst| && n <= |src|
    ensures |r| == |dst|
    ensures forall i | 0 <= i < n :: r[i] == src[i]
    ensures forall i | n <= i < |dst| :: r[i] == dst[i]
    decreases n
  {
    if n == 0 then dst else Memcpy(dst, src, n - 1)[n - 1 := src[n - 1]]
  }

  /** The first NUL of a concatenation: a NUL-free head is skipped whole. */
  lemma {:induction false} StrLenAppend(a: seq<byte>, b: seq<byte>)
    requires NulFree(a)
    ensures StrLen(a + b) == |a| + StrLen(b)
    decreases |a|
  {
    if a == [] {
      assert a + b == b;
    } else {
      assert (a + b)[0] == a[0];
      assert (a + b)[1..] == a[1..] + b;
      StrLenAppend(a[1..], b);
    }
  }

  /** A C string reads back exactly its contents when they hold no NUL. */
  lemma CStrReadsBack(s: seq<byte>)
    requires NulFree(s)
    ensures StrLen(CStr(s)) == |s|
  {
    StrLenAppend(s, [NUL]);
  }

  /** After `memcpy`, the first `n` bytes are the source's and the rest are the destination's. */
  lemma MemcpySlices(dst: seq<byte>, src: seq<byte>, n: nat)
    requires n <= |dst| && n <= |src|
    ensures Memcpy(dst, src, n)[..n] == src[..n]
    ensures Memcpy(dst, src, n)[n..] == dst[n..]
  {
  }

  /** `strlen` is fixed by a NUL-free prefix followed by a NUL. */
  lemma StrLenPrefix(b: seq<byte>, n: nat)
    requires n < |b| && NulFree(b[..n]) && b[n] == NUL
    ensures StrLen(b) == n
  {
  }

  /** Appending a terminator does not change where a C string ends, embedded NULs or not. */
  lemma StrLenTerminated(s: seq<byte>)
    ensures StrLen(CStr(s)) == StrLen(s)
  {
    assert CStr(s)[..StrLen(s)] == s[..StrLen(s)];
  }
}

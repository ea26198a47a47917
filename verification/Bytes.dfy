/** Bytes, C strings and the little-endian 32-bit integers that page headers and records hold. */
module Bytes {

  type byte = b: int | 0 <= b < 256

  /** The contents of a NUL-terminated C string, without its terminator. */
  ghost predicate IsCString(s: seq<byte>) {
    forall i :: 0 <= i < |s| ==> s[i] != 0
  }

  function Zeros(n: nat): (s: seq<byte>)
    ensures |s| == n && forall i :: 0 <= i < n ==> s[i] == 0
  {
    seq(n, _ => 0)
  }

  /** memcpy(buf, &n, sizeof(int)) on a little-endian machine. */
  function Le32(n: nat): (s: seq<byte>)
    requires n < 0x1_0000_0000
    ensures |s| == 4
  {
    [n % 256, n / 256 % 256, n / 65536 % 256, n / 16777216]
  }

  /** memcpy(&n, buf, sizeof(int)), read as an unsigned value. */
  function FromLe32(s: seq<byte>): (n: nat)
    requires |s| >= 4
    ensures n < 0x1_0000_0000
  {
    var a: int, b: int, c: int, d: int := s[0], s[1], s[2], s[3];
    a + 256 * b + 65536 * c + 16777216 * d
  }

  /** The low byte comes first. */
  lemma Le32First(n: nat)
    requires n < 0x1_0000_0000
    ensures Le32(n)[0] as int == n % 256 && (n < 256 ==> Le32(n) == [n, 0, 0, 0])
  {
  }

  lemma Le32RoundTrip(n: nat)
    requires n < 0x1_0000_0000
    ensures FromLe32(Le32(n)) == n
  {
    var a, b, c := n / 256, n / 65536, n / 16777216;
    assert b == a / 256 && c == b / 256;
  }

  /** What a C string function sees of some bytes: everything before the first NUL. */
  function UntilNul(s: seq<byte>): (r: seq<byte>)
    ensures r <= s && IsCString(r) && (|r| < |s| ==> s[|r|] == 0)
  {
    if s == [] || s[0] == 0 then [] else [s[0]] + UntilNul(s[1..])
  }

  lemma {:induction false} UntilNulCString(s: seq<byte>)
    requires IsCString(s)
    ensures UntilNul(s) == s
  {
    if s == [] {
    } else {
      UntilNulCString(s[1..]);
    }
  }
}

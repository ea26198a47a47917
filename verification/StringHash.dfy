/** The string hash of the index: multiply by 33 and add, in 32 bits. */
module StringHash {
  import opened Bytes
  import opened Arithmetic

  /** A char read into an int; plain char is signed. */
  function CharValue(b: byte): (c: int) {
    if b < 128 then b else b - 256
  }

  /** It is the signed value with the same low eight bits. */
  lemma CharValueIs(b: byte)
    ensures -128 <= CharValue(b) < 128 && (CharValue(b) - b) % 256 == 0
  {
  }

  function Power33(n: nat): (p: nat) {
    if n == 0 then 1 else 33 * Power33(n - 1)
  }

  /** The polynomial in 33 with the characters as coefficients. */
  function Polynomial(s: seq<byte>): (p: int) {
    if s == [] then 0 else 33 * Polynomial(s[..|s| - 1]) + CharValue(s[|s| - 1])
  }

  /** Reducing before a step or after it is the same. */
  lemma ReduceOnce(exact: int, h: nat, c: int)
    requires h == exact % U32
    ensures (h * 32 + h + c) % U32 == (33 * exact + c) % U32
  {
    var q := exact / U32;
    assert exact == U32 * q + h;
    Shift(h * 32 + h + c, 33 * q);
  }

  lemma Shift(a: int, k: int)
    ensures (a + U32 * k) % U32 == a % U32
  {
  }

  /**
   hash: ((h << 5) + h) + c per character, wrapping. The wraps on the way do not matter:
   the result is the polynomial with leading coefficient 5381, reduced once.
   */
  method Hash(str: seq<byte>) returns (h: nat)
    ensures h < U32 && h == (5381 * Power33(|str|) + Polynomial(str)) % U32
  {
    h := 5381;
    ghost var exact: int := 5381;
    for i := 0 to |str|
      invariant h < U32 && h == exact % U32
      invariant exact == 5381 * Power33(i) + Polynomial(str[..i])
    {
      assert str[..i + 1][..i] == str[..i];
      ReduceOnce(exact, h, CharValue(str[i]));
      h := (h * 32 + h + CharValue(str[i])) % U32;
      exact := 33 * exact + CharValue(str[i]);
    }
    assert str[..|str|] == str;
  }
}

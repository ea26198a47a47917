/** The data page layout: key length, value length, key bytes, value bytes. */
module Record {
  import opened Bytes

  /** A key/value couple as set_keyval receives it: two C strings whose lengths fit a C int. */
  datatype Couple = Couple(key: seq<byte>, val: seq<byte>) {
    function Size(): nat { 8 + |key| + |val| }

    ghost predicate WellFormed() {
      IsCString(key) && IsCString(val) && Size() < 0x8000_0000
    }

    /** The bytes that set_keyval puts at the start of the page. */
    function Image(): (s: seq<byte>)
      requires Size() < 0x8000_0000
      ensures |s| == Size()
    {
      Le32(|key|) + Le32(|val|) + key + val
    }
  }

  function Encode(c: Couple, pageSize: nat): (page: seq<byte>)
    requires c.Size() <= pageSize < 0x8000_0000
    ensures |page| == pageSize && forall i :: c.Size() <= i < pageSize ==> page[i] == 0
  {
    c.Image() + Zeros(pageSize - c.Size())
  }

  /** A page starts with the record of c; what follows the record is not constrained. */
  ghost predicate Holds(page: seq<byte>, c: Couple) {
    c.WellFormed() && |page| >= c.Size() && page[..c.Size()] == c.Image()
  }

  function KeyLen(page: seq<byte>): (n: nat) requires |page| >= 8 { FromLe32(page[..4]) }

  function ValLen(page: seq<byte>): (n: nat) requires |page| >= 8 { FromLe32(page[4..8]) }

  lemma EncodeHolds(c: Couple, pageSize: nat)
    requires c.WellFormed() && c.Size() <= pageSize < 0x8000_0000
    ensures Holds(Encode(c, pageSize), c)
  {
    assert Encode(c, pageSize)[..c.Size()] == c.Image();
  }

  /** Reading the two lengths back and cutting the page there gives exactly the couple. */
  lemma HoldsDecodes(page: seq<byte>, c: Couple)
    requires Holds(page, c)
    ensures |page| >= 8 + |c.key| + |c.val| && KeyLen(page) == |c.key| && ValLen(page) == |c.val|
    ensures page[8..8 + KeyLen(page)] == c.key
    ensures page[8 + KeyLen(page)..8 + KeyLen(page) + ValLen(page)] == c.val
  {
    hide FromLe32;
    var s, p := c.Image(), page[..c.Size()];
    assert s[..4] == Le32(|c.key|) && s[4..8] == Le32(|c.val|);
    assert s[8..8 + |c.key|] == c.key && s[8 + |c.key|..] == c.val;
    assert page[..4] == p[..4] && page[4..8] == p[4..8];
    assert page[8..8 + |c.key|] == p[8..8 + |c.key|] && page[8 + |c.key|..c.Size()] == p[8 + |c.key|..];
    Le32RoundTrip(|c.key|);
    Le32RoundTrip(|c.val|);
  }

  lemma HoldsUnique(page: seq<byte>, c: Couple, d: Couple)
    requires Holds(page, c) && Holds(page, d)
    ensures c == d
  {
    HoldsDecodes(page, c);
    HoldsDecodes(page, d);
  }

  /** Past its two lengths a record has no NUL byte; the bytes of its key length are small. */
  lemma ImageBytes(c: Couple)
    requires c.WellFormed()
    ensures forall r :: 8 <= r < c.Size() ==> c.Image()[r] == (c.key + c.val)[r - 8] && c.Image()[r] != 0
    ensures |c.key| < 256 ==> c.Image()[0] == |c.key| && c.Image()[1] == 0
  {
  }

  /** Copied as a C string, the key of a record is the whole key. */
  lemma KeyIsCString(c: Couple)
    requires c.WellFormed()
    ensures UntilNul(c.key) == c.key
  {
    UntilNulCString(c.key);
  }
}

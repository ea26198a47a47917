/**
 The copy buffer of gc. Pages of pageSize bytes are read into it, and written back from
 it, at a stride of pages_per_block bytes, so every page but the last read is overlaid
 by its successor from byte `stride` on.
 */
module StrideBuffer {
  import opened Bytes
  import opened Addressing

  function Blit(buf: seq<byte>, off: nat, data: seq<byte>): (r: seq<byte>)
    requires off + |data| <= |buf|
    ensures |r| == |buf|
    ensures forall i :: 0 <= i < |buf| ==> r[i] == if off <= i < off + |data| then data[i - off] else buf[i]
  {
    buf[..off] + data + buf[off + |data|..]
  }

  /** A record as bytes: two lengths in 8 bytes, then the key and the value, both free of NULs. */
  datatype Raw = Raw(bytes: seq<byte>, keyLen: nat) {
    ghost predicate Valid() {
      && 8 + keyLen <= |bytes|
      && bytes[1] == 0
      && forall r :: 8 <= r < |bytes| ==> bytes[r] != 0
    }
  }

  /** The record stands in the buffer from byte off on. */
  ghost predicate Stands(buf: seq<byte>, off: nat, rec: Raw) {
    off + |rec.bytes| <= |buf| && forall r :: 0 <= r < |rec.bytes| ==> buf[off + r] == rec.bytes[r]
  }

  // ----- the read phase -----

  ghost predicate Fits(pages: seq<seq<byte>>, stride: nat, pageSize: nat, size: nat) {
    forall i :: 0 <= i < |pages| ==> |pages[i]| == pageSize && Off(i, stride) + pageSize <= size
  }

  function ReadAll(pages: seq<seq<byte>>, stride: nat, pageSize: nat, size: nat): (buf: seq<byte>)
    requires Fits(pages, stride, pageSize, size)
    ensures |buf| == size
  {
    if pages == [] then Zeros(size)
    else
      var n := |pages| - 1;
      Blit(ReadAll(pages[..n], stride, pageSize, size), Off(n, stride), pages[n])
  }

  /** How much of page i is still there after the read phase. */
  function Kept(n: nat, i: nat, stride: nat, pageSize: nat): (k: nat) {
    if i + 1 == n then pageSize else stride
  }

  lemma {:induction false} ReadAllByte(pages: seq<seq<byte>>, stride: nat, pageSize: nat, size: nat, i: nat, r: nat)
    requires stride <= pageSize
    requires Fits(pages, stride, pageSize, size)
    requires i < |pages| && r < Kept(|pages|, i, stride, pageSize)
    ensures ReadAll(pages, stride, pageSize, size)[Off(i, stride) + r] == pages[i][r]
    decreases |pages|
  {
    var n := |pages| - 1;
    if i == n {
    } else {
      OffStep(i, n, stride);
      ReadAllByte(pages[..n], stride, pageSize, size, i, r);
    }
  }

  // ----- the write phase -----

  /** strncpy of a region onto itself: from its first NUL on it becomes zeros. */
  function Padded(s: seq<byte>): (r: seq<byte>)
    ensures |r| == |s|
    ensures forall i :: 0 <= i < |s| && r[i] != 0 ==> r[i] == s[i]
  {
    if s == [] then [] else if s[0] == 0 then Zeros(|s|) else [s[0]] + Padded(s[1..])
  }

  lemma {:induction false} PaddedIs(s: seq<byte>)
    ensures Padded(s) == UntilNul(s) + Zeros(|s| - |UntilNul(s)|)
  {
    if s == [] || s[0] == 0 {
      assert UntilNul(s) == [];
      assert [] + Zeros(|s|) == Zeros(|s|);
    } else {
      var rest := s[1..];
      PaddedIs(rest);
      var z := Zeros(|rest| - |UntilNul(rest)|);
      assert UntilNul(s) == [s[0]] + UntilNul(rest) && Padded(s) == [s[0]] + Padded(rest);
      assert [s[0]] + (UntilNul(rest) + z) == UntilNul(s) + z;
    }
  }

  lemma {:induction false} PaddedCString(s: seq<byte>)
    requires IsCString(s)
    ensures Padded(s) == s
  {
    if s == [] {
    } else {
      PaddedCString(s[1..]);
    }
  }

  /** The two lengths stored again, the key and the value each copied onto themselves. */
  function Refresh(region: seq<byte>, lens: seq<byte>, keyLen: nat): (r: seq<byte>)
    requires |lens| == 8 && 8 + keyLen <= |region|
    ensures |r| == |region|
    ensures forall i :: 0 <= i < 8 ==> r[i] == lens[i]
    ensures forall i :: 8 <= i < |r| && r[i] != 0 ==> r[i] == region[i]
  {
    lens + Padded(region[8..8 + keyLen]) + Padded(region[8 + keyLen..])
  }

  /** Part by part: each string ends at its first NUL, and zeros follow. */
  lemma RefreshParts(region: seq<byte>, lens: seq<byte>, keyLen: nat)
    requires |lens| == 8 && 8 + keyLen <= |region|
    ensures var r, key, val := Refresh(region, lens, keyLen), region[8..8 + keyLen], region[8 + keyLen..];
            && r[..8] == lens
            && r[8..8 + keyLen] == UntilNul(key) + Zeros(|key| - |UntilNul(key)|)
            && r[8 + keyLen..] == UntilNul(val) + Zeros(|val| - |UntilNul(val)|)
  {
    var key, val := region[8..8 + keyLen], region[8 + keyLen..];
    PaddedIs(key);
    PaddedIs(val);
    var r := Refresh(region, lens, keyLen);
    assert r[8..8 + keyLen] == Padded(key) && r[8 + keyLen..] == Padded(val);
  }

  /** Refreshing yields the record exactly when it was there already. */
  lemma RefreshIff(region: seq<byte>, rec: Raw)
    requires rec.Valid() && |region| == |rec.bytes| && region[..8] == rec.bytes[..8]
    ensures Refresh(region, rec.bytes[..8], rec.keyLen) == rec.bytes <==> region == rec.bytes
  {
    var s, r, k := rec.bytes, Refresh(region, rec.bytes[..8], rec.keyLen), 8 + rec.keyLen;
    if region == s {
      PaddedCString(region[8..k]);
      PaddedCString(region[k..]);
      assert s == s[..8] + s[8..k] + s[k..];
    }
    if r == s {
      forall i | 0 <= i < |s| ensures region[i] == s[i] {
        if i < 8 {
          assert region[i] == region[..8][i] && s[i] == s[..8][i];
        }
      }
    }
  }

  /** The stores into the buffer that precede the write of one record. */
  function Touch(buf: seq<byte>, off: nat, lens: seq<byte>, keyLen: nat, size: nat): (r: seq<byte>)
    requires |lens| == 8 && 8 + keyLen <= size && off + size <= |buf|
    ensures |r| == |buf|
  {
    Blit(buf, off, Refresh(buf[off..off + size], lens, keyLen))
  }

  function TouchRec(buf: seq<byte>, off: nat, rec: Raw): (r: seq<byte>)
    requires 8 + rec.keyLen <= |rec.bytes| && off + |rec.bytes| <= |buf|
    ensures |r| == |buf|
  {
    Touch(buf, off, rec.bytes[..8], rec.keyLen, |rec.bytes|)
  }

  lemma StandsRegion(buf: seq<byte>, off: nat, rec: Raw)
    requires off + |rec.bytes| <= |buf|
    ensures Stands(buf, off, rec) <==> buf[off..off + |rec.bytes|] == rec.bytes
  {
    var region := buf[off..off + |rec.bytes|];
    assert forall r :: 0 <= r < |rec.bytes| ==> region[r] == buf[off + r];
  }

  lemma BlitRegion(buf: seq<byte>, off: nat, data: seq<byte>)
    requires off + |data| <= |buf|
    ensures Blit(buf, off, data)[off..off + |data|] == data
    ensures Blit(buf, off, buf[off..off + |data|]) == buf
  {
  }

  /** Writing a record back leaves it intact iff the buffer still held it, and then changes nothing. */
  lemma TouchIff(buf: seq<byte>, off: nat, rec: Raw)
    requires rec.Valid() && off + |rec.bytes| <= |buf|
    requires forall r :: 0 <= r < 8 ==> buf[off + r] == rec.bytes[r]
    ensures Stands(buf, off, rec) <==> Stands(TouchRec(buf, off, rec), off, rec)
    ensures Stands(buf, off, rec) ==> TouchRec(buf, off, rec) == buf
  {
    hide Refresh, Blit, Stands;
    var n := |rec.bytes|;
    var region, t := buf[off..off + n], TouchRec(buf, off, rec);
    assert region[..8] == rec.bytes[..8];
    RefreshIff(region, rec);
    var again := Refresh(region, rec.bytes[..8], rec.keyLen);
    assert t == Blit(buf, off, again);
    BlitRegion(buf, off, again);
    BlitRegion(buf, off, region);
    StandsRegion(buf, off, rec);
    StandsRegion(t, off, rec);
  }

  ghost predicate Sized(buf: seq<byte>, recs: seq<Raw>, stride: nat, pageSize: nat) {
    forall j :: 0 <= j < |recs| ==>
      recs[j].Valid() && |recs[j].bytes| <= pageSize && Off(j, stride) + pageSize <= |buf|
  }

  /** From record i on, every page handed to write_page still starts with its record. */
  ghost predicate Intact(buf: seq<byte>, recs: seq<Raw>, i: nat, stride: nat, pageSize: nat)
    requires i <= |recs| && Sized(buf, recs, stride, pageSize)
    decreases |recs| - i
  {
    i == |recs| ||
    var t := TouchRec(buf, Off(i, stride), recs[i]);
    Stands(t, Off(i, stride), recs[i]) && Intact(t, recs, i + 1, stride, pageSize)
  }

  // ----- which records come through -----

  /** Record i outlives the overlay: it ends before its successor, or its one byte too many is matched by luck. */
  predicate Survives(recs: seq<Raw>, i: nat, stride: nat)
    requires i < |recs|
  {
    || i + 1 == |recs|
    || |recs[i].bytes| <= stride
    || (|recs[i].bytes| == stride + 1 && recs[i + 1].bytes != [] && recs[i].bytes[stride] == recs[i + 1].bytes[0])
  }

  ghost predicate AllSurvive(recs: seq<Raw>, i: nat, stride: nat)
    requires i <= |recs|
    decreases |recs| - i
  {
    i == |recs| || (Survives(recs, i, stride) && AllSurvive(recs, i + 1, stride))
  }

  lemma {:induction false} AllSurviveAt(recs: seq<Raw>, i: nat, stride: nat, j: nat)
    requires i <= j < |recs| && AllSurvive(recs, i, stride)
    ensures Survives(recs, j, stride)
    decreases |recs| - i
  {
    if i == j {
    } else {
      AllSurviveAt(recs, i + 1, stride, j);
    }
  }

  /** Records that all fit into the stride survive. */
  lemma {:induction false} ShortSurvive(recs: seq<Raw>, i: nat, stride: nat)
    requires i <= |recs|
    requires forall j :: i <= j < |recs| ==> |recs[j].bytes| <= stride
    ensures AllSurvive(recs, i, stride)
    decreases |recs| - i
  {
    if i == |recs| {
    } else {
      ShortSurvive(recs, i + 1, stride);
    }
  }

  ghost predicate Readable(pages: seq<seq<byte>>, recs: seq<Raw>, stride: nat, pageSize: nat, size: nat)
    ensures Readable(pages, recs, stride, pageSize, size) ==> Fits(pages, stride, pageSize, size)
  {
    && |pages| == |recs|
    && 8 <= stride <= pageSize
    && forall i :: 0 <= i < |recs| ==>
         |pages[i]| == pageSize && recs[i].Valid() && recs[i].bytes <= pages[i] && Off(i, stride) + pageSize <= size
  }

  /** Stride i of the buffer starts with the head of record i and goes on with the head of record i + 1. */
  ghost predicate Overlaid(buf: seq<byte>, recs: seq<Raw>, i: nat, stride: nat, pageSize: nat)
    requires i < |recs| && Sized(buf, recs, stride, pageSize)
  {
    var off := Off(i, stride);
    && (forall r :: 0 <= r < Kept(|recs|, i, stride, pageSize) && r < |recs[i].bytes| ==> buf[off + r] == recs[i].bytes[r])
    && (i + 1 < |recs| && stride < pageSize ==> buf[off + stride] == recs[i + 1].bytes[0])
    && (i + 1 < |recs| && stride + 1 < pageSize ==> buf[off + stride + 1] == 0)
  }

  lemma OwnBytes(pages: seq<seq<byte>>, recs: seq<Raw>, i: nat, stride: nat, pageSize: nat, size: nat, buf: seq<byte>)
    requires Readable(pages, recs, stride, pageSize, size) && i < |recs|
    requires buf == ReadAll(pages, stride, pageSize, size)
    ensures recs[i].Valid() && |recs[i].bytes| <= pageSize && Off(i, stride) + pageSize <= |buf|
    ensures forall r :: 0 <= r < Kept(|recs|, i, stride, pageSize) && r < |recs[i].bytes| ==>
              buf[Off(i, stride) + r] == recs[i].bytes[r]
  {
    hide ReadAll, Off;
    forall r | 0 <= r < Kept(|recs|, i, stride, pageSize) && r < |recs[i].bytes|
      ensures buf[Off(i, stride) + r] == recs[i].bytes[r]
    {
      ReadAllByte(pages, stride, pageSize, size, i, r);
    }
  }

  lemma ReadAllOverlays(pages: seq<seq<byte>>, recs: seq<Raw>, i: nat, stride: nat, pageSize: nat, size: nat, buf: seq<byte>)
    requires Readable(pages, recs, stride, pageSize, size) && i < |recs|
    requires buf == ReadAll(pages, stride, pageSize, size)
    ensures Sized(buf, recs, stride, pageSize) && Overlaid(buf, recs, i, stride, pageSize)
  {
    hide ReadAll;
    OwnBytes(pages, recs, i, stride, pageSize, size, buf);
    if i + 1 < |recs| {
      OwnBytes(pages, recs, i + 1, stride, pageSize, size, buf);
      OffStep(i, i + 1, stride);
      assert buf[Off(i + 1, stride) + 0] == recs[i + 1].bytes[0];
      assert buf[Off(i + 1, stride) + 1] == recs[i + 1].bytes[1];
    }
  }

  /** After the read phase the buffer holds record i iff the record survives the overlay. */
  lemma StandsIff(buf: seq<byte>, recs: seq<Raw>, i: nat, stride: nat, pageSize: nat)
    requires 8 <= stride <= pageSize && i < |recs| && Sized(buf, recs, stride, pageSize) && Overlaid(buf, recs, i, stride, pageSize)
    ensures Stands(buf, Off(i, stride), recs[i]) <==> Survives(recs, i, stride)
  {
    var off, c := Off(i, stride), recs[i].bytes;
    if i + 1 < |recs| && |c| > stride {
      if |c| > stride + 1 {
        assert buf[off + (stride + 1)] == 0 != c[stride + 1];
      } else {
        assert Stands(buf, off, recs[i]) ==> buf[off + stride] == c[stride];
      }
    }
  }

  /** Record i of the write phase: it is written intact iff it survives, and then the buffer is left as it was. */
  lemma TouchOverlaid(buf: seq<byte>, recs: seq<Raw>, i: nat, stride: nat, pageSize: nat)
    requires 8 <= stride <= pageSize && i < |recs| && Sized(buf, recs, stride, pageSize) && Overlaid(buf, recs, i, stride, pageSize)
    ensures var t := TouchRec(buf, Off(i, stride), recs[i]);
            && (Stands(t, Off(i, stride), recs[i]) <==> Survives(recs, i, stride))
            && (Survives(recs, i, stride) ==> t == buf)
  {
    hide TouchRec, Stands, Survives, Off;
    StandsIff(buf, recs, i, stride, pageSize);
    assert forall r :: 0 <= r < 8 ==> buf[Off(i, stride) + r] == recs[i].bytes[r];
    TouchIff(buf, Off(i, stride), recs[i]);
  }

  ghost predicate AllOverlaid(buf: seq<byte>, recs: seq<Raw>, stride: nat, pageSize: nat) {
    Sized(buf, recs, stride, pageSize) && forall j :: 0 <= j < |recs| ==> Overlaid(buf, recs, j, stride, pageSize)
  }

  lemma IntactStep(buf: seq<byte>, recs: seq<Raw>, i: nat, stride: nat, pageSize: nat)
    requires 8 <= stride <= pageSize && i < |recs| && AllOverlaid(buf, recs, stride, pageSize)
    ensures Intact(buf, recs, i, stride, pageSize) <==> Survives(recs, i, stride) && Intact(buf, recs, i + 1, stride, pageSize)
  {
    TouchOverlaid(buf, recs, i, stride, pageSize);
  }

  lemma {:induction false} SurvivorsIntact(buf: seq<byte>, recs: seq<Raw>, i: nat, stride: nat, pageSize: nat)
    requires 8 <= stride <= pageSize && i <= |recs| && AllOverlaid(buf, recs, stride, pageSize)
    requires AllSurvive(recs, i, stride)
    ensures Intact(buf, recs, i, stride, pageSize)
    decreases |recs| - i
  {
    hide TouchRec, Overlaid, Stands, Survives;
    if i == |recs| {
    } else {
      SurvivorsIntact(buf, recs, i + 1, stride, pageSize);
      IntactStep(buf, recs, i, stride, pageSize);
    }
  }

  lemma {:induction false} IntactSurvive(buf: seq<byte>, recs: seq<Raw>, i: nat, stride: nat, pageSize: nat)
    requires 8 <= stride <= pageSize && i <= |recs| && AllOverlaid(buf, recs, stride, pageSize)
    requires Intact(buf, recs, i, stride, pageSize)
    ensures AllSurvive(recs, i, stride)
    decreases |recs| - i
  {
    hide Intact, Overlaid, Survives;
    if i == |recs| {
    } else {
      IntactStep(buf, recs, i, stride, pageSize);
      IntactSurvive(buf, recs, i + 1, stride, pageSize);
    }
  }

  /**
   The copy through the buffer gives back every record iff each one survives the overlay.
   Together with Survives this is the exact limit of the pages_per_block stride.
   */
  lemma CopyExactIff(pages: seq<seq<byte>>, recs: seq<Raw>, stride: nat, pageSize: nat, size: nat)
    requires Readable(pages, recs, stride, pageSize, size)
    ensures AllOverlaid(ReadAll(pages, stride, pageSize, size), recs, stride, pageSize)
    ensures Intact(ReadAll(pages, stride, pageSize, size), recs, 0, stride, pageSize) <==> AllSurvive(recs, 0, stride)
  {
    var buf := ReadAll(pages, stride, pageSize, size);
    forall j | 0 <= j < |recs| ensures Overlaid(buf, recs, j, stride, pageSize) {
      ReadAllOverlays(pages, recs, j, stride, pageSize, size, buf);
    }
    if AllSurvive(recs, 0, stride) {
      SurvivorsIntact(buf, recs, 0, stride, pageSize);
    }
    if Intact(buf, recs, 0, stride, pageSize) {
      IntactSurvive(buf, recs, 0, stride, pageSize);
    }
  }
}

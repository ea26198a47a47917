/**
 What becomes of records that do not survive the copy buffer of gc. A record of at least
 two bytes more than the stride is lost for good; one byte more may go well, or may even
 turn two records into each other.
 */
module StrideDamage {
  import opened Bytes
  import opened Addressing
  import opened StrideBuffer

  /** Record i is followed by another one and reaches two bytes or more into it. */
  predicate TooLong(recs: seq<Raw>, i: nat, stride: nat) {
    i + 1 < |recs| && |recs[i].bytes| >= stride + 2
  }

  /** No record ends exactly one byte behind its stride. */
  ghost predicate NoneByOne(recs: seq<Raw>, stride: nat) {
    forall i :: 0 <= i < |recs| ==> |recs[i].bytes| != stride + 1
  }

  /** Apart from records that are one byte too long, a block is copied right iff none is too long. */
  lemma {:induction false} SurviveIff(recs: seq<Raw>, i: nat, stride: nat)
    requires i <= |recs| && NoneByOne(recs, stride)
    ensures AllSurvive(recs, i, stride) <==> forall j :: i <= j < |recs| ==> !TooLong(recs, j, stride)
    decreases |recs| - i
  {
    if i == |recs| {
    } else {
      SurviveIff(recs, i + 1, stride);
      assert Survives(recs, i, stride) <==> !TooLong(recs, i, stride);
    }
  }

  lemma TooLongFails(recs: seq<Raw>, i: nat, stride: nat)
    requires TooLong(recs, i, stride)
    ensures !AllSurvive(recs, 0, stride)
  {
    if AllSurvive(recs, 0, stride) {
      AllSurviveAt(recs, 0, stride, i);
    }
  }

  /** For every stride and page size: a record that is too long does not come back. */
  lemma CopyDamages(pages: seq<seq<byte>>, recs: seq<Raw>, i: nat, stride: nat, pageSize: nat, size: nat)
    requires Readable(pages, recs, stride, pageSize, size) && TooLong(recs, i, stride)
    ensures Sized(ReadAll(pages, stride, pageSize, size), recs, stride, pageSize)
    ensures !Intact(ReadAll(pages, stride, pageSize, size), recs, 0, stride, pageSize)
  {
    CopyExactIff(pages, recs, stride, pageSize, size);
    TooLongFails(recs, i, stride);
  }

  /** A record with a key of one byte and a value that makes it two bytes longer than the stride. */
  function LongRecord(stride: nat, k: byte): (rec: Raw)
    requires 8 <= stride < 0x8000_0000 && k != 0
    ensures rec.Valid() && |rec.bytes| == stride + 2 && rec.bytes[8] == k
    ensures rec.bytes[..8] == Le32(1) + Le32(stride - 7)
  {
    var s := Le32(1) + Le32(stride - 7) + [k] + seq(stride - 7, _ => 65);
    assert s[1] == Le32(1)[1] == 0;
    assert s[..8] == Le32(1) + Le32(stride - 7);
    Raw(s, 1)
  }

  /** Such blocks exist for every stride, those of at least 51 pages that gc can collect among them. */
  lemma DamageExists(stride: nat, pageSize: nat)
    requires 8 <= stride && stride + 2 <= pageSize < 0x8000_0000
    ensures var recs := [LongRecord(stride, 66), LongRecord(stride, 67)];
            var pages := [recs[0].bytes + Zeros(pageSize - stride - 2), recs[1].bytes + Zeros(pageSize - stride - 2)];
            && Readable(pages, recs, stride, pageSize, stride + pageSize)
            && TooLong(recs, 0, stride)
  {
    var recs := [LongRecord(stride, 66), LongRecord(stride, 67)];
    var pages := [recs[0].bytes + Zeros(pageSize - stride - 2), recs[1].bytes + Zeros(pageSize - stride - 2)];
    assert Off(0, stride) == 0 && Off(1, stride) == stride;
    assert forall i :: 0 <= i < 2 ==> recs[i].bytes <= pages[i] && |pages[i]| == pageSize;
  }

  // ----- a record that is too long is nowhere afterwards -----

  /** What the stores of one record do to the buffer, byte by byte. */
  lemma TouchBytes(buf: seq<byte>, off: nat, rec: Raw)
    requires 8 + rec.keyLen <= |rec.bytes| && off + |rec.bytes| <= |buf|
    ensures var t := TouchRec(buf, off, rec);
            && (forall p :: off <= p < off + 8 ==> t[p] == rec.bytes[p - off])
            && (forall p :: 0 <= p < |buf| && !(off <= p < off + 8) ==> t[p] == buf[p] || t[p] == 0)
  {
  }

  /**
   Before record i is written: a NUL stands behind the first byte after each later stride, and
   the last record has its own bytes or NULs.
   */
  ghost predicate Scarred(buf: seq<byte>, recs: seq<Raw>, i: nat, stride: nat, pageSize: nat) {
    && Sized(buf, recs, stride, pageSize)
    && (forall j :: i <= j < |recs| - 1 && stride + 1 < pageSize ==> buf[Off(j, stride) + stride + 1] == 0)
    && (i < |recs| ==>
          var last, off := recs[|recs| - 1].bytes, Off(|recs| - 1, stride);
          forall r :: 8 <= r < |last| ==> buf[off + r] == last[r] || buf[off + r] == 0)
  }

  lemma ScarredStart(buf: seq<byte>, recs: seq<Raw>, stride: nat, pageSize: nat)
    requires AllOverlaid(buf, recs, stride, pageSize)
    ensures Scarred(buf, recs, 0, stride, pageSize)
  {
    if recs != [] {
      assert Overlaid(buf, recs, |recs| - 1, stride, pageSize);
    }
    forall j | 0 <= j < |recs| - 1 && stride + 1 < pageSize ensures buf[Off(j, stride) + stride + 1] == 0 {
      assert Overlaid(buf, recs, j, stride, pageSize);
    }
  }

  lemma ScarredNext(buf: seq<byte>, recs: seq<Raw>, i: nat, stride: nat, pageSize: nat)
    requires 8 <= stride <= pageSize && i < |recs| && Scarred(buf, recs, i, stride, pageSize)
    ensures Scarred(TouchRec(buf, Off(i, stride), recs[i]), recs, i + 1, stride, pageSize)
  {
    hide TouchRec, Off, Raw.Valid;
    assert recs[i].Valid();
    ValidRoom(recs[i]);
    var t, n, off := TouchRec(buf, Off(i, stride), recs[i]), |recs| - 1, Off(i, stride);
    TouchBytes(buf, off, recs[i]);
    forall j | i + 1 <= j < n && stride + 1 < pageSize ensures t[Off(j, stride) + stride + 1] == 0 {
      OffStep(i, j, stride);
      var p := Off(j, stride) + stride + 1;
      assert p >= off + 8 && p < |buf| && buf[p] == 0;
    }
    if i < n {
      OffStep(i, n, stride);
      var last := recs[n].bytes;
      forall r | 8 <= r < |last| ensures t[Off(n, stride) + r] == last[r] || t[Off(n, stride) + r] == 0 {
        var p := Off(n, stride) + r;
        assert p >= off + 8 && p < |buf|;
      }
    }
  }

  lemma ValidRoom(rec: Raw)
    requires rec.Valid()
    ensures 8 + rec.keyLen <= |rec.bytes|
  {
  }

  /** Two records with the same two lengths have the same size. */
  ghost predicate LensTell(recs: seq<Raw>) {
    && (forall i :: 0 <= i < |recs| ==> |recs[i].bytes| >= 8)
    && forall i, j :: 0 <= i < |recs| && 0 <= j < |recs| && recs[i].bytes[..8] == recs[j].bytes[..8] ==>
         |recs[i].bytes| == |recs[j].bytes|
  }

  /** The page written for record i differs somewhere from a record that is too long. */
  lemma NeverWritten(buf: seq<byte>, recs: seq<Raw>, i: nat, lost: nat, stride: nat, pageSize: nat) returns (r: nat)
    requires 8 <= stride <= pageSize && i < |recs| && Scarred(buf, recs, i, stride, pageSize)
    requires LensTell(recs) && TooLong(recs, lost, stride) && (i != lost ==> recs[i].bytes != recs[lost].bytes)
    ensures r < |recs[lost].bytes|
    ensures TouchRec(buf, Off(i, stride), recs[i])[Off(i, stride) + r] != recs[lost].bytes[r]
  {
    hide TouchRec;
    var t, off, rec, own := TouchRec(buf, Off(i, stride), recs[i]), Off(i, stride), recs[lost].bytes, recs[i].bytes;
    TouchBytes(buf, off, recs[i]);
    if own[..8] != rec[..8] {
      r :| 0 <= r < 8 && own[..8][r] != rec[..8][r];
    } else if i + 1 < |recs| {
      r := stride + 1;
      assert rec[r] != 0;
    } else {
      assert forall k :: 0 <= k < 8 ==> own[k] == own[..8][k] == rec[..8][k] == rec[k];
      r :| 0 <= r < |rec| && own[r] != rec[r];
      assert t[off + r] == own[r] || t[off + r] == 0;
    }
  }

  // ----- one byte too many: two records that become each other -----

  /** Record i has one byte too many; apart from it records i and j agree, and the record behind i supplies that byte. */
  ghost predicate Mimics(recs: seq<Raw>, i: nat, j: nat, stride: nat) {
    && i + 1 < |recs| && j < |recs|
    && |recs[i].bytes| == |recs[j].bytes| == stride + 1 && recs[i].keyLen == recs[j].keyLen
    && recs[i].bytes[..stride] == recs[j].bytes[..stride]
    && recs[i + 1].bytes != [] && recs[i + 1].bytes[0] == recs[j].bytes[stride]
  }

  lemma BecomesOther(buf: seq<byte>, recs: seq<Raw>, i: nat, j: nat, stride: nat, pageSize: nat)
    requires 8 <= stride < pageSize && AllOverlaid(buf, recs, stride, pageSize) && Mimics(recs, i, j, stride)
    ensures Stands(buf, Off(i, stride), recs[j]) && TouchRec(buf, Off(i, stride), recs[i]) == buf
  {
    hide TouchRec;
    var off, a, b := Off(i, stride), recs[i].bytes, recs[j].bytes;
    assert Overlaid(buf, recs, i, stride, pageSize);
    forall r | 0 <= r < |b| ensures buf[off + r] == b[r] {
      if r < stride {
        assert a[r] == a[..stride][r] && b[r] == b[..stride][r];
      }
    }
    TouchIff(buf, off, recs[j]);
    SameTouch(buf, off, recs[i], recs[j], stride);
  }

  lemma SameTouch(buf: seq<byte>, off: nat, a: Raw, b: Raw, stride: nat)
    requires 8 <= stride <= |a.bytes| && |a.bytes| == |b.bytes| && a.keyLen == b.keyLen && a.bytes[..stride] == b.bytes[..stride]
    requires 8 + a.keyLen <= |a.bytes| && off + |a.bytes| <= |buf|
    ensures TouchRec(buf, off, a) == TouchRec(buf, off, b)
  {
    hide Touch;
    assert a.bytes[..8] == a.bytes[..stride][..8] == b.bytes[..8];
  }

  /** Four records of which 0 and 2 mimic each other. */
  ghost predicate Swapping(recs: seq<Raw>, stride: nat) {
    && |recs| == 4 && Mimics(recs, 0, 2, stride) && Mimics(recs, 2, 0, stride)
    && recs[0].bytes[stride] != recs[2].bytes[stride]
    && |recs[1].bytes| <= stride && |recs[3].bytes| <= stride
  }

  /** All four stand in the buffer, 0 in the place of 2 and 2 in the place of 0, and writing them back changes nothing. */
  ghost predicate Swapped(buf: seq<byte>, recs: seq<Raw>, stride: nat, pageSize: nat) {
    && |recs| == 4 && Sized(buf, recs, stride, pageSize)
    && (forall i :: 0 <= i < 4 ==> TouchRec(buf, Off(i, stride), recs[i]) == buf)
    && Stands(buf, Off(0, stride), recs[2]) && Stands(buf, Off(1, stride), recs[1])
    && Stands(buf, Off(2, stride), recs[0]) && Stands(buf, Off(3, stride), recs[3])
  }

  lemma SwappedOverlay(buf: seq<byte>, recs: seq<Raw>, stride: nat, pageSize: nat)
    requires 8 <= stride < pageSize && AllOverlaid(buf, recs, stride, pageSize) && Swapping(recs, stride)
    ensures Swapped(buf, recs, stride, pageSize)
  {
    hide TouchRec, Overlaid, Stands, Mimics, Off;
    TouchOverlaid(buf, recs, 1, stride, pageSize);
    TouchOverlaid(buf, recs, 3, stride, pageSize);
    StandsIff(buf, recs, 1, stride, pageSize);
    StandsIff(buf, recs, 3, stride, pageSize);
    BecomesOther(buf, recs, 0, 2, stride, pageSize);
    BecomesOther(buf, recs, 2, 0, stride, pageSize);
  }

  lemma SwappingFails(recs: seq<Raw>, stride: nat)
    requires Swapping(recs, stride)
    ensures !AllSurvive(recs, 0, stride)
  {
    assert !Survives(recs, 0, stride);
  }

  /** The set of records can come back unchanged although two of them do not survive. */
  lemma SwapsRecords(pages: seq<seq<byte>>, recs: seq<Raw>, stride: nat, pageSize: nat, size: nat)
    requires Readable(pages, recs, stride, pageSize, size) && 8 <= stride < pageSize && Swapping(recs, stride)
    ensures !AllSurvive(recs, 0, stride) && Swapped(ReadAll(pages, stride, pageSize, size), recs, stride, pageSize)
  {
    hide ReadAll, Swapping, Swapped, AllOverlaid, AllSurvive, Readable;
    CopyExactIff(pages, recs, stride, pageSize, size);
    SwappingFails(recs, stride);
    SwappedOverlay(ReadAll(pages, stride, pageSize, size), recs, stride, pageSize);
  }

  /** A record with an empty value: a key of n times the letter A and a last byte. */
  function KeyRecord(n: nat, last: byte): (rec: Raw)
    requires n < 127 && last != 0
    ensures rec.Valid() && rec.keyLen == n + 1 && |rec.bytes| == n + 9 && rec.bytes[0] == n + 1 && rec.bytes[n + 8] == last
    ensures rec.bytes[..n + 8] == Le32(n + 1) + Le32(0) + seq(n, _ => 65)
  {
    var s := Le32(n + 1) + Le32(0) + seq(n, _ => 65) + [last];
    assert s[0] == Le32(n + 1)[0] && s[1] == Le32(n + 1)[1] == 0;
    assert s[..n + 8] == Le32(n + 1) + Le32(0) + seq(n, _ => 65);
    Raw(s, n + 1)
  }

  /** Four such records for blocks of 74 pages. */
  lemma SwapExists()
    ensures Swapping([KeyRecord(66, 65), KeyRecord(65, 65), KeyRecord(66, 66), KeyRecord(64, 65)], 74)
  {
  }
}

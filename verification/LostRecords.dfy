/** What gc does to live records that do not fit its copy buffer: which pages it writes, and what is gone afterwards. */
module LostRecords {
  import opened Bytes
  import opened Addressing
  import opened ProbeTable
  import opened Record
  import opened Config
  import opened StrideBuffer
  import opened StrideDamage
  import opened LiveRecords

  /** Some live record of the block is followed by another one and at least two bytes too long for the stride. */
  ghost predicate Overlong(g: Geometry, c: Cfg, m: Contents, b: nat)
    requires b < |c.blocks|
  {
    exists i: nat :: TooLong(Raws(Live(c, m, b)), i, g.ppb)
  }

  /** No live record of the block is exactly one byte too long. */
  ghost predicate NoneOneOver(g: Geometry, c: Cfg, m: Contents, b: nat)
    requires b < |c.blocks|
  {
    NoneByOne(Raws(Live(c, m, b)), g.ppb)
  }

  lemma SafeIff(g: Geometry, c: Cfg, m: Contents, b: nat)
    requires b < |c.blocks| && NoneOneOver(g, c, m, b)
    ensures StrideSafe(g, c, m, b) <==> !Overlong(g, c, m, b)
  {
    var raws := Raws(Live(c, m, b));
    SurviveIff(raws, 0, g.ppb);
    if Overlong(g, c, m, b) {
      var i: nat :| TooLong(raws, i, g.ppb);
    }
  }

  // ----- no page of the index holds a record -----

  ghost predicate NoneHolds(g: Geometry, c: Cfg, rec: Couple)
    requires g.ppb > 0
  {
    forall s :: 0 <= s < |c.table| && c.table[s].valid ==>
      var p := PageAt(g, c, c.table[s].index);
      !(p.Written? && Holds(p.bytes, rec))
  }

  lemma AbsentNoneHolds(g: Geometry, c: Cfg, m: Contents, rec: Couple)
    requires Inv(g, c, m) && rec.key !in m
    ensures g.ppb > 0 && NoneHolds(g, c, rec)
  {
    hide Inv, Holds;
    InvShape(g, c, m);
    forall s | 0 <= s < |c.table| && c.table[s].valid
      ensures var p := PageAt(g, c, c.table[s].index);
              !(p.Written? && Holds(p.bytes, rec))
    {
      InvSlot(g, c, m, s);
      var p, key := PageAt(g, c, c.table[s].index), c.table[s].key;
      if Holds(p.bytes, rec) {
        HoldsUnique(p.bytes, rec, Couple(key, m[key]));
      }
    }
  }

  lemma AppendNoneHolds(g: Geometry, c: Cfg, b: nat, key: Key, bytes: seq<byte>, rec: Couple)
    requires Sound(g, c) && b < g.nbBlocks && c.blocks[b].state.Used? && c.blocks[b].offset < g.ppb && |bytes| == g.pageSize
    requires g.ppb > 0 && NoneHolds(g, c, rec) && !Holds(bytes, rec)
    ensures BlkOk(g, c.blocks[b], c.flash[b]) && NoneHolds(g, Append(g, c, b, key, bytes), rec)
  {
    hide Holds, Sound;
    SoundBlock(g, c, b);
    AppendSound(g, c, b, key, bytes);
    var r := Append(g, c, b, key, bytes);
    var s := Add(c.table, g.hash, key, Addr(b, c.blocks[b].offset, g.ppb)).1;
    AddrSplit(b, c.blocks[b].offset, g.ppb);
    forall t | 0 <= t < |r.table| && r.table[t].valid
      ensures var p := PageAt(g, r, r.table[t].index);
              !(p.Written? && Holds(p.bytes, rec))
    {
      if t == s {
        assert PageAt(g, r, r.table[s].index) == Written(bytes);
      } else {
        SoundSlot(g, c, t);
        AppendSparesPage(g, c, b, key, bytes, r, t);
      }
    }
  }

  /** Then the state does not stand for a map with that record. */
  lemma NoneHoldsGone(g: Geometry, c: Cfg, m: Contents, rec: Couple)
    requires g.ppb > 0 && NoneHolds(g, c, rec) && rec.key in m && m[rec.key] == rec.val
    ensures !Inv(g, c, m)
  {
    hide Inv, Holds;
    if Inv(g, c, m) {
      InvTable(g, c, m);
      var s :| 0 <= s < |c.table| && c.table[s].valid && c.table[s].key == rec.key;
      InvSlot(g, c, m, s);
    }
  }

  // ----- the write phase, whatever the buffer holds -----

  ghost predicate AllWellFormed(recs: seq<Couple>) {
    forall i :: 0 <= i < |recs| ==> recs[i].WellFormed() && |recs[i].key| < 128
  }

  lemma RawsLens(recs: seq<Couple>)
    requires AllWellFormed(recs)
    ensures LensTell(Raws(recs))
  {
    hide Couple.Image, Couple.WellFormed;
    var raws := Raws(recs);
    forall i | 0 <= i < |raws| ensures |raws[i].bytes| == recs[i].Size() && raws[i].bytes[..8] == Le32(|recs[i].key|) + Le32(|recs[i].val|) {
      RawOfValid(recs[i]);
    }
    forall i, j | 0 <= i < |raws| && 0 <= j < |raws| && raws[i].bytes[..8] == raws[j].bytes[..8]
      ensures |raws[i].bytes| == |raws[j].bytes|
    {
      var a, b := raws[i].bytes[..8], raws[j].bytes[..8];
      assert recs[i].WellFormed() && recs[j].WellFormed();
      SizesFit(recs[i]);
      SizesFit(recs[j]);
      assert a[..4] == Le32(|recs[i].key|) && b[..4] == Le32(|recs[j].key|);
      assert a[4..] == Le32(|recs[i].val|) && b[4..] == Le32(|recs[j].val|);
      Le32RoundTrip(|recs[i].key|);
      Le32RoundTrip(|recs[j].key|);
      Le32RoundTrip(|recs[i].val|);
      Le32RoundTrip(|recs[j].val|);
    }
  }

  lemma SizesFit(rec: Couple)
    requires rec.WellFormed()
    ensures rec.Size() < 0x8000_0000
  {
  }

  lemma RawsDiffer(recs: seq<Couple>, i: nat, j: nat)
    requires AllWellFormed(recs) && DistinctKeys(recs) && i < |recs| && j < |recs| && i != j
    ensures Raws(recs)[i].bytes != Raws(recs)[j].bytes
  {
    hide Couple.Image;
    var a, b := recs[i], recs[j];
    assert a.key != b.key;
    if a.Image() == b.Image() {
      HoldsUnique(a.Image(), a, b);
    }
  }

  /** Every record that is too long has been left out of the page that starts at byte off. */
  ghost predicate NotHeld(page: seq<byte>, recs: seq<Couple>, stride: nat) {
    forall i :: 0 <= i < |recs| && TooLong(Raws(recs), i, stride) ==> !Holds(page, recs[i])
  }

  lemma PageNotHeld(buf: seq<byte>, recs: seq<Couple>, i: nat, stride: nat, pageSize: nat)
    requires AllWellFormed(recs) && DistinctKeys(recs) && i < |recs| && 8 <= stride <= pageSize
    requires Scarred(buf, Raws(recs), i, stride, pageSize)
    ensures var t, off := TouchRec(buf, Off(i, stride), Raws(recs)[i]), Off(i, stride);
            off + pageSize <= |t| && NotHeld(t[off..off + pageSize], recs, stride)
  {
    hide Couple.Image, TouchRec, Couple.WellFormed, Scarred;
    var raws, off := Raws(recs), Off(i, stride);
    ScarredSized(buf, raws, i, stride, pageSize);
    var t := TouchRec(buf, off, raws[i]);
    var page := t[off..off + pageSize];
    RawsLens(recs);
    forall lost: nat | lost < |recs| && TooLong(raws, lost, stride) ensures !Holds(page, recs[lost]) {
      if i != lost {
        RawsDiffer(recs, i, lost);
      }
      var r := NeverWritten(buf, raws, i, lost, stride, pageSize);
      RawOfValid(recs[lost]);
      if Holds(page, recs[lost]) {
        HeldByte(page, recs[lost], r);
      }
    }
  }

  lemma HeldByte(page: seq<byte>, rec: Couple, r: nat)
    requires Holds(page, rec) && r < |RawOf(rec).bytes|
    ensures r < |page| && page[r] == RawOf(rec).bytes[r]
  {
    hide Couple.Image;
    assert page[..rec.Size()][r] == rec.Image()[r];
  }

  lemma ScarredSized(buf: seq<byte>, raws: seq<Raw>, i: nat, stride: nat, pageSize: nat)
    requires Scarred(buf, raws, i, stride, pageSize) && i < |raws|
    ensures raws[i].Valid() && |raws[i].bytes| <= pageSize && Off(i, stride) + pageSize <= |buf|
  {
  }

  /** One record of the write phase: the stores are inside the buffer, and leave it fit for the next one. */
  lemma WriteStep(buf: seq<byte>, recs: seq<Couple>, i: nat, stride: nat, pageSize: nat)
    requires AllWellFormed(recs) && DistinctKeys(recs) && i < |recs| && 8 <= stride <= pageSize
    requires Scarred(buf, Raws(recs), i, stride, pageSize)
    ensures var off, rec := Off(i, stride), recs[i];
            && rec.Size() <= pageSize && off + pageSize <= |buf| && rec.Size() < 0x8000_0000
            && var t := Touch(buf, off, Le32(|rec.key|) + Le32(|rec.val|), |rec.key|, rec.Size());
            && Scarred(t, Raws(recs), i + 1, stride, pageSize)
            && NotHeld(t[off..off + pageSize], recs, stride)
  {
    hide Couple.Image, Touch, Couple.WellFormed, Scarred, NotHeld, Le32;
    assert recs[i].WellFormed();
    SizesFit(recs[i]);
    RawOfValid(recs[i]);
    ScarredSized(buf, Raws(recs), i, stride, pageSize);
    ScarredNext(buf, Raws(recs), i, stride, pageSize);
    PageNotHeld(buf, recs, i, stride, pageSize);
  }

  lemma WriteStart(pages: seq<seq<byte>>, recs: seq<Couple>, stride: nat, pageSize: nat, size: nat)
    requires Readable(pages, Raws(recs), stride, pageSize, size)
    ensures 8 <= stride <= pageSize && Scarred(ReadAll(pages, stride, pageSize, size), Raws(recs), 0, stride, pageSize)
  {
    hide ReadAll, Scarred, AllOverlaid;
    CopyExactIff(pages, Raws(recs), stride, pageSize, size);
    ScarredStart(ReadAll(pages, stride, pageSize, size), Raws(recs), stride, pageSize);
  }

  // ----- over the whole phase -----

  /** No record that is too long is held by a page of the index. */
  ghost predicate AllGone(g: Geometry, c: Cfg, recs: seq<Couple>) {
    g.ppb > 0 && forall i :: 0 <= i < |recs| && TooLong(Raws(recs), i, g.ppb) ==> NoneHolds(g, c, recs[i])
  }

  lemma GoneStart(g: Geometry, c: Cfg, m: Contents, recs: seq<Couple>)
    requires Inv(g, c, m) && forall i :: 0 <= i < |recs| ==> recs[i].key !in m
    ensures AllGone(g, c, recs)
  {
    hide Inv, NoneHolds;
    InvShape(g, c, m);
    forall i | 0 <= i < |recs| ensures NoneHolds(g, c, recs[i]) {
      AbsentNoneHolds(g, c, m, recs[i]);
    }
  }

  lemma GoneNext(g: Geometry, c: Cfg, b: nat, key: Key, page: seq<byte>, recs: seq<Couple>)
    requires Sound(g, c) && b < g.nbBlocks && c.blocks[b].state.Used? && c.blocks[b].offset < g.ppb && |page| == g.pageSize
    requires AllGone(g, c, recs) && NotHeld(page, recs, g.ppb)
    ensures BlkOk(g, c.blocks[b], c.flash[b]) && AllGone(g, Append(g, c, b, key, page), recs)
  {
    hide Sound, NoneHolds, Append;
    SoundBlock(g, c, b);
    forall i | 0 <= i < |recs| && TooLong(Raws(recs), i, g.ppb) ensures NoneHolds(g, Append(g, c, b, key, page), recs[i]) {
      AppendNoneHolds(g, c, b, key, page, recs[i]);
    }
  }

  lemma GoneStays(g: Geometry, c: Cfg, d: Cfg, recs: seq<Couple>)
    requires g.ppb > 0 && AllGone(g, c, recs) && SameMeaning(g, c, d)
    ensures AllGone(g, d, recs)
  {
    hide Holds, TooLong, Raws;
    forall i | 0 <= i < |recs| && TooLong(Raws(recs), i, g.ppb) ensures NoneHolds(g, d, recs[i]) {
      assert NoneHolds(g, c, recs[i]);
    }
  }

  lemma GoneDone(g: Geometry, c: Cfg, m: Contents, recs: seq<Couple>)
    requires AllGone(g, c, recs) && forall i :: 0 <= i < |recs| ==> recs[i].key in m && m[recs[i].key] == recs[i].val
    ensures (exists i: nat :: TooLong(Raws(recs), i, g.ppb)) ==> !Inv(g, c, m)
  {
    hide Inv, NoneHolds;
    if i: nat :| TooLong(Raws(recs), i, g.ppb) {
      NoneHoldsGone(g, c, m, recs[i]);
    }
  }

  /**
   What a collection of block b makes of the state: it stands for the same map when every
   record survives, and no indexed page holds a record that is followed by another one and
   two bytes or more too long.
   */
  ghost predicate Verdict(g: Geometry, c: Cfg, m: Contents, b: nat, d: Cfg)
    requires b < |c.blocks|
  {
    && (StrideSafe(g, c, m, b) ==> Inv(g, d, m))
    && AllGone(g, d, Live(c, m, b))
  }

  /** Such a record is lost: the state does not stand for the map any more. */
  lemma VerdictLost(g: Geometry, c: Cfg, m: Contents, b: nat, d: Cfg)
    requires Inv(g, c, m) && b < g.nbBlocks && Verdict(g, c, m, b, d) && Overlong(g, c, m, b)
    ensures !Inv(g, d, m)
  {
    hide Inv, AllGone, Live, StrideSafe;
    InvShape(g, c, m);
    PendingStart(g, c, m, b, Live(c, m, b));
    PendingAbsent(m - KeySet(Live(c, m, b)), m, Live(c, m, b));
    GoneDone(g, d, m, Live(c, m, b));
  }

  /** With no record exactly one byte too long, the map is kept iff every record survives. */
  lemma VerdictIff(g: Geometry, c: Cfg, m: Contents, b: nat, d: Cfg)
    requires Inv(g, c, m) && b < g.nbBlocks && Verdict(g, c, m, b, d) && NoneOneOver(g, c, m, b)
    ensures Inv(g, d, m) <==> StrideSafe(g, c, m, b)
  {
    hide Inv, AllGone, Live, StrideSafe, Overlong, NoneOneOver;
    InvShape(g, c, m);
    SafeIff(g, c, m, b);
    if Overlong(g, c, m, b) {
      VerdictLost(g, c, m, b, d);
    }
  }

  /** While nothing has been written back yet, the records to write are well formed and absent. */
  lemma PendingAbsent(m: Contents, m0: Contents, recs: seq<Couple>)
    requires Pending(m, m0, recs, 0)
    ensures AllWellFormed(recs)
    ensures forall i :: 0 <= i < |recs| ==> recs[i].key !in m && recs[i].key in m0 && m0[recs[i].key] == recs[i].val
  {
    hide Couple.WellFormed;
    assert recs[0..] == recs;
    forall i | 0 <= i < |recs| ensures recs[i].key in KeySet(recs) {
    }
  }
}

/** The live records of one block, in the order in which gc walks its valid-page list. */
module LiveRecords {
  import opened Bytes
  import opened Addressing
  import opened ProbeTable
  import opened Record
  import opened Config
  import opened StrideBuffer

  ghost function RecAt(table: seq<Bucket>, m: Contents, s: nat): Couple {
    if s < |table| && table[s].key in m then Couple(table[s].key, m[table[s].key]) else Couple([], [])
  }

  ghost function Recs(table: seq<Bucket>, m: Contents, list: seq<nat>): (r: seq<Couple>)
    ensures |r| == |list|
  {
    seq(|list|, i requires 0 <= i < |list| => RecAt(table, m, list[i]))
  }

  ghost function Live(c: Cfg, m: Contents, b: nat): (r: seq<Couple>)
    requires b < |c.blocks|
    ensures |r| == |c.blocks[b].list|
  {
    Recs(c.table, m, c.blocks[b].list)
  }

  ghost function RawOf(rec: Couple): Raw {
    Raw(if rec.Size() < 0x8000_0000 then rec.Image() else [], |rec.key|)
  }

  ghost function Raws(recs: seq<Couple>): (r: seq<Raw>)
    ensures |r| == |recs|
  {
    seq(|recs|, i requires 0 <= i < |recs| => RawOf(recs[i]))
  }

  lemma RawOfValid(rec: Couple)
    requires rec.WellFormed() && |rec.key| < 128
    ensures RawOf(rec).Valid() && |RawOf(rec).bytes| == rec.Size()
    ensures RawOf(rec).bytes[..8] == Le32(|rec.key|) + Le32(|rec.val|)
  {
    ImageBytes(rec);
    assert rec.Image()[..8] == Le32(|rec.key|) + Le32(|rec.val|);
  }

  /** Every record that gc would copy comes through the buffer: the exact condition of CopyExactIff. */
  ghost predicate StrideSafe(g: Geometry, c: Cfg, m: Contents, b: nat)
    requires b < |c.blocks|
  {
    AllSurvive(Raws(Live(c, m, b)), 0, g.ppb)
  }

  /** It holds in particular when every record of the map fits into pages_per_block bytes. */
  ghost predicate Compact(m: Contents, ppb: nat) {
    forall k :: k in m ==> Couple(k, m[k]).Size() <= ppb
  }

  lemma CompactSafe(g: Geometry, c: Cfg, m: Contents, b: nat)
    requires Inv(g, c, m) && b < g.nbBlocks && Compact(m, g.ppb)
    ensures StrideSafe(g, c, m, b)
  {
    hide Inv, Couple.Image;
    InvBlock(g, c, m, b);
    var recs := Live(c, m, b);
    forall i | 0 <= i < |recs| ensures |Raws(recs)[i].bytes| <= g.ppb {
      var s := c.blocks[b].list[i];
      assert s in c.blocks[b].list;
      InvSlot(g, c, m, s);
      assert recs[i] == Couple(c.table[s].key, m[c.table[s].key]);
    }
    ShortSurvive(Raws(recs), 0, g.ppb);
  }

  /** Page i of the walk holds record i. */
  lemma LivePage(g: Geometry, c: Cfg, m: Contents, b: nat, i: nat)
    requires Inv(g, c, m) && b < g.nbBlocks && i < |c.blocks[b].list|
    ensures var s := c.blocks[b].list[i];
            && s < |c.table| && c.table[s].valid && SlotOk(g, c, s)
            && var p, rec := PageAt(g, c, c.table[s].index), Live(c, m, b)[i];
            && p.Written? && |p.bytes| == g.pageSize
            && rec.key == c.table[s].key && rec.key in m && rec.val == m[rec.key]
            && |rec.key| < 128 && Holds(p.bytes, rec)
  {
    hide Inv, Holds;
    InvBlock(g, c, m, b);
    var s := c.blocks[b].list[i];
    assert s in c.blocks[b].list;
    InvSlot(g, c, m, s);
  }

  /** Invalidating the first record of the walk leaves the others as they are. */
  lemma LiveAfterDelete(g: Geometry, c: Cfg, m: Contents, b: nat)
    requires Inv(g, c, m) && b < g.nbBlocks && c.blocks[b].list != []
    ensures var s := c.blocks[b].list[0];
            && s < |c.table| && c.table[s].valid && SlotOk(g, c, s) && BlockOf(c.table[s].index, g.ppb) == b
            && var d := Delete(g, c, s);
            && d.blocks[b].list == c.blocks[b].list[1..]
            && Live(d, m - {c.table[s].key}, b) == Live(c, m, b)[1..]
  {
    hide Inv, Holds;
    InvBlock(g, c, m, b);
    LivePage(g, c, m, b, 0);
    var s, list := c.blocks[b].list[0], c.blocks[b].list;
    assert s in list;
    var d, m' := Delete(g, c, s), m - {c.table[s].key};
    forall i | 0 <= i < |list| - 1 ensures RecAt(d.table, m', list[1..][i]) == RecAt(c.table, m, list[i + 1]) {
      RecAfterDelete(g, c, m, b, i + 1);
    }
    assert Live(d, m', b) == Live(c, m, b)[1..];
  }

  /** Record i of the walk does not depend on the bucket of record 0. */
  lemma RecAfterDelete(g: Geometry, c: Cfg, m: Contents, b: nat, i: nat)
    requires Inv(g, c, m) && b < g.nbBlocks && 1 <= i < |c.blocks[b].list|
    ensures var list := c.blocks[b].list;
            && list[0] < |c.table|
            && RecAt(Invalidate(c.table, list[0]), m - {c.table[list[0]].key}, list[i]) == RecAt(c.table, m, list[i])
  {
    hide Inv, Holds, Reachable, SlotOk;
    InvBlock(g, c, m, b);
    InvTable(g, c, m);
    LivePage(g, c, m, b, 0);
    LivePage(g, c, m, b, i);
  }

  ghost function KeySet(recs: seq<Couple>): set<Key> {
    set i | 0 <= i < |recs| :: recs[i].key
  }

  lemma KeySetSnoc(recs: seq<Couple>, k: nat)
    requires k < |recs|
    ensures KeySet(recs[..k + 1]) == KeySet(recs[..k]) + {recs[k].key}
  {
    forall x | x in KeySet(recs[..k]) + {recs[k].key} ensures x in KeySet(recs[..k + 1]) {
      if x in KeySet(recs[..k]) {
        var i :| 0 <= i < k && recs[..k][i].key == x;
        assert recs[..k + 1][i].key == x;
      } else {
        assert recs[..k + 1][k].key == x;
      }
    }
  }

  lemma KeySetCons(recs: seq<Couple>, k: nat)
    requires k < |recs|
    ensures KeySet(recs[k..]) == KeySet(recs[k + 1..]) + {recs[k].key}
  {
    forall x | x in KeySet(recs[k + 1..]) + {recs[k].key} ensures x in KeySet(recs[k..]) {
      if x in KeySet(recs[k + 1..]) {
        var i :| 0 <= i < |recs| - k - 1 && recs[k + 1..][i].key == x;
        assert recs[k..][i + 1].key == x;
      } else {
        assert recs[k..][0].key == x;
      }
    }
    forall x | x in KeySet(recs[k..]) ensures x in KeySet(recs[k + 1..]) + {recs[k].key} {
      var i :| 0 <= i < |recs| - k && recs[k..][i].key == x;
      if i > 0 {
        assert recs[k + 1..][i - 1].key == x;
      }
    }
  }

  ghost predicate DistinctKeys(recs: seq<Couple>) {
    forall i, j :: 0 <= i < j < |recs| ==> recs[i].key != recs[j].key
  }

  lemma LiveDistinct(g: Geometry, c: Cfg, m: Contents, b: nat)
    requires Inv(g, c, m) && b < g.nbBlocks
    ensures DistinctKeys(Live(c, m, b))
  {
    hide Inv, Holds;
    InvBlock(g, c, m, b);
    InvTable(g, c, m);
    var recs, list := Live(c, m, b), c.blocks[b].list;
    forall i, j | 0 <= i < j < |recs| ensures recs[i].key != recs[j].key {
      LivePage(g, c, m, b, i);
      LivePage(g, c, m, b, j);
    }
  }

  /** The copy buffer of page_size * pages_per_block bytes has room for every stride used. */
  lemma {:induction false} BufferRoom(i: nat, n: nat, ppb: nat, pageSize: nat)
    requires i < n && ppb <= pageSize
    ensures Off(i, ppb) + pageSize <= Off(n, pageSize)
    decreases n
  {
    OffStep(i, n, pageSize);
    OffMono(i, ppb, pageSize);
  }

  lemma {:induction false} OffMono(i: nat, a: nat, b: nat)
    requires a <= b
    ensures Off(i, a) <= Off(i, b)
  {
    if i == 0 {
    } else {
      OffMono(i - 1, a, b);
    }
  }

  // ----- the read phase, one page at a time -----

  lemma StartRead(recs: seq<Couple>, ppb: nat, pageSize: nat, size: nat)
    requires 8 <= ppb <= pageSize
    ensures Readable([], Raws(recs[..0]), ppb, pageSize, size)
    ensures ReadAll([], ppb, pageSize, size) == Zeros(size)
    ensures KeySet(recs[..0]) == {}
  {
  }

  lemma NextRead(pages: seq<seq<byte>>, recs: seq<Couple>, k: nat, page: seq<byte>, ppb: nat, pageSize: nat, size: nat)
    requires k < |recs| && Readable(pages, Raws(recs[..k]), ppb, pageSize, size)
    requires |page| == pageSize && Holds(page, recs[k]) && |recs[k].key| < 128
    requires Off(k, ppb) + pageSize <= size
    ensures Readable(pages + [page], Raws(recs[..k + 1]), ppb, pageSize, size)
    ensures ReadAll(pages + [page], ppb, pageSize, size) == Blit(ReadAll(pages, ppb, pageSize, size), Off(k, ppb), page)
  {
    hide Couple.Image, ReadAll, Readable, Raw.Valid;
    RawOfValid(recs[k]);
    assert recs[..k + 1] == recs[..k] + [recs[k]];
    assert Raws(recs[..k + 1]) == Raws(recs[..k]) + [RawOf(recs[k])];
    ReadableLen(pages, Raws(recs[..k]), ppb, pageSize, size);
    ReadableSnoc(pages, Raws(recs[..k]), page, RawOf(recs[k]), ppb, pageSize, size);
    ReadAllSnoc(pages, page, ppb, pageSize, size);
  }

  lemma ReadableLen(pages: seq<seq<byte>>, recs: seq<Raw>, ppb: nat, pageSize: nat, size: nat)
    requires Readable(pages, recs, ppb, pageSize, size)
    ensures |pages| == |recs|
  {
  }

  lemma ReadableSnoc(pages: seq<seq<byte>>, recs: seq<Raw>, page: seq<byte>, rec: Raw, ppb: nat, pageSize: nat, size: nat)
    requires Readable(pages, recs, ppb, pageSize, size) && |page| == pageSize && rec.Valid() && rec.bytes <= page
    requires Off(|recs|, ppb) + pageSize <= size
    ensures Readable(pages + [page], recs + [rec], ppb, pageSize, size)
  {
    hide Raw.Valid;
  }

  lemma ReadAllSnoc(pages: seq<seq<byte>>, page: seq<byte>, ppb: nat, pageSize: nat, size: nat)
    requires Fits(pages + [page], ppb, pageSize, size) && Fits(pages, ppb, pageSize, size)
    ensures ReadAll(pages + [page], ppb, pageSize, size) == Blit(ReadAll(pages, ppb, pageSize, size), Off(|pages|, ppb), page)
  {
    assert (pages + [page])[..|pages|] == pages;
  }

  // ----- the write phase, one page at a time -----

  /** A record that stands in the buffer makes the page that starts there hold it. */
  lemma StandsHolds(buf: seq<byte>, off: nat, pageSize: nat, rec: Couple)
    requires rec.WellFormed() && rec.Size() <= pageSize && off + pageSize <= |buf|
    requires Stands(buf, off, RawOf(rec))
    ensures Holds(buf[off..off + pageSize], rec)
    ensures buf[off + 8..off + 8 + |rec.key|] == rec.key
  {
    hide Couple.Image;
    var page := buf[off..off + pageSize];
    assert page[..rec.Size()] == rec.Image();
    HoldsDecodes(page, rec);
    SliceSlice(buf, off, pageSize, 8, 8 + |rec.key|);
  }

  lemma SliceSlice(buf: seq<byte>, off: nat, n: nat, a: nat, b: nat)
    requires a <= b <= n && off + n <= |buf|
    ensures buf[off..off + n][a..b] == buf[off + a..off + b]
  {
    var x, y := buf[off..off + n][a..b], buf[off + a..off + b];
    forall i | 0 <= i < b - a ensures x[i] == y[i] {
      assert x[i] == buf[off..off + n][a + i] == buf[off + (a + i)];
    }
    assert x == y;
  }

  lemma CopyStep(pages: seq<seq<byte>>, recs: seq<Raw>, i: nat, ppb: nat, pageSize: nat, size: nat)
    requires Readable(pages, recs, ppb, pageSize, size) && i < |recs| && AllSurvive(recs, 0, ppb)
    ensures var buf, off := ReadAll(pages, ppb, pageSize, size), Off(i, ppb);
            && recs[i].Valid() && |recs[i].bytes| <= pageSize && off + pageSize <= |buf|
            && TouchRec(buf, off, recs[i]) == buf && Stands(buf, off, recs[i])
  {
    hide ReadAll, Readable, Overlaid, TouchRec, AllSurvive, Stands, Survives;
    CopyExactIff(pages, recs, ppb, pageSize, size);
    AllSurviveAt(recs, 0, ppb, i);
    ReadableStride(pages, recs, ppb, pageSize, size);
    TouchOverlaid(ReadAll(pages, ppb, pageSize, size), recs, i, ppb, pageSize);
  }

  /** Record i is written back from an unchanged buffer, intact. */
  lemma NextWrite(pages: seq<seq<byte>>, recs: seq<Couple>, i: nat, ppb: nat, pageSize: nat, size: nat)
    requires Readable(pages, Raws(recs), ppb, pageSize, size) && i < |recs|
    requires AllSurvive(Raws(recs), 0, ppb) && recs[i].WellFormed() && |recs[i].key| < 128
    ensures var buf, off, rec := ReadAll(pages, ppb, pageSize, size), Off(i, ppb), recs[i];
            && off + pageSize <= |buf| && rec.Size() <= pageSize
            && Touch(buf, off, Le32(|rec.key|) + Le32(|rec.val|), |rec.key|, rec.Size()) == buf
            && Holds(buf[off..off + pageSize], rec)
            && buf[off + 8..off + 8 + |rec.key|] == rec.key
  {
    hide Couple.Image, ReadAll, Readable, Touch, AllSurvive, Le32, Holds, Stands;
    CopyStep(pages, Raws(recs), i, ppb, pageSize, size);
    RawOfValid(recs[i]);
    StandsHolds(ReadAll(pages, ppb, pageSize, size), Off(i, ppb), pageSize, recs[i]);
  }

  lemma ReadableStride(pages: seq<seq<byte>>, recs: seq<Raw>, stride: nat, pageSize: nat, size: nat)
    requires Readable(pages, recs, stride, pageSize, size)
    ensures 8 <= stride <= pageSize
  {
  }

  /** The map while records i.. are still to be written back. */
  ghost predicate Pending(m: Contents, m0: Contents, recs: seq<Couple>, i: nat) {
    && i <= |recs|
    && m == m0 - KeySet(recs[i..])
    && forall j :: 0 <= j < |recs| ==>
         recs[j].key in m0 && recs[j].val == m0[recs[j].key] && recs[j].WellFormed() && |recs[j].key| < 128
  }

  lemma PendingNext(m: Contents, m0: Contents, recs: seq<Couple>, i: nat)
    requires Pending(m, m0, recs, i) && i < |recs| && DistinctKeys(recs)
    ensures recs[i].key !in m && recs[i].WellFormed() && |recs[i].key| < 128
    ensures Pending(m[recs[i].key := recs[i].val], m0, recs, i + 1)
  {
    hide Couple.WellFormed;
    KeySetCons(recs, i);
    var later := recs[i + 1..];
    forall j | 0 <= j < |later| ensures later[j].key != recs[i].key {
      assert later[j] == recs[i + 1 + j];
    }
    assert recs[i].key !in KeySet(later);
    assert m[recs[i].key := recs[i].val] == m0 - KeySet(recs[i + 1..]);
  }

  lemma PendingStart(g: Geometry, c: Cfg, m: Contents, b: nat, recs: seq<Couple>)
    requires Inv(g, c, m) && b < g.nbBlocks && recs == Live(c, m, b)
    ensures Pending(m - KeySet(recs), m, recs, 0) && DistinctKeys(recs)
  {
    hide Inv, Holds, Live;
    LiveDistinct(g, c, m, b);
    assert recs[0..] == recs;
    forall j | 0 <= j < |recs|
      ensures recs[j].key in m && recs[j].val == m[recs[j].key] && recs[j].WellFormed() && |recs[j].key| < 128
    {
      InvShape(g, c, m);
      LivePage(g, c, m, b, j);
      HoldsWellFormed(PageAt(g, c, c.table[c.blocks[b].list[j]].index).bytes, recs[j]);
    }
  }

  lemma HoldsWellFormed(page: seq<byte>, c: Couple)
    requires Holds(page, c)
    ensures c.WellFormed()
  {
  }

  lemma PendingDone(m: Contents, m0: Contents, recs: seq<Couple>)
    requires Pending(m, m0, recs, |recs|)
    ensures m == m0
  {
    assert KeySet(recs[|recs|..]) == {};
  }
}

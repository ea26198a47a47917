/** Where the metadata snapshot lives on flash, and the sizes that decide how many blocks it takes. */
module Metadata {
  import opened Bytes
  import opened Arithmetic
  import opened Addressing
  import opened ProbeTable
  import opened Config

  const META_HDR_BASE := 1990

  // ----- sizes -----

  function NbMetaPages(metaSize: nat, pageSize: nat): (n: nat)
    requires pageSize > 0
  {
    metaSize / pageSize + 1
  }

  function NbMetaBlocks(metaSize: nat, pageSize: nat, ppb: nat): (n: nat)
    requires pageSize > 0 && ppb >= 2
  {
    NbMetaPages(metaSize, pageSize) / (ppb - 1) + 1
  }

  /** The least numbers of pages and of blocks that hold more bytes, and more pages, than there are. */
  lemma MetaSizes(metaSize: nat, pageSize: nat, ppb: nat)
    requires pageSize > 0 && ppb >= 2
    ensures var pages, blocks := NbMetaPages(metaSize, pageSize), NbMetaBlocks(metaSize, pageSize, ppb);
            && pages >= 1 && (pages - 1) * pageSize <= metaSize < pages * pageSize
            && blocks >= 1 && (blocks - 1) * (ppb - 1) <= pages < blocks * (ppb - 1)
  {
    JustAbove(metaSize, pageSize);
    JustAbove(NbMetaPages(metaSize, pageSize), ppb - 1);
  }

  lemma JustAbove(n: nat, d: nat)
    requires d > 0
    ensures (n / d) * d <= n < (n / d + 1) * d
  {
    QuotientBelow(n, d);
    assert n == d * (n / d) + n % d;
  }

  lemma AtLeastOneMeta(metaSize: nat, pageSize: nat, ppb: nat)
    requires pageSize > 0 && ppb >= 2
    ensures NbMetaBlocks(metaSize, pageSize, ppb) >= 1
  {
  }

  /** Pages that a flush writes and a scan reads: all but the header page of every metadata block. */
  function BufferPages(nbMeta: nat, ppb: nat): (n: nat)
    requires ppb >= 1
  {
    Off(nbMeta, ppb - 1)
  }

  /**
   The metadata always fits. The flush also always runs past the nb_meta_pages pages that
   were allocated for its buffer, so that the buffer has to be padded to BufferPages.
   */
  lemma MetaFits(metaSize: nat, pageSize: nat, ppb: nat)
    requires pageSize > 0 && ppb >= 2
    ensures var n := BufferPages(NbMetaBlocks(metaSize, pageSize, ppb), ppb);
            n > NbMetaPages(metaSize, pageSize) && Off(n, pageSize) > metaSize
  {
    var p, nbMeta := NbMetaPages(metaSize, pageSize), NbMetaBlocks(metaSize, pageSize, ppb);
    var n := BufferPages(nbMeta, ppb);
    OffIsProduct(nbMeta, ppb - 1);
    QuotientBelow(p, ppb - 1);
    OffIsProduct(p, pageSize);
    QuotientBelow(metaSize, pageSize);
    OffStep(p, n, pageSize);
  }

  // ----- what a flush leaves on flash -----

  function Chunk(buf: seq<byte>, k: nat, pageSize: nat): (page: seq<byte>)
    requires Off(k, pageSize) + pageSize <= |buf|
    ensures |page| == pageSize
  {
    buf[Off(k, pageSize)..Off(k, pageSize) + pageSize]
  }

  function MetaHdr(i: nat, pageSize: nat): (page: seq<byte>)
    requires i < 0x8000_0000 && pageSize >= 8
    ensures |page| == pageSize && forall j :: 8 <= j < pageSize ==> page[j] == 0
  {
    Le32(META_HDR_BASE) + Le32(i) + Zeros(pageSize - 8)
  }

  lemma MetaHdrReads(i: nat, pageSize: nat)
    requires i < 0x8000_0000 && pageSize >= 8
    ensures FromLe32(MetaHdr(i, pageSize)[..4]) == META_HDR_BASE == 1990 && FromLe32(MetaHdr(i, pageSize)[4..8]) == i
  {
    assert MetaHdr(i, pageSize)[..4] == Le32(META_HDR_BASE);
    assert MetaHdr(i, pageSize)[4..8] == Le32(i);
    Le32RoundTrip(META_HDR_BASE);
    Le32RoundTrip(i);
  }

  /** Page k of the buffer lies inside it. */
  lemma ChunkInside(k: nat, n: nat, pageSize: nat)
    requires k < n
    ensures Off(k, pageSize) + pageSize <= Off(n, pageSize)
  {
    OffStep(k, n, pageSize);
  }

  /** Buffer page of page j of metadata block i. */
  function PageNo(i: nat, j: nat, ppb: nat): (k: nat)
    requires 1 <= j < ppb
  {
    Off(i, ppb - 1) + (j - 1)
  }

  lemma PageNoBound(i: nat, j: nat, ppb: nat, nbMeta: nat)
    requires 1 <= j < ppb && i < nbMeta
    ensures PageNo(i, j, ppb) < BufferPages(nbMeta, ppb)
  {
    OffStep(i, nbMeta, ppb - 1);
  }

  /** The first n pages of metadata block i hold its header and its part of buf. */
  ghost predicate SavedUpTo(g: Geometry, pages: seq<Page>, i: nat, n: nat, buf: seq<byte>, nbMeta: nat) {
    && g.Valid() && |pages| == g.ppb && i < nbMeta < 0x8000_0000 && n <= g.ppb
    && |buf| == Off(BufferPages(nbMeta, g.ppb), g.pageSize)
    && (n > 0 ==> pages[0] == Written(MetaHdr(i, g.pageSize)))
    && forall j :: 1 <= j < n ==>
         && Off(PageNo(i, j, g.ppb), g.pageSize) + g.pageSize <= |buf|
         && pages[j] == Written(Chunk(buf, PageNo(i, j, g.ppb), g.pageSize))
  }

  ghost predicate MetaBlock(c: Cfg, b: int) {
    0 <= b < |c.blocks| && c.blocks[b].state.Meta?
  }

  ghost predicate DistinctInts(order: seq<int>) {
    forall i, j :: 0 <= i < j < |order| ==> order[i] != order[j]
  }

  /** order lists the metadata blocks, and nothing else, without repetition. */
  ghost predicate Lists(c: Cfg, order: seq<int>) {
    && DistinctInts(order)
    && (forall i :: 0 <= i < |order| ==> MetaBlock(c, order[i]))
    && (forall b :: MetaBlock(c, b) ==> b in order)
  }

  /** A complete snapshot of buf is on flash, in the blocks of order, all of them full. */
  ghost predicate Flushed(g: Geometry, c: Cfg, order: seq<int>, buf: seq<byte>) {
    && |c.blocks| == |c.flash| && Lists(c, order)
    && forall i :: 0 <= i < |order| ==>
         c.blocks[order[i]].offset == g.ppb && SavedUpTo(g, c.flash[order[i]], i, g.ppb, buf, |order|)
  }

  /** No metadata block has room, so that writers can only be sent to data blocks. */
  ghost predicate MetaFull(blocks: seq<Blk>, ppb: nat) {
    forall b :: 0 <= b < |blocks| ==> blocks[b].state.Meta? ==> blocks[b].offset == ppb
  }

  ghost predicate AllFree(c: Cfg) {
    forall b :: 0 <= b < |c.blocks| ==> c.blocks[b].state.Free?
  }

  /** Before the first flush nothing is stored; afterwards a complete snapshot is always there. */
  ghost predicate MetaInv(g: Geometry, c: Cfg, order: seq<int>, buf: seq<byte>, timeFlush: nat) {
    || ((forall i :: 0 <= i < |order| ==> order[i] == -1) && AllFree(c) && timeFlush == 0 && |order| < g.nbBlocks)
    || Flushed(g, c, order, buf)
  }

  lemma FlushedMeta(g: Geometry, c: Cfg, order: seq<int>, buf: seq<byte>)
    requires Flushed(g, c, order, buf)
    ensures forall timeFlush: nat :: MetaInv(g, c, order, buf, timeFlush)
  {
  }

  /** Changes that keep metadata blocks keep the snapshot. */
  lemma FlushedStays(g: Geometry, c: Cfg, d: Cfg, order: seq<int>, buf: seq<byte>)
    requires Flushed(g, c, order, buf) && MetaKept(c, d)
    ensures Flushed(g, d, order, buf)
  {
    forall i | 0 <= i < |order|
      ensures MetaBlock(d, order[i]) && d.blocks[order[i]].offset == g.ppb && SavedUpTo(g, d.flash[order[i]], i, g.ppb, buf, |order|)
    {
      assert MetaBlock(c, order[i]);
    }
    forall b | MetaBlock(d, b) ensures b in order {
      assert MetaBlock(c, b);
    }
  }

  /** Metadata blocks are full, so a set can never choose one. */
  lemma FlushedFull(g: Geometry, c: Cfg, order: seq<int>, buf: seq<byte>, b: nat)
    requires Flushed(g, c, order, buf) && b < |c.blocks| && c.blocks[b].state.Meta?
    ensures c.blocks[b].offset == g.ppb
  {
    assert MetaBlock(c, b);
    var i :| 0 <= i < |order| && order[i] == b;
  }

  // ----- free blocks -----

  ghost function FreeSet(blocks: seq<Blk>): (r: set<nat>) {
    set b: nat | b < |blocks| && blocks[b].state.Free?
  }

  lemma FreeAll(c: Cfg)
    requires AllFree(c)
    ensures |FreeSet(c.blocks)| == |c.blocks|
  {
    assert FreeSet(c.blocks) == Below(|c.blocks|);
  }

  /** Changing one block takes away at most one free block. */
  lemma FreeButOne(c: Cfg, d: Cfg, b: nat)
    requires OnlyBlock(c, d, b)
    ensures |FreeSet(d.blocks)| + 1 >= |FreeSet(c.blocks)|
    ensures b < |c.blocks| && !c.blocks[b].state.Free? ==> |FreeSet(d.blocks)| >= |FreeSet(c.blocks)|
  {
    var x, y := FreeSet(c.blocks), FreeSet(d.blocks);
    assert x - {b} <= y;
    SubsetCard(x - {b}, y);
    assert |x - {b}| >= |x| - 1;
    assert b !in x ==> x - {b} == x;
  }

  lemma {:induction false} SubsetCard(a: set<nat>, b: set<nat>)
    requires a <= b
    ensures |a| <= |b|
  {
    assert b == a + (b - a);
  }

  /** As many free blocks as order has entries, when those are free and distinct. */
  lemma {:induction false} FreeOrder(blocks: seq<Blk>, order: seq<int>)
    requires DistinctInts(order)
    requires forall i :: 0 <= i < |order| ==> 0 <= order[i] < |blocks| && blocks[order[i]].state.Free?
    ensures |FreeSet(blocks)| >= |order|
  {
    var listed := set i | 0 <= i < |order| :: order[i] as nat;
    OrderCard(order, listed);
    SubsetCard(listed, FreeSet(blocks));
  }

  lemma {:induction false} OrderCard(order: seq<int>, listed: set<nat>)
    requires DistinctInts(order) && forall i :: 0 <= i < |order| ==> order[i] >= 0
    requires forall x: nat :: x in listed <==> x in order
    ensures |listed| == |order|
  {
    if order == [] {
      assert listed == {};
    } else {
      var n := |order| - 1;
      forall x: nat ensures x in listed - {order[n]} <==> x in order[..n] {
        if x in order[..n] {
          var i :| 0 <= i < n && order[i] == x;
          assert x in order;
        }
      }
      OrderCard(order[..n], listed - {order[n]});
      assert order[n] in order;
    }
  }

  // ----- the three phases of a flush -----

  /** Data blocks are untouched from c to d, and no block becomes one. */
  ghost predicate UsedKept(c: Cfg, d: Cfg) {
    && |c.blocks| == |d.blocks| == |c.flash| == |d.flash|
    && (forall i :: 0 <= i < |c.blocks| && c.blocks[i].state.Used? ==> d.blocks[i] == c.blocks[i] && d.flash[i] == c.flash[i])
    && (forall i :: 0 <= i < |c.blocks| && d.blocks[i].state.Used? ==> c.blocks[i].state.Used?)
  }

  lemma UsedKeptTrans(c: Cfg, d: Cfg, e: Cfg)
    requires UsedKept(c, d) && UsedKept(d, e)
    ensures UsedKept(c, e)
  {
  }

  lemma UsedKeptMeaning(g: Geometry, c: Cfg, d: Cfg)
    requires Sound(g, c) && Sound(g, d) && UsedKept(c, d) && d.table == c.table
    ensures g.ppb > 0 && SameMeaning(g, c, d)
  {
    hide Sound;
    SoundShape(g, c);
    SoundShape(g, d);
    forall s | 0 <= s < |c.table| && c.table[s].valid ensures PageAt(g, d, c.table[s].index) == PageAt(g, c, c.table[s].index) {
      SoundSlot(g, c, s);
    }
  }

  /** A change that keeps the index and the data blocks keeps the map. */
  lemma UsedKeptInv(g: Geometry, c: Cfg, d: Cfg, m: Contents)
    requires Inv(g, c, m) && Sound(g, d) && UsedKept(c, d) && d.table == c.table
    ensures Inv(g, d, m)
  {
    hide Inv, Sound, SameMeaning, UsedKept;
    InvShape(g, c, m);
    UsedKeptMeaning(g, c, d);
    MeaningKept(g, c, d, m);
  }

  /** A flush can start: the previous snapshot will be erased, or enough blocks are free anyway. */
  ghost predicate FlushReady(g: Geometry, c: Cfg, order: seq<int>, buf: seq<byte>) {
    || Flushed(g, c, order, buf)
    || ((forall i :: 0 <= i < |order| ==> order[i] == -1) && (forall b :: !MetaBlock(c, b)) && |FreeSet(c.blocks)| >= |order|)
  }

  lemma MetaInvReady(g: Geometry, c: Cfg, order: seq<int>, buf: seq<byte>, timeFlush: nat)
    requires MetaInv(g, c, order, buf, timeFlush) && |c.blocks| == g.nbBlocks
    ensures FlushReady(g, c, order, buf)
  {
    if AllFree(c) {
      FreeAll(c);
      forall b ensures !MetaBlock(c, b) {
        assert 0 <= b < |c.blocks| ==> c.blocks[b].state.Free?;
      }
    }
  }

  ghost function Entries(order: seq<int>): set<int> {
    set b | b in order
  }

  /** Phase 1 after i entries of the old order: those blocks are erased, the others still hold metadata. */
  ghost predicate Erasing(c0: Cfg, c: Cfg, order: seq<int>, i: nat) {
    && i <= |order| && UsedKept(c0, c) && Aged(c0, c, 1) && Worn(c0, c, Entries(order[..i])) && DistinctInts(order)
    && (forall k :: i <= k < |order| ==> MetaBlock(c, order[k]) && c.blocks[order[k]].worn == c0.blocks[order[k]].worn)
    && (forall k :: 0 <= k < i ==> 0 <= order[k] < |c.blocks| && c.blocks[order[k]].state.Free?)
    && (forall b :: MetaBlock(c, b) ==> b in order[i..])
  }

  lemma ErasingStart(g: Geometry, c: Cfg, order: seq<int>, buf: seq<byte>)
    requires Flushed(g, c, order, buf)
    ensures Erasing(c, c, order, 0)
  {
    assert order[0..] == order;
  }

  lemma ErasingNext(g: Geometry, c0: Cfg, c: Cfg, order: seq<int>, i: nat)
    requires Erasing(c0, c, order, i) && i < |order| && |c.blocks| == |c.flash|
    ensures MetaBlock(c, order[i]) && Erasing(c0, Erase(g, c, order[i]), order, i + 1)
  {
    var d, e := Erase(g, c, order[i]), order[i];
    assert order[..i + 1] == order[..i] + [e];
    assert Entries(order[..i + 1]) == Entries(order[..i]) + {e};
    assert e !in order[..i];
    assert MetaBlock(c, e) && c.blocks[e].worn == c0.blocks[e].worn;
    forall k | i + 1 <= k < |order| ensures MetaBlock(d, order[k]) && d.blocks[order[k]].worn == c0.blocks[order[k]].worn {
      assert order[k] != e && MetaBlock(c, order[k]);
    }
    forall b | MetaBlock(d, b) ensures b in order[i + 1..] {
      assert MetaBlock(c, b) && b != e;
      var k :| 0 <= k < |order| - i && order[i..][k] == b;
      assert k > 0 && order[i + 1..][k - 1] == b;
    }
  }

  lemma ErasingDone(c0: Cfg, c: Cfg, order: seq<int>)
    requires Erasing(c0, c, order, |order|)
    ensures |FreeSet(c.blocks)| >= |order| && forall b :: !MetaBlock(c, b)
  {
    FreeOrder(c.blocks, order);
    assert order[|order|..] == [];
  }

  /** Phase 2 after i choices: i distinct empty metadata blocks, and enough free ones left. */
  ghost predicate Choosing(c: Cfg, order: seq<int>, i: nat) {
    && i <= |order| && Lists(c, order[..i]) && |FreeSet(c.blocks)| >= |order| - i
    && forall k :: 0 <= k < i ==> 0 <= order[k] < |c.blocks| && c.blocks[order[k]].offset == 0
  }

  lemma ChoosingStart(c: Cfg, order: seq<int>)
    requires |FreeSet(c.blocks)| >= |order| && forall b :: !MetaBlock(c, b)
    ensures Choosing(c, order, 0)
  {
  }

  /** There is a block to choose. */
  lemma ChoosingFinds(c: Cfg, order: seq<int>, i: nat) returns (b: nat)
    requires Choosing(c, order, i) && i < |order|
    ensures b < |c.blocks| && c.blocks[b].state.Free?
  {
    assert |FreeSet(c.blocks)| > 0;
    b :| b in FreeSet(c.blocks);
  }

  lemma ChoosingNext(c: Cfg, order: seq<int>, i: nat, b: nat)
    requires Choosing(c, order, i) && i < |order|
    requires b < |c.blocks| && c.blocks[b].state.Free? && c.blocks[b].offset == 0
    ensures Choosing(SetState(c, b, Meta), order[i := b], i + 1)
  {
    var d, o := SetState(c, b, Meta), order[i := b];
    var chosen := o[..i + 1];
    assert chosen == order[..i] + [b];
    assert Lists(d, chosen) by {
      forall k | 0 <= k < |chosen| ensures MetaBlock(d, chosen[k]) {
        if k < i {
          assert MetaBlock(c, order[..i][k]);
        }
      }
      forall x | MetaBlock(d, x) ensures x in chosen {
        assert x != b ==> MetaBlock(c, x);
      }
      forall k | 0 <= k < i ensures order[..i][k] != b {
        assert MetaBlock(c, order[..i][k]);
      }
    }
    assert FreeSet(d.blocks) == FreeSet(c.blocks) - {b};
  }

  /** Each entry was the least worn block there was when it was chosen, the first on a tie. */
  ghost predicate LeastWorn(blocks: seq<Blk>, order: seq<int>, n: nat) {
    && n <= |order|
    && forall k, b :: 0 <= k < n && 0 <= b < |blocks| && 0 <= order[k] < |blocks| && (blocks[b].state.Free? || b in order[k..n]) ==>
         blocks[order[k]].worn <= blocks[b].worn && (b < order[k] ==> blocks[order[k]].worn < blocks[b].worn)
  }

  lemma LeastWornStart(blocks: seq<Blk>, order: seq<int>)
    ensures LeastWorn(blocks, order, 0)
  {
  }

  lemma LeastWornNext(blocks: seq<Blk>, order: seq<int>, n: nat, t: nat)
    requires LeastWorn(blocks, order, n) && n < |order| && t < |blocks| && blocks[t].state.Free?
    requires forall b :: 0 <= b < |blocks| && blocks[b].state.Free? ==>
               blocks[t].worn <= blocks[b].worn && (b < t ==> blocks[t].worn < blocks[b].worn)
    ensures LeastWorn(blocks[t := blocks[t].(state := Meta)], order[n := t], n + 1)
  {
    var d, o := blocks[t := blocks[t].(state := Meta)], order[n := t];
    forall k, b | 0 <= k < n + 1 && 0 <= b < |d| && 0 <= o[k] < |d| && (d[b].state.Free? || b in o[k..n + 1])
      ensures d[o[k]].worn <= d[b].worn && (b < o[k] ==> d[o[k]].worn < d[b].worn)
    {
      if k < n {
        assert o[k..n + 1] == order[k..n] + [t];
      } else {
        assert o[k..n + 1] == [t];
      }
    }
  }

  /** Phase 3 after i blocks are written: those are complete, the others still empty. */
  ghost predicate Writing(g: Geometry, c: Cfg, order: seq<int>, buf: seq<byte>, i: nat) {
    && i <= |order| && |c.blocks| == |c.flash| && Lists(c, order)
    && (forall k :: 0 <= k < i ==> c.blocks[order[k]].offset == g.ppb && SavedUpTo(g, c.flash[order[k]], k, g.ppb, buf, |order|))
    && (forall k :: i <= k < |order| ==> c.blocks[order[k]].offset == 0)
  }

  lemma WritingStart(g: Geometry, c: Cfg, order: seq<int>, buf: seq<byte>)
    requires Choosing(c, order, |order|) && |c.blocks| == |c.flash|
    ensures Writing(g, c, order, buf, 0)
  {
    assert order[..|order|] == order;
  }

  lemma WritingNext(g: Geometry, c: Cfg, d: Cfg, order: seq<int>, buf: seq<byte>, i: nat)
    requires Writing(g, c, order, buf, i) && i < |order| && MetaBlock(c, order[i]) && OnlyBlock(c, d, order[i])
    requires d.blocks[order[i]].state.Meta? && d.blocks[order[i]].offset == g.ppb
    requires SavedUpTo(g, d.flash[order[i]], i, g.ppb, buf, |order|)
    ensures Writing(g, d, order, buf, i + 1)
  {
    forall k | 0 <= k < |order| ensures MetaBlock(d, order[k]) && (k != i ==> order[k] != order[i]) {
      assert MetaBlock(c, order[k]);
    }
    forall b | MetaBlock(d, b) ensures b in order {
      assert MetaBlock(c, b);
    }
  }

  lemma WritingAt(g: Geometry, c: Cfg, order: seq<int>, buf: seq<byte>, i: nat)
    requires Writing(g, c, order, buf, i) && i < |order|
    ensures MetaBlock(c, order[i]) && c.blocks[order[i]].offset == 0
  {
  }

  lemma WritingDone(g: Geometry, c: Cfg, order: seq<int>, buf: seq<byte>)
    requires Writing(g, c, order, buf, |order|)
    ensures Flushed(g, c, order, buf)
  {
  }

  lemma ErasingFrame(c0: Cfg, c: Cfg, order: seq<int>)
    requires Erasing(c0, c, order, |order|)
    ensures UsedKept(c0, c) && Aged(c0, c, 1) && Worn(c0, c, Entries(order))
  {
    assert order[..|order|] == order;
  }

  lemma UsedSelf(c: Cfg)
    requires |c.blocks| == |c.flash|
    ensures UsedKept(c, c) && forall k: nat :: Aged(c, c, k)
  {
  }

  lemma MarkFrame(c0: Cfg, c: Cfg, b: nat)
    requires UsedKept(c0, c) && Aged(c0, c, 0) && b < |c.blocks| && c.blocks[b].state.Free?
    ensures UsedKept(c0, SetState(c, b, Meta)) && Aged(c0, SetState(c, b, Meta), 0)
    ensures forall i :: 0 <= i < |c.blocks| ==> SetState(c, b, Meta).blocks[i].worn == c.blocks[i].worn
  {
  }

  lemma WrittenFrame(c0: Cfg, c: Cfg, d: Cfg, b: nat)
    requires UsedKept(c0, c) && Aged(c0, c, 0) && OnlyBlock(c, d, b) && b < |c.blocks|
    requires c.blocks[b].state.Meta? && d.blocks[b].state.Meta? && d.blocks[b].worn == c.blocks[b].worn
    ensures UsedKept(c0, d) && Aged(c0, d, 0)
  {
  }

  lemma PutFrame(g: Geometry, c0: Cfg, c: Cfg, b: nat, bytes: seq<byte>)
    requires OnlyBlock(c0, c, b) && b < |c.blocks| && b < |c.flash| && 0 <= c.blocks[b].offset < |c.flash[b]|
    ensures OnlyBlock(c0, Put(g, c, b, bytes), b)
  {
  }

  lemma SavedNone(g: Geometry, pages: seq<Page>, i: nat, buf: seq<byte>, nbMeta: nat)
    requires g.Valid() && |pages| == g.ppb && i < nbMeta < 0x8000_0000 && |buf| == Off(BufferPages(nbMeta, g.ppb), g.pageSize)
    ensures SavedUpTo(g, pages, i, 0, buf, nbMeta)
  {
  }

  lemma SavedNext(g: Geometry, pages: seq<Page>, i: nat, j: nat, buf: seq<byte>, nbMeta: nat, page: seq<byte>)
    requires SavedUpTo(g, pages, i, j, buf, nbMeta) && j < g.ppb
    requires j == 0 ==> page == MetaHdr(i, g.pageSize)
    requires j > 0 ==> Off(PageNo(i, j, g.ppb), g.pageSize) + g.pageSize <= |buf| && page == Chunk(buf, PageNo(i, j, g.ppb), g.pageSize)
    ensures SavedUpTo(g, pages[j := Written(page)], i, j + 1, buf, nbMeta)
  {
    hide MetaHdr, Chunk;
  }

  // ----- scanning the snapshot back -----

  /** What read_page delivers; erased NAND reads as ones. */
  function ReadBytes(p: Page, pageSize: nat): (bytes: seq<byte>)
    ensures p.Erased? ==> |bytes| == pageSize
  {
    if p.Erased? then seq(pageSize, _ => 255) else p.bytes
  }

  lemma BlankHeader(pageSize: nat)
    requires pageSize >= 8
    ensures FromLe32(ReadBytes(Erased, pageSize)[..4]) != META_HDR_BASE
    ensures FromLe32(Zeros(pageSize)[..4]) != META_HDR_BASE
  {
  }

  ghost function Seen(order: seq<int>, b: nat): set<nat> {
    set k: nat | k < |order| && 0 <= order[k] < b
  }

  /** Headers below block b have been read: the entries found so far, and their number. */
  ghost predicate Scanned(order: seq<int>, found: seq<int>, cnt: nat, b: nat) {
    && |found| == |order| && cnt == |Seen(order, b)|
    && forall k :: 0 <= k < |order| ==> found[k] == if 0 <= order[k] < b then order[k] else -1
  }

  lemma ScanStart(order: seq<int>, found: seq<int>)
    requires |found| == |order| && forall k :: 0 <= k < |found| ==> found[k] == -1
    ensures Scanned(order, found, 0, 0)
  {
    assert Seen(order, 0) == {};
  }

  lemma ScanHit(order: seq<int>, found: seq<int>, cnt: nat, b: nat, k: nat)
    requires Scanned(order, found, cnt, b) && DistinctInts(order) && k < |order| && order[k] == b
    ensures Scanned(order, found[k := b], cnt + 1, b + 1)
  {
    forall i | 0 <= i < |order| && i != k ensures order[i] != b {
    }
    assert Seen(order, b + 1) == Seen(order, b) + {k};
  }

  lemma ScanMiss(order: seq<int>, found: seq<int>, cnt: nat, b: nat)
    requires Scanned(order, found, cnt, b) && b !in order
    ensures Scanned(order, found, cnt, b + 1)
  {
    assert Seen(order, b + 1) == Seen(order, b);
  }

  lemma ScanDone(order: seq<int>, found: seq<int>, cnt: nat, n: nat)
    requires Scanned(order, found, cnt, n) && forall k :: 0 <= k < |order| ==> 0 <= order[k] < n
    ensures found == order && cnt == |order|
  {
    assert Seen(order, n) == Below(|order|);
  }

  /** What the header of block b says: its number in the order, or nothing. */
  lemma HeaderTells(g: Geometry, c: Cfg, order: seq<int>, buf: seq<byte>, b: nat)
    requires Sound(g, c) && b < g.nbBlocks && Flushed(g, c, order, buf)
    ensures |c.flash[b]| == g.ppb
    ensures var bytes := ReadBytes(c.flash[b][0], g.pageSize);
            && |bytes| == g.pageSize
            && if b in order
               then FromLe32(bytes[..4]) == META_HDR_BASE && FromLe32(bytes[4..8]) < |order| && order[FromLe32(bytes[4..8])] == b
               else FromLe32(bytes[..4]) != META_HDR_BASE
  {
    hide Sound, MetaHdr, FromLe32;
    SoundBlock(g, c, b);
    BlankHeader(g.pageSize);
    if b in order {
      var k :| 0 <= k < |order| && order[k] == b;
      MetaHdrReads(k, g.pageSize);
    } else {
      assert !MetaBlock(c, b);
    }
  }

  lemma ChunkAppend(buf: seq<byte>, k: nat, pageSize: nat)
    requires Off(k, pageSize) + pageSize <= |buf|
    ensures buf[..Off(k, pageSize)] + Chunk(buf, k, pageSize) == buf[..Off(k + 1, pageSize)]
  {
  }

  lemma SavedPage(g: Geometry, pages: seq<Page>, i: nat, j: nat, buf: seq<byte>, nbMeta: nat)
    requires SavedUpTo(g, pages, i, g.ppb, buf, nbMeta) && 1 <= j < g.ppb
    ensures var k := PageNo(i, j, g.ppb);
            && Off(k, g.pageSize) + g.pageSize <= |buf|
            && pages[j] == Written(Chunk(buf, k, g.pageSize))
            && buf[..Off(k, g.pageSize)] + pages[j].bytes == buf[..Off(k + 1, g.pageSize)]
            && Off(k + 1, g.pageSize) <= |buf|
  {
    ChunkAppend(buf, PageNo(i, j, g.ppb), g.pageSize);
  }

  lemma FlushedDistinct(g: Geometry, c: Cfg, order: seq<int>, buf: seq<byte>)
    requires Flushed(g, c, order, buf)
    ensures DistinctInts(order) && forall k :: 0 <= k < |order| ==> 0 <= order[k] < |c.blocks|
  {
    forall k | 0 <= k < |order| ensures 0 <= order[k] < |c.blocks| {
      assert MetaBlock(c, order[k]);
    }
  }

  lemma FlushedAt(g: Geometry, c: Cfg, order: seq<int>, buf: seq<byte>, i: nat)
    requires Flushed(g, c, order, buf) && i < |order|
    ensures MetaBlock(c, order[i]) && order[i] < |c.flash| && |c.flash[order[i]]| == g.ppb
    ensures SavedUpTo(g, c.flash[order[i]], i, g.ppb, buf, |order|)
    ensures |buf| == Off(BufferPages(|order|, g.ppb), g.pageSize)
  {
    assert MetaBlock(c, order[i]);
  }

  lemma MetaInvFull(g: Geometry, c: Cfg, order: seq<int>, buf: seq<byte>, timeFlush: nat)
    requires MetaInv(g, c, order, buf, timeFlush)
    ensures MetaFull(c.blocks, g.ppb)
  {
    if Flushed(g, c, order, buf) {
      forall b | 0 <= b < |c.blocks| && c.blocks[b].state.Meta? ensures c.blocks[b].offset == g.ppb {
        FlushedFull(g, c, order, buf, b);
      }
    }
  }

  /** After a set and its garbage collection a flush can start. */
  lemma StillReady(g: Geometry, c: Cfg, d: Cfg, order: seq<int>, buf: seq<byte>, timeFlush: nat)
    requires MetaInv(g, c, order, buf, timeFlush) && MetaKept(c, d) && |c.blocks| == g.nbBlocks
    requires |FreeSet(d.blocks)| + 1 >= |FreeSet(c.blocks)|
    ensures FlushReady(g, d, order, buf)
  {
    if Flushed(g, c, order, buf) {
      FlushedStays(g, c, d, order, buf);
    } else {
      FreeAll(c);
      forall b ensures !MetaBlock(d, b) {
        assert 0 <= b < |c.blocks| ==> c.blocks[b].state.Free?;
      }
    }
  }
}

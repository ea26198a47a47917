/**
 How full the store is. Pages are conserved: data pages still unwritten, live records,
 invalid pages and metadata pages always add up to the whole flash. So whether a set still
 finds room is decided by the number of keys and the number of invalid pages alone.
 */
module Capacity {
  import opened Bytes
  import opened Addressing
  import opened ProbeTable
  import opened Config
  import opened Metadata

  // ----- sums over the blocks -----

  ghost function Total(blocks: seq<Blk>, f: Blk -> int): (n: int) {
    if blocks == [] then 0 else Total(blocks[..|blocks| - 1], f) + f(blocks[|blocks| - 1])
  }

  lemma {:induction false} TotalSet(blocks: seq<Blk>, f: Blk -> int, i: nat, blk: Blk)
    requires i < |blocks|
    ensures Total(blocks[i := blk], f) == Total(blocks, f) - f(blocks[i]) + f(blk)
  {
    var n := |blocks| - 1;
    if i == n {
      assert blocks[i := blk][..n] == blocks[..n];
    } else {
      assert blocks[i := blk][..n] == blocks[..n][i := blk];
      TotalSet(blocks[..n], f, i, blk);
    }
  }

  lemma {:induction false} TotalMono(c: seq<Blk>, d: seq<Blk>, f: Blk -> int)
    requires |c| == |d| && forall i :: 0 <= i < |c| ==> f(d[i]) <= f(c[i])
    ensures Total(d, f) <= Total(c, f)
  {
    if c == [] {
    } else {
      TotalMono(c[..|c| - 1], d[..|d| - 1], f);
    }
  }

  lemma {:induction false} TotalNonNegative(blocks: seq<Blk>, f: Blk -> int)
    requires forall i :: 0 <= i < |blocks| ==> f(blocks[i]) >= 0
    ensures Total(blocks, f) >= 0
  {
    if blocks == [] {
    } else {
      TotalNonNegative(blocks[..|blocks| - 1], f);
    }
  }

  lemma {:induction false} TotalAtLeast(blocks: seq<Blk>, f: Blk -> int, i: nat)
    requires i < |blocks| && forall j :: 0 <= j < |blocks| ==> f(blocks[j]) >= 0
    ensures f(blocks[i]) <= Total(blocks, f)
  {
    var n := |blocks| - 1;
    if i == n {
      TotalNonNegative(blocks[..n], f);
    } else {
      TotalAtLeast(blocks[..n], f, i);
    }
  }

  lemma {:induction false} TotalZero(blocks: seq<Blk>, f: Blk -> int)
    requires forall i :: 0 <= i < |blocks| ==> f(blocks[i]) == 0
    ensures Total(blocks, f) == 0
  {
    if blocks == [] {
    } else {
      TotalZero(blocks[..|blocks| - 1], f);
    }
  }

  /** A total of 0 or 1 is made of zeros and at most a single 1. */
  lemma TotalSmall(blocks: seq<Blk>, f: Blk -> int)
    requires forall i :: 0 <= i < |blocks| ==> f(blocks[i]) >= 0
    ensures Total(blocks, f) == 0 <==> forall i :: 0 <= i < |blocks| ==> f(blocks[i]) == 0
    ensures Total(blocks, f) == 1 <==>
              exists b :: 0 <= b < |blocks| && f(blocks[b]) == 1 && forall i :: 0 <= i < |blocks| && i != b ==> f(blocks[i]) == 0
  {
    if Total(blocks, f) == 0 {
      forall i | 0 <= i < |blocks| ensures f(blocks[i]) == 0 {
        TotalAtLeast(blocks, f, i);
      }
    }
    if forall i :: 0 <= i < |blocks| ==> f(blocks[i]) == 0 {
      TotalZero(blocks, f);
    }
    if Total(blocks, f) == 1 {
      var b := TotalOne(blocks, f);
    }
    if b :| 0 <= b < |blocks| && f(blocks[b]) == 1 && forall i :: 0 <= i < |blocks| && i != b ==> f(blocks[i]) == 0 {
      TotalSingle(blocks, f, b);
    }
  }

  lemma {:induction false} TotalOne(blocks: seq<Blk>, f: Blk -> int) returns (b: nat)
    requires Total(blocks, f) == 1 && forall i :: 0 <= i < |blocks| ==> f(blocks[i]) >= 0
    ensures b < |blocks| && f(blocks[b]) == 1 && forall i :: 0 <= i < |blocks| && i != b ==> f(blocks[i]) == 0
  {
    var n := |blocks| - 1;
    TotalNonNegative(blocks[..n], f);
    if f(blocks[n]) == 0 {
      b := TotalOne(blocks[..n], f);
      assert forall i :: 0 <= i < n ==> blocks[..n][i] == blocks[i];
    } else {
      b := n;
      forall i | 0 <= i < n ensures f(blocks[i]) == 0 {
        TotalAtLeast(blocks[..n], f, i);
      }
    }
  }

  lemma {:induction false} TotalSingle(blocks: seq<Blk>, f: Blk -> int, b: nat)
    requires b < |blocks| && f(blocks[b]) == 1 && forall i :: 0 <= i < |blocks| && i != b ==> f(blocks[i]) == 0
    ensures Total(blocks, f) == 1
  {
    var n := |blocks| - 1;
    if b == n {
      TotalZero(blocks[..n], f);
    } else {
      TotalSingle(blocks[..n], f, b);
    }
  }

  // ----- live, invalid, unwritten and metadata pages -----

  function Invalids(): Blk -> int { (b: Blk) => b.nbInvalid }

  function Lives(): Blk -> int { (b: Blk) => |b.list| }

  function Metas(): Blk -> int { (b: Blk) => if b.state.Meta? then 1 else 0 }

  /** Records that still go into a block. */
  function Rooms(ppb: nat): Blk -> int {
    (b: Blk) => if b.state.Meta? then 0 else if b.offset == 0 then ppb - 1 else ppb - b.offset
  }

  ghost function Garbage(blocks: seq<Blk>): int { Total(blocks, Invalids()) }

  ghost function Room(blocks: seq<Blk>, ppb: nat): int { Total(blocks, Rooms(ppb)) }

  /** Pages are conserved. */
  lemma {:induction false} Conservation(g: Geometry, blocks: seq<Blk>, flash: seq<seq<Page>>)
    requires g.Valid() && |blocks| == |flash| && forall b :: 0 <= b < |blocks| ==> BlkOk(g, blocks[b], flash[b])
    ensures 0 <= Total(blocks, Metas()) <= |blocks|
    ensures Room(blocks, g.ppb) + Total(blocks, Lives()) + Garbage(blocks) == Off(|blocks| - Total(blocks, Metas()), g.ppb - 1)
  {
    if blocks == [] {
    } else {
      var n := |blocks| - 1;
      Conservation(g, blocks[..n], flash[..n]);
      assert BlkOk(g, blocks[n], flash[n]);
    }
  }

  /** Blocks with at most k invalid pages each: only data blocks contribute. */
  lemma {:induction false} GarbageBound(g: Geometry, blocks: seq<Blk>, flash: seq<seq<Page>>, k: nat)
    requires g.Valid() && |blocks| == |flash| && forall b :: 0 <= b < |blocks| ==> BlkOk(g, blocks[b], flash[b]) && blocks[b].nbInvalid <= k
    ensures 0 <= Total(blocks, Metas()) <= |blocks|
    ensures Garbage(blocks) <= Off(|blocks| - Total(blocks, Metas()), k)
  {
    if blocks == [] {
    } else {
      var n := |blocks| - 1;
      GarbageBound(g, blocks[..n], flash[..n], k);
      assert BlkOk(g, blocks[n], flash[n]);
    }
  }

  lemma {:induction false} TotalOnly(blocks: seq<Blk>, f: Blk -> int, b: nat)
    requires b < |blocks| && forall i :: 0 <= i < |blocks| && i != b ==> f(blocks[i]) == 0
    ensures Total(blocks, f) == f(blocks[b])
  {
    var n := |blocks| - 1;
    if b == n {
      TotalZero(blocks[..n], f);
    } else {
      TotalOnly(blocks[..n], f, b);
    }
  }

  // ----- live pages are keys -----

  ghost function SlotsBelow(g: Geometry, table: seq<Bucket>, k: nat): set<nat>
    requires g.ppb > 0
  {
    set s: nat | s < |table| && table[s].valid && table[s].index >= 0 && BlockOf(table[s].index, g.ppb) < k
  }

  ghost function Elements(list: seq<nat>): set<nat> {
    set s | s in list
  }

  lemma {:induction false} ElementsCard(list: seq<nat>)
    requires Distinct(list)
    ensures |Elements(list)| == |list|
  {
    if list == [] {
      assert Elements(list) == {};
    } else {
      var n := |list| - 1;
      ElementsCard(list[..n]);
      assert list == list[..n] + [list[n]];
      assert list[n] !in list[..n];
      assert Elements(list) == Elements(list[..n]) + {list[n]};
    }
  }

  lemma SlotsNext(g: Geometry, c: Cfg, k: nat)
    requires Sound(g, c) && k < g.nbBlocks
    ensures SlotsBelow(g, c.table, k + 1) == SlotsBelow(g, c.table, k) + Elements(c.blocks[k].list)
    ensures SlotsBelow(g, c.table, k) !! Elements(c.blocks[k].list)
  {
    SoundBlock(g, c, k);
    forall s | s in SlotsBelow(g, c.table, k + 1) && s !in SlotsBelow(g, c.table, k) ensures s in c.blocks[k].list {
      assert SlotOk(g, c, s);
    }
  }

  lemma SlotsNextCard(g: Geometry, c: Cfg, k: nat)
    requires Sound(g, c) && k < g.nbBlocks
    ensures |SlotsBelow(g, c.table, k + 1)| == |SlotsBelow(g, c.table, k)| + |c.blocks[k].list|
  {
    hide Sound, SlotsBelow, Elements, BlkOk;
    SlotsNext(g, c, k);
    SoundBlock(g, c, k);
    ElementsCard(c.blocks[k].list);
  }

  lemma TotalTake(blocks: seq<Blk>, f: Blk -> int, k: nat)
    requires k < |blocks|
    ensures Total(blocks[..k + 1], f) == Total(blocks[..k], f) + f(blocks[k])
  {
    assert blocks[..k + 1][..k] == blocks[..k];
  }

  lemma {:induction false} SlotsCard(g: Geometry, c: Cfg, k: nat)
    requires Sound(g, c) && k <= g.nbBlocks
    ensures Shape(g, c) && |SlotsBelow(g, c.table, k)| == Total(c.blocks[..k], Lives())
    decreases k
  {
    hide Sound;
    SoundShape(g, c);
    if k == 0 {
      assert SlotsBelow(g, c.table, 0) == {};
    } else {
      SlotsCard(g, c, k - 1);
      SlotsNextCard(g, c, k - 1);
      TotalTake(c.blocks, Lives(), k - 1);
    }
  }

  lemma {:induction false} KeysCard(slots: set<nat>, t: Table, keys: set<Key>)
    requires forall s :: s in slots ==> s < |t|
    requires forall k :: k in keys ==> exists s :: s in slots && t[s].key == k
    ensures |keys| <= |slots|
    decreases |slots|
  {
    if keys == {} {
    } else {
      var k :| k in keys;
      var s :| s in slots && t[s].key == k;
      forall k' | k' in keys - {k} ensures exists s' :: s' in slots - {s} && t[s'].key == k' {
        var s' :| s' in slots && t[s'].key == k';
        assert s' in slots - {s};
      }
      KeysCard(slots - {s}, t, keys - {k});
    }
  }

  /** As many live pages as keys. */
  lemma LiveIsMap(g: Geometry, c: Cfg, m: Contents)
    requires Inv(g, c, m)
    ensures Total(c.blocks, Lives()) == |m|
  {
    hide Inv, Reachable, Sound;
    InvShape(g, c, m);
    InvTable(g, c, m);
    var slots := SlotsBelow(g, c.table, g.nbBlocks);
    SlotsCard(g, c, g.nbBlocks);
    assert c.blocks[..g.nbBlocks] == c.blocks;
    forall s | 0 <= s < |c.table| && c.table[s].valid ensures s in slots {
      InvSlot(g, c, m, s);
    }
    KeyCard(slots, c.table, m.Keys);
    KeysCard(slots, c.table, m.Keys);
    assert |m| == |m.Keys|;
  }

  // ----- full, or all but full -----

  /** All blocks are full but one, and that one has room for a single record. */
  ghost predicate OnePageLeft(blocks: seq<Blk>, ppb: nat) {
    exists b :: 0 <= b < |blocks| && LastPageIn(blocks, b, ppb)
  }

  ghost predicate LastPageIn(blocks: seq<Blk>, b: nat, ppb: nat)
    requires b < |blocks|
  {
    && blocks[b].offset + (if blocks[b].offset == 0 then 2 else 1) == ppb
    && forall i :: 0 <= i < |blocks| && i != b ==> blocks[i].offset >= ppb
  }

  lemma RoomBlock(g: Geometry, blk: Blk, pages: seq<Page>)
    requires g.Valid() && BlkOk(g, blk, pages) && (blk.state.Meta? ==> blk.offset == g.ppb)
    ensures var room := Rooms(g.ppb)(blk);
            && room >= 0 && (room == 0 <==> blk.offset >= g.ppb)
            && (room == 1 <==> blk.offset + (if blk.offset == 0 then 2 else 1) == g.ppb)
  {
  }

  lemma RoomTells(g: Geometry, c: Cfg)
    requires Sound(g, c) && MetaFull(c.blocks, g.ppb)
    ensures c.readOnly <==> Room(c.blocks, g.ppb) == 0
    ensures OnePageLeft(c.blocks, g.ppb) <==> Room(c.blocks, g.ppb) == 1
    ensures Room(c.blocks, g.ppb) >= 0
  {
    hide Sound, BlkOk;
    SoundShape(g, c);
    var f := Rooms(g.ppb);
    forall b | 0 <= b < |c.blocks|
      ensures f(c.blocks[b]) >= 0 && (f(c.blocks[b]) == 0 <==> c.blocks[b].offset >= g.ppb)
      ensures f(c.blocks[b]) == 1 <==> c.blocks[b].offset + (if c.blocks[b].offset == 0 then 2 else 1) == g.ppb
    {
      SoundBlock(g, c, b);
      RoomBlock(g, c.blocks[b], c.flash[b]);
    }
    TotalSmall(c.blocks, f);
    TotalNonNegative(c.blocks, f);
    if OnePageLeft(c.blocks, g.ppb) {
      var b :| 0 <= b < |c.blocks| && LastPageIn(c.blocks, b, g.ppb);
      TotalSingle(c.blocks, f, b);
    }
    if Room(c.blocks, g.ppb) == 1 {
      var b := TotalOne(c.blocks, f);
      assert LastPageIn(c.blocks, b, g.ppb);
    }
  }

  /** Records that fit besides nbMeta metadata blocks. */
  function Pages(g: Geometry, nbMeta: nat): (n: nat)
    requires nbMeta <= g.nbBlocks && g.ppb >= 1
  {
    Off(g.nbBlocks - nbMeta, g.ppb - 1)
  }

  /** Pages written with records that have not been reclaimed: live ones and invalid ones. */
  ghost function UsedPages(c: Cfg, m: Contents): int {
    |m| + Garbage(c.blocks)
  }

  /** The number of keys and of invalid pages decides whether the store is full, or takes just one more record. */
  lemma FullIff(g: Geometry, c: Cfg, m: Contents, nbMeta: nat)
    requires Inv(g, c, m) && MetaFull(c.blocks, g.ppb) && Total(c.blocks, Metas()) == nbMeta
    ensures nbMeta <= g.nbBlocks && g.ppb >= 1 && |m| <= UsedPages(c, m) <= Pages(g, nbMeta)
    ensures c.readOnly <==> UsedPages(c, m) == Pages(g, nbMeta)
    ensures OnePageLeft(c.blocks, g.ppb) <==> UsedPages(c, m) + 1 == Pages(g, nbMeta)
  {
    InvShape(g, c, m);
    forall b | 0 <= b < g.nbBlocks ensures BlkOk(g, c.blocks[b], c.flash[b]) {
      InvBlock(g, c, m, b);
    }
    hide Inv, Sound, OnePageLeft;
    Conservation(g, c.blocks, c.flash);
    LiveIsMap(g, c, m);
    RoomTells(g, c);
    TotalNonNegative(c.blocks, Invalids());
  }

  // ----- counting metadata blocks -----

  ghost function MetaSet(blocks: seq<Blk>): set<nat> {
    set b: nat | b < |blocks| && blocks[b].state.Meta?
  }

  lemma {:induction false} MetaCount(blocks: seq<Blk>)
    ensures Total(blocks, Metas()) == |MetaSet(blocks)|
  {
    if blocks == [] {
      assert MetaSet(blocks) == {};
    } else {
      var n := |blocks| - 1;
      MetaCount(blocks[..n]);
      assert MetaSet(blocks) == MetaSet(blocks[..n]) + (if blocks[n].state.Meta? then {n} else {});
    }
  }

  lemma FlushedCount(g: Geometry, c: Cfg, order: seq<int>, buf: seq<byte>)
    requires Flushed(g, c, order, buf)
    ensures Total(c.blocks, Metas()) == |order| && MetaFull(c.blocks, g.ppb)
  {
    MetaCount(c.blocks);
    FlushedDistinct(g, c, order, buf);
    forall b: nat ensures b in MetaSet(c.blocks) <==> b in order {
      assert b in MetaSet(c.blocks) <==> MetaBlock(c, b);
      if b in order {
        var i :| 0 <= i < |order| && order[i] == b;
        assert MetaBlock(c, order[i]);
      }
    }
    OrderCard(order, MetaSet(c.blocks));
    forall b | 0 <= b < |c.blocks| && c.blocks[b].state.Meta? ensures c.blocks[b].offset == g.ppb {
      FlushedFull(g, c, order, buf, b);
    }
  }

  lemma MetaKeptCount(c: Cfg, d: Cfg)
    requires MetaKept(c, d)
    ensures Total(d.blocks, Metas()) == Total(c.blocks, Metas())
  {
    MetaCount(c.blocks);
    MetaCount(d.blocks);
    assert MetaSet(d.blocks) == MetaSet(c.blocks);
  }

  function Datas(): Blk -> int { (b: Blk) => if b.state.Meta? then 0 else 1 }

  lemma {:induction false} DataCount(blocks: seq<Blk>)
    ensures Total(blocks, Datas()) + Total(blocks, Metas()) == |blocks|
  {
    if blocks == [] {
    } else {
      DataCount(blocks[..|blocks| - 1]);
    }
  }

  /** When all blocks but one hold metadata, that one has all the records and all the invalid pages. */
  lemma SoleBlock(g: Geometry, c: Cfg, m: Contents) returns (t: nat)
    requires Inv(g, c, m) && Total(c.blocks, Metas()) + 1 == g.nbBlocks
    ensures t < g.nbBlocks == |c.blocks| && c.blocks[t].nbInvalid == Garbage(c.blocks) && |c.blocks[t].list| == |m|
    ensures forall b :: 0 <= b < g.nbBlocks && b != t ==> c.blocks[b].nbInvalid == 0
  {
    hide Inv;
    InvShape(g, c, m);
    DataCount(c.blocks);
    t := TotalOne(c.blocks, Datas());
    forall b | 0 <= b < g.nbBlocks && b != t ensures c.blocks[b].nbInvalid == 0 && c.blocks[b].list == [] {
      InvBlock(g, c, m, b);
      assert Datas()(c.blocks[b]) == 0;
    }
    TotalOnly(c.blocks, Invalids(), t);
    TotalOnly(c.blocks, Lives(), t);
    LiveIsMap(g, c, m);
  }

  lemma FreshCount(c: Cfg, ppb: nat)
    requires AllFree(c)
    ensures Total(c.blocks, Metas()) == 0 && MetaFull(c.blocks, ppb)
  {
    TotalZero(c.blocks, Metas());
  }

  // ----- how invalid pages come and go -----

  lemma GarbageAtLeast(g: Geometry, c: Cfg, b: nat)
    requires Sound(g, c) && b < g.nbBlocks
    ensures c.blocks[b].nbInvalid <= Garbage(c.blocks)
  {
    forall j | 0 <= j < |c.blocks| ensures c.blocks[j].nbInvalid >= 0 {
      SoundBlock(g, c, j);
    }
    hide Sound;
    TotalAtLeast(c.blocks, Invalids(), b);
  }

  lemma GarbageSame(c: seq<Blk>, d: seq<Blk>)
    requires |c| == |d| && forall i :: 0 <= i < |c| ==> d[i].nbInvalid == c[i].nbInvalid
    ensures Garbage(d) == Garbage(c)
  {
    TotalMono(c, d, Invalids());
    TotalMono(d, c, Invalids());
  }

  /** Every bucket that is dropped leaves one invalid page. */
  lemma GarbageDelete(g: Geometry, c: Cfg, s: nat)
    requires Shape(g, c) && s < |c.table| && SlotOk(g, c, s)
    ensures Garbage(Delete(g, c, s).blocks) == Garbage(c.blocks) + 1
  {
    var b := BlockOf(c.table[s].index, g.ppb);
    TotalSet(c.blocks, Invalids(), b, Delete(g, c, s).blocks[b]);
  }
}

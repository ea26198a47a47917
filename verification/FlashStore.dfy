/**
 The serial key/value store. The class holds the fields of the global `config` and of the
 flash device; its methods are the operations of the driver, each proved against the
 pure functions and the invariant of module Config.
 */
module FlashStore {
  import opened Bytes
  import opened Arithmetic
  import opened Addressing
  import opened ProbeTable
  import opened Record
  import opened Config
  import opened StrideBuffer
  import opened StrideDamage
  import opened LiveRecords
  import opened LostRecords
  import opened Metadata
  import opened Capacity
  import opened StoreSpec

  /** Worn counters stay clear of the C int limit by at least `room` erasures. */
  ghost predicate WearRoom(blocks: seq<Blk>, room: nat) {
    forall b :: 0 <= b < |blocks| ==> 0 <= blocks[b].worn < INT_MAX - room
  }

  lemma AgedRoom(c: Cfg, d: Cfg, k: nat)
    requires Aged(c, d, k) && WearRoom(c.blocks, k)
    ensures WearRoom(d.blocks, 0)
  {
  }

  lemma SameBlockCount(c: Cfg, d: Cfg, e: Cfg)
    requires Aged(c, d, 0) || Aged(c, d, 1)
    requires Aged(d, e, 0) || Aged(d, e, 1)
    ensures |c.blocks| == |d.blocks| == |e.blocks|
  {
  }

  lemma AgedRoomMore(c: Cfg, d: Cfg, j: nat, k: nat)
    requires Aged(c, d, j) && WearRoom(c.blocks, j + k)
    ensures WearRoom(d.blocks, k)
  {
  }

  /** The index has the key at this page. */
  ghost predicate Indexed(table: seq<Bucket>, key: Key, page: int) {
    exists s :: 0 <= s < |table| && table[s].valid && table[s].key == key && table[s].index == page
  }

  lemma CollectGarbage(c: Cfg, d: Cfg, b: nat)
    requires OnlyBlock(c, d, b) && b < |c.blocks| && d.blocks[b].nbInvalid == 0
    ensures Garbage(d.blocks) == Garbage(c.blocks) - c.blocks[b].nbInvalid
  {
    assert d.blocks == c.blocks[b := d.blocks[b]];
    TotalSet(c.blocks, Invalids(), b, d.blocks[b]);
  }

  /** Another block, not for metadata, with more free pages than the target has live ones. */
  ghost predicate HasSpace(blocks: seq<Blk>, order: seq<int>, ppb: nat, target: int, b: int) {
    && 0 <= target < |blocks| && 0 <= b < |blocks| && b != target && b !in order
    && ppb - blocks[b].offset > |blocks[target].list|
  }

  /** The block that the parallel gc moves the target to: the least worn with space, else the least worn free one, else itself. */
  ghost predicate IsVictim(blocks: seq<Blk>, order: seq<int>, ppb: nat, target: int, v: int) {
    && 0 <= v < |blocks|
    && if exists b :: HasSpace(blocks, order, ppb, target, b) then
         && HasSpace(blocks, order, ppb, target, v)
         && forall b :: HasSpace(blocks, order, ppb, target, b) ==>
              blocks[v].worn <= blocks[b].worn && (b < v ==> blocks[v].worn < blocks[b].worn)
       else if exists b :: 0 <= b < |blocks| && blocks[b].offset == 0 && blocks[b].state.Free? then
         && blocks[v].offset == 0 && blocks[v].state.Free?
         && forall b :: 0 <= b < |blocks| && blocks[b].offset == 0 && blocks[b].state.Free? ==>
              blocks[v].worn <= blocks[b].worn && (b < v ==> blocks[v].worn < blocks[b].worn)
       else v == target
  }

  /** How often each block is erased by a set: once if it is collected, once if the flush takes its snapshot away. */
  ghost predicate SetWear(before: seq<Blk>, written: seq<Blk>, after: seq<Blk>, order: seq<int>, due: bool) {
    && |before| == |written| == |after|
    && forall i :: 0 <= i < |before| ==>
         after[i].worn == before[i].worn + (if IsTarget(written, [], INVALID_THRESHOLD, i) then 1 else 0) + (if due && i in order then 1 else 0)
  }

  lemma CollectWear(c: Cfg, w: Cfg, d: Cfg)
    requires Aged(c, w, 0) && |w.blocks| == |d.blocks|
    requires NoTarget(w.blocks, [], INVALID_THRESHOLD) ==> d == w
    requires forall b :: IsTarget(w.blocks, [], INVALID_THRESHOLD, b) ==> Worn(w, d, {b})
    ensures SetWear(c.blocks, w.blocks, d.blocks, [], false)
  {
    if b :| IsTarget(w.blocks, [], INVALID_THRESHOLD, b) {
      assert Worn(w, d, {b});
      forall i | 0 <= i < |w.blocks| ensures IsTarget(w.blocks, [], INVALID_THRESHOLD, i) <==> i == b {
      }
    } else {
      NoTargetIff(w.blocks, |w.blocks|);
    }
  }

  /** Either no block is due, or there is a first one. */
  lemma {:induction false} NoTargetIff(blocks: seq<Blk>, n: nat)
    requires n <= |blocks| && forall b :: 0 <= b < n ==> !IsTarget(blocks, [], INVALID_THRESHOLD, b)
    ensures forall i :: 0 <= i < n ==> blocks[i].nbInvalid < INVALID_THRESHOLD
  {
    if n == 0 {
    } else {
      NoTargetIff(blocks, n - 1);
      assert !IsTarget(blocks, [], INVALID_THRESHOLD, n - 1);
    }
  }

  lemma FlushWear(before: seq<Blk>, written: seq<Blk>, c: Cfg, d: Cfg, order: seq<int>)
    requires SetWear(before, written, c.blocks, [], false) && Worn(c, d, Entries(order))
    ensures SetWear(before, written, d.blocks, order, true)
  {
  }

  lemma NoFlushWear(before: seq<Blk>, written: seq<Blk>, after: seq<Blk>, order: seq<int>)
    requires SetWear(before, written, after, [], false)
    ensures SetWear(before, written, after, order, false)
  {
  }

  /** Same state and append offset, block by block. */
  ghost predicate SameUse(c: seq<Blk>, d: seq<Blk>) {
    |c| == |d| && forall i :: 0 <= i < |c| ==> d[i].state == c[i].state && d[i].offset == c[i].offset
  }

  /** At most one block gains an invalid page, and no more than one. */
  ghost predicate OneMoreInvalid(c: seq<Blk>, d: seq<Blk>) {
    && |c| == |d|
    && (forall i :: 0 <= i < |c| ==> d[i].nbInvalid <= c[i].nbInvalid + 1)
    && forall i, j :: 0 <= i < j < |c| ==> d[i].nbInvalid <= c[i].nbInvalid || d[j].nbInvalid <= c[j].nbInvalid
  }

  lemma DeleteUse(g: Geometry, c: Cfg, s: nat)
    requires Shape(g, c) && s < |c.table| && SlotOk(g, c, s)
    ensures SameUse(c.blocks, Delete(g, c, s).blocks) && OneMoreInvalid(c.blocks, Delete(g, c, s).blocks)
  {
  }

  lemma UseSelf(blocks: seq<Blk>)
    ensures SameUse(blocks, blocks) && OneMoreInvalid(blocks, blocks)
  {
  }

  lemma InvalidKept(c: seq<Blk>, d: Cfg, e: Cfg, b: nat)
    requires OneMoreInvalid(c, d.blocks) && OnlyBlock(d, e, b) && b < |d.blocks| && e.blocks[b].nbInvalid == d.blocks[b].nbInvalid
    ensures OneMoreInvalid(c, e.blocks)
  {
  }

  lemma SameUseFrame(c: seq<Blk>, d: seq<Blk>, ppb: nat)
    requires SameUse(c, d)
    ensures FreeSet(d) == FreeSet(c) && OnePageLeft(d, ppb) == OnePageLeft(c, ppb)
  {
    forall b | 0 <= b < |c| ensures LastPageIn(c, b, ppb) == LastPageIn(d, b, ppb) {
    }
  }

  /** A record written to block b fills the flash iff it took the last page. */
  lemma LastPageIff(c: Cfg, d: Cfg, b: nat, ppb: nat)
    requires OnlyBlock(c, d, b) && b < |c.blocks| && 0 <= c.blocks[b].offset < ppb
    requires d.blocks[b].offset == c.blocks[b].offset + (if c.blocks[b].offset == 0 then 2 else 1) <= ppb
    ensures AllFull(d.blocks, ppb) == OnePageLeft(c.blocks, ppb)
  {
    if AllFull(d.blocks, ppb) {
      assert LastPageIn(c.blocks, b, ppb);
    }
    if OnePageLeft(c.blocks, ppb) {
      var x :| 0 <= x < |c.blocks| && LastPageIn(c.blocks, x, ppb);
      assert x == b;
    }
  }

  lemma SteadyRoom(c: Cfg, d: Cfg, ppb: nat)
    requires Steady(c, d) && WearRoom(c.blocks, 0) && MetaFull(c.blocks, ppb)
    ensures WearRoom(d.blocks, 0) && MetaFull(d.blocks, ppb)
  {
  }

  /** The unsigned 64-bit difference of the two clock readings, as set_keyval compares it. */
  predicate FlushDue(timeFlush: nat, now: nat) {
    (now - timeFlush) % U64 >= 1000000
  }

  /** A flush is due when the clock value has grown by 1000000, counted in 64 bits when it went back. */
  lemma FlushDueIff(timeFlush: nat, now: nat)
    requires timeFlush < U64 && now < U64
    ensures FlushDue(timeFlush, now) <==>
              if timeFlush <= now then now - timeFlush >= 1000000 else now + U64 - timeFlush >= 1000000
  {
    if timeFlush <= now {
      QuotientUnique(now - timeFlush, U64, 0, now - timeFlush);
    } else {
      QuotientUnique(now - timeFlush, U64, -1, now - timeFlush + U64);
    }
  }

  /** The clock value: seconds count a million each, nanoseconds one each. */
  function ClockValue(sec: nat, nsec: nat): (v: nat) {
    sec * 1000000 + nsec
  }

  /**
   What that means in time, as the two parts of the value do not go together: a flush is not
   due iff the value has grown, by less than a million. Within a second that is a millisecond.
   */
  lemma FlushDueClock(sec1: nat, nsec1: nat, sec2: nat, nsec2: nat)
    requires nsec1 < 1000000000 && nsec2 < 1000000000 && sec1 <= sec2 && ClockValue(sec2, nsec2) < U64 && ClockValue(sec1, nsec1) < U64
    ensures FlushDue(ClockValue(sec1, nsec1), ClockValue(sec2, nsec2)) <==>
              !(0 <= (sec2 - sec1) * 1000000 + nsec2 - nsec1 < 1000000)
    ensures sec1 == sec2 && nsec1 <= nsec2 ==>
              (FlushDue(ClockValue(sec1, nsec1), ClockValue(sec2, nsec2)) <==> nsec2 - nsec1 >= 1000000)
  {
    FlushDueIff(ClockValue(sec1, nsec1), ClockValue(sec2, nsec2));
  }

  /** No flush is due 499.5 seconds after the last one, but one is a millisecond after it. */
  lemma FlushLate()
    ensures !FlushDue(ClockValue(1000, 500000000), ClockValue(1500, 0))
    ensures FlushDue(ClockValue(1000, 500000000), ClockValue(1000, 501000000))
  {
    FlushDueClock(1000, 500000000, 1500, 0);
    FlushDueClock(1000, 500000000, 1000, 501000000);
  }

  /** A set brings at most one block to the threshold, so one collection is enough. */
  lemma CollectedAll(c: Cfg, d: Cfg, e: Cfg)
    requires NoTarget(c.blocks, [], INVALID_THRESHOLD) && OneMoreInvalid(c.blocks, d.blocks)
    requires NoTarget(d.blocks, [], INVALID_THRESHOLD) ==> e == d
    requires forall b :: IsTarget(d.blocks, [], INVALID_THRESHOLD, b) ==> OnlyBlock(d, e, b) && e.blocks[b].nbInvalid == 0
    ensures NoTarget(e.blocks, [], INVALID_THRESHOLD)
  {
    if b :| 0 <= b < |d.blocks| && d.blocks[b].nbInvalid >= INVALID_THRESHOLD {
      forall i | 0 <= i < |d.blocks| && i != b ensures d.blocks[i].nbInvalid < INVALID_THRESHOLD {
        assert c.blocks[i].nbInvalid < INVALID_THRESHOLD && c.blocks[b].nbInvalid < INVALID_THRESHOLD;
      }
      assert IsTarget(d.blocks, [], INVALID_THRESHOLD, b);
    }
  }

  /** A flush creates no garbage in data blocks. */
  lemma FlushNoTarget(g: Geometry, c: Cfg, d: Cfg)
    requires Sound(g, d) && UsedKept(c, d)
    ensures NoTarget(c.blocks, [], INVALID_THRESHOLD) ==> NoTarget(d.blocks, [], INVALID_THRESHOLD)
  {
    hide Sound;
    SoundShape(g, d);
    forall b | 0 <= b < |d.blocks| && d.blocks[b].nbInvalid >= INVALID_THRESHOLD ensures c.blocks[b].nbInvalid >= INVALID_THRESHOLD {
      SoundBlock(g, d, b);
    }
  }

  class Store {
    const g: Geometry
    const metaSize: nat
    var blocks: seq<Blk>
    var table: seq<Bucket>
    var flash: seq<seq<Page>>
    var readOnly: bool
    var metaOrder: seq<int>
    var timeFlush: nat

    ghost var m: Contents
    ghost var saved: seq<byte>

    ghost function Snap(): Cfg
      reads this
    {
      Cfg(blocks, table, flash, readOnly)
    }

    /** NAND discipline and accounting. */
    ghost predicate Sane()
      reads this
      ensures Sane() ==> Shape(g, Snap()) && readOnly == AllFull(blocks, g.ppb)
    {
      Sound(g, Snap())
    }

    /** Moreover index and flash stand for the map m. */
    ghost predicate Ok()
      reads this
      ensures Ok() ==> Sane()
    {
      Inv(g, Snap(), m)
    }

    ghost predicate Upkeep()
      reads this
      ensures Upkeep() ==> Sizes(g, |metaOrder|) && |metaOrder| < 0x8000_0000
    {
      && g.Valid() && |metaOrder| == NbMetaBlocks(metaSize, g.pageSize, g.ppb)
      && |metaOrder| < g.nbBlocks < 0x8000_0000 && MetaInv(g, Snap(), metaOrder, saved, timeFlush)
    }

    /** The invariant between two operations. */
    ghost predicate Valid()
      reads this
    {
      Ok() && Upkeep()
    }

    /** First mount: init_scan finds no snapshot and formats the whole flash. */
    constructor (g: Geometry, metaSize: nat)
      requires g.Valid() && NbMetaBlocks(metaSize, g.pageSize, g.ppb) < g.nbBlocks < 0x8000_0000
      ensures Valid() && m == map[] && this.g == g && this.metaSize == metaSize && timeFlush == 0
      ensures |metaOrder| == NbMetaBlocks(metaSize, g.pageSize, g.ppb)
      ensures !Flushed(g, Snap(), metaOrder, saved)
      ensures forall b :: 0 <= b < |blocks| ==> blocks[b].worn == 0 && blocks[b].nbInvalid == 0
    {
      this.g := g;
      this.metaSize := metaSize;
      blocks := seq(g.nbBlocks, _ => Blk([], Free, 0, 0, 0));
      table := seq(Off(g.nbBlocks, g.ppb), _ => Bucket(false, false, [], 0));
      flash := seq(g.nbBlocks, _ => Blank(g.ppb));
      readOnly := false;
      metaOrder := seq(NbMetaBlocks(metaSize, g.pageSize, g.ppb), _ => -1);
      timeFlush := 0;
      m := map[];
      saved := [];
      new;
      OffStep(0, g.nbBlocks, g.ppb);
      FreshInv(g, Snap());
      assert !MetaBlock(Snap(), metaOrder[0]);
    }

    // ----- hash.c -----

    method HashSearch(key: Key) returns (r: int)
      requires |table| > 0
      ensures r == Search(table, g.hash, key)
    {
      var size := |table|;
      var h := g.hash(key) % size;
      var i, counter := h, 0;
      while true
        invariant 0 <= counter < size && i == Slot(size, h, counter)
        invariant SearchFrom(table, h, key, counter) == Search(table, g.hash, key)
        decreases size - counter
      {
        if counter == size - 1 {
          return -1;
        }
        if table[i].valid && table[i].key == key {
          return i;
        }
        if !table[i].dirty {
          return -2;
        }
        NextSlot(size, h, counter);
        i := (i + 1) % size;
        counter := counter + 1;
      }
    }

    method HashAdd(key: Key, index: int) returns (r: int)
      requires |table| > 0
      modifies this`table
      ensures (table, r) == Add(old(table), g.hash, key, index)
    {
      var size := |table|;
      var h := g.hash(key) % size;
      var i, count := h, 0;
      hide MarkPath, Dist;
      MarkNone(table, h);
      while table[i].valid
        invariant 0 <= count < size && i == Slot(size, h, count)
        invariant table == MarkPath(old(table), h, count)
        invariant FreeDist(old(table), h, count) == FreeDist(old(table), h, 0)
        decreases size - count
      {
        MarkNext(old(table), h, count);
        table := table[i := table[i].(dirty := true)];
        if count == size - 1 {
          return -1;
        }
        NextSlot(size, h, count);
        i := (i + 1) % size;
        count := count + 1;
      }
      MarkNext(old(table), h, count);
      table := table[i := table[i].(valid := true, key := key, index := index)];
      r := i;
    }

    // ----- invalid_pg -----

    method InvalidPg(s: nat)
      requires Shape(g, Snap()) && s < |table| && table[s].index >= 0 && BlockOf(table[s].index, g.ppb) < g.nbBlocks
      modifies this`table, this`blocks
      ensures Snap() == Delete(g, old(Snap()), s)
    {
      table := table[s := table[s].(valid := false)];
      BlockOfIsQuotient(table[s].index, g.ppb);
      var b := table[s].index / g.ppb;
      blocks := blocks[b := blocks[b].(nbInvalid := blocks[b].nbInvalid + 1)];
      blocks := blocks[b := blocks[b].(list := Remove(blocks[b].list, s))];
    }

    // ----- is_read_only, write_page, write_hdr -----

    method IsReadOnly() returns (full: bool)
      ensures full == AllFull(blocks, g.ppb)
    {
      for i := 0 to |blocks|
        invariant forall b :: 0 <= b < i ==> blocks[b].offset >= g.ppb
      {
        if blocks[i].offset < g.ppb {
          return false;
        }
      }
      return true;
    }

    /** The caller must aim at the next erased page of the block: NAND pages are written once and in order. */
    method WritePage(pageIndex: nat, buf: seq<byte>) returns (code: int)
      requires Shape(g, Snap()) && BlockOf(pageIndex, g.ppb) < g.nbBlocks
      requires var b := BlockOf(pageIndex, g.ppb);
               !readOnly ==>
                 && PageOf(pageIndex, g.ppb) == blocks[b].offset < |flash[b]|
                 && flash[b][blocks[b].offset] == Erased
      modifies this`blocks, this`flash, this`readOnly
      ensures old(readOnly) ==> code == -1 && Snap() == old(Snap())
      ensures !old(readOnly) ==>
                && Snap() == Put(g, old(Snap()), BlockOf(pageIndex, g.ppb), buf)
                && code == if readOnly then -1 else 0
    {
      if readOnly {
        return -1;
      }
      BlockOfIsQuotient(pageIndex, g.ppb);
      var b, o := pageIndex / g.ppb, pageIndex % g.ppb;
      flash := flash[b := flash[b][o := Written(buf)]];
      blocks := blocks[b := blocks[b].(offset := blocks[b].offset + 1)];
      var full := IsReadOnly();
      readOnly := full;
      code := if full then -1 else 0;
    }

    method WriteDataHdr(b: nat)
      requires Ok() && b < g.nbBlocks && blocks[b].state.Free? && !readOnly
      modifies this`blocks, this`flash, this`readOnly
      ensures BlkOk(g, old(blocks[b]), old(flash[b]))
      ensures Snap() == Header(g, old(Snap()), b)
      ensures Ok() && !readOnly
    {
      hide Inv, Sound;
      InvBlock(g, Snap(), m, b);
      HeaderInv(g, Snap(), m, b);
      var pageIndex := Addr(b, blocks[b].offset, g.ppb);
      AddrSplit(b, blocks[b].offset, g.ppb);
      var _ := WritePage(pageIndex, Zeros(g.pageSize));
      blocks := blocks[b := blocks[b].(state := Used)];
    }

    // ----- get_healthy_block, get_next_page -----

    method GetHealthyBlock() returns (r: int)
      ensures -1 <= r < |blocks|
      ensures r == -1 ==> forall b :: 0 <= b < |blocks| ==> !Writable(blocks[b], g.ppb)
      ensures r >= 0 ==> IsHealthy(blocks, g.ppb, r)
    {
      r := -1;
      var minimum := INT_MAX;
      for i := 0 to |blocks|
        invariant -1 <= r < i
        invariant r == -1 ==> minimum == INT_MAX && forall b :: 0 <= b < i ==> !Writable(blocks[b], g.ppb)
        invariant r >= 0 ==> Writable(blocks[r], g.ppb) && minimum == blocks[r].worn
        invariant r >= 0 ==> forall b :: 0 <= b < i && Writable(blocks[b], g.ppb) ==>
                               minimum <= blocks[b].worn && (b < r ==> minimum < blocks[b].worn)
      {
        if !blocks[i].state.Invalid? {
          if blocks[i].offset < g.ppb {
            if blocks[i].worn < minimum {
              minimum := blocks[i].worn;
              r := i;
            }
          }
        }
      }
    }

    /** A store that is not full always has a data block to write to; metadata blocks are full and never chosen. */
    method GetNextPage() returns (b: int)
      requires Ok() && !readOnly && MetaFull(blocks, g.ppb) && WearRoom(blocks, 0)
      modifies this`blocks, this`flash, this`readOnly
      ensures Ok() && !readOnly
      ensures 0 <= b < g.nbBlocks && blocks[b].state.Used? && blocks[b].offset < g.ppb
      ensures IsHealthy(old(blocks), g.ppb, b) && Placeable(g, old(Snap()), b) && Snap() == Opened(g, old(Snap()), b)
      ensures Steady(old(Snap()), Snap()) && OnlyBlock(old(Snap()), Snap(), b)
      ensures blocks[b].nbInvalid == old(blocks[b].nbInvalid)
      ensures 0 <= old(blocks[b].offset) < g.ppb && blocks[b].offset == if old(blocks[b].offset) == 0 then 1 else old(blocks[b].offset)
    {
      hide Inv, Sound;
      b := GetHealthyBlock();
      assert b >= 0 by {
        var open :| 0 <= open < |blocks| && blocks[open].offset < g.ppb;
        InvBlock(g, Snap(), m, open);
        assert Writable(blocks[open], g.ppb);
      }
      InvBlock(g, Snap(), m, b);
      if blocks[b].offset < 1 {
        assert blocks[b].state.Free?;
        WriteDataHdr(b);
      }
    }

    // ----- set_keyval -----

    /** The lookup and invalidation that set_keyval starts with. */
    method DropKey(key: Key)
      requires Ok()
      modifies this`table, this`blocks, this`m
      ensures Ok() && m == old(m) - {key} && Snap() == Dropped(g, old(Snap()), key)
      ensures Steady(old(Snap()), Snap()) && SameUse(old(blocks), blocks) && OneMoreInvalid(old(blocks), blocks)
    {
      hide Inv, Sound, Delete, SameUse, OneMoreInvalid, Steady, LiveKeys;
      FrameSelf(Snap(), 0);
      UseSelf(blocks);
      InvTable(g, Snap(), m);
      SearchExact(table, g.hash, key);
      var s := HashSearch(key);
      if s >= 0 {
        DeleteInv(g, Snap(), m, s);
        DeleteFrame(g, Snap(), s);
        DeleteUse(g, Snap(), s);
        InvalidPg(s);
      }
      assert s < 0 ==> m - {key} == m;
      m := m - {key};
    }

    /** One page to the append offset of data block b: write_page, hash_add, list_add. None of them can fail. */
    method AppendPage(b: nat, key: Key, buffer: seq<byte>) returns (ret: int)
      requires Sane() && b < g.nbBlocks && blocks[b].state.Used? && blocks[b].offset < g.ppb && |buffer| == g.pageSize
      modifies this`table, this`blocks, this`flash, this`readOnly
      ensures Sane() && BlkOk(g, old(blocks[b]), old(flash[b])) && Snap() == Append(g, old(Snap()), b, key, buffer)
      ensures ret == if readOnly then -1 else 0
      ensures blocks[b].offset == old(blocks[b].offset) + 1
      ensures blocks[b].state.Used? && blocks[b].nbInvalid == old(blocks[b].nbInvalid)
      ensures blocks[b].list != [] && blocks[b].list[1..] == old(blocks[b].list)
      ensures Steady(old(Snap()), Snap()) && OnlyBlock(old(Snap()), Snap(), b)
    {
      hide Sound, Extends, TwoFree;
      AppendSound(g, Snap(), b, key, buffer);
      AppendFrame(g, Snap(), b, key, buffer);
      var index := Addr(b, blocks[b].offset, g.ppb);
      AddrSplit(b, blocks[b].offset, g.ppb);
      assert !readOnly;
      assert flash[b][blocks[b].offset] == Erased;
      ret := WritePage(index, buffer);
      var slot := HashAdd(key, index);
      blocks := blocks[b := blocks[b].(list := [slot] + blocks[b].list)];
      assert Snap() == Append(g, old(Snap()), b, key, buffer);
    }

    /**
     set_keyval from the lookup of the old copy to the indexing of the new one. Returns the
     status of write_page, and the block that was written to.
     */
    method PutRecord(key: Key, val: seq<byte>) returns (ret: int, ghost b: nat)
      requires Ok() && !readOnly && MetaFull(blocks, g.ppb) && WearRoom(blocks, 0)
      requires Couple(key, val).WellFormed() && |key| < 128 && Couple(key, val).Size() <= g.pageSize
      modifies this`table, this`blocks, this`flash, this`readOnly, this`m
      ensures Ok() && m == old(m)[key := val]
      ensures Sound(g, Dropped(g, old(Snap()), key))
      ensures IsHealthy(Dropped(g, old(Snap()), key).blocks, g.ppb, b) && Placeable(g, Dropped(g, old(Snap()), key), b)
      ensures Snap() == Placed(g, Dropped(g, old(Snap()), key), b, key, Encode(Couple(key, val), g.pageSize))
      ensures Garbage(blocks) == old(Garbage(blocks)) + if key in old(m) then 1 else 0
      ensures ret == if OnePageLeft(old(blocks), g.ppb) then -1 else 0
      ensures Steady(old(Snap()), Snap()) && |FreeSet(blocks)| + 1 >= old(|FreeSet(blocks)|)
      ensures OneMoreInvalid(old(blocks), blocks)
    {
      hide Inv, Sound, Holds, Steady, Couple.Image, OnePageLeft, FreeSet, Dropped, Opened, Append, Garbage, IsHealthy;
      ghost var c0 := Snap();
      DroppedInv(g, c0, m, key);
      DropKey(key);
      ghost var c1 := Snap();
      SameUseFrame(c0.blocks, c1.blocks, g.ppb);
      var rec := Couple(key, val);
      EncodeHolds(rec, g.pageSize);
      var buffer := Encode(rec, g.pageSize);
      SteadyRoom(c0, c1, g.ppb);
      var block := GetNextPage();
      b := block;
      ghost var c2 := Snap();
      PutInv(g, c0, old(m), rec, b);
      AppendInv(g, c2, m, b, rec, buffer);
      ret := AppendPage(block, key, buffer);
      m := old(m)[key := val];
      SteadyTrans(c0, c1, c2);
      SteadyTrans(c0, c2, Snap());
      OnlyBlockTrans(c1, c2, Snap(), b);
      FreeButOne(c1, Snap(), b);
      LastPageIff(c1, Snap(), b, g.ppb);
      InvalidKept(c0.blocks, c1, Snap(), b);
    }

    // ----- get_keyval, del_key -----

    /** Returns the page index and the value, or -1. */
    method Get(key: Key) returns (page: int, val: seq<byte>)
      requires Ok()
      ensures page >= 0 <==> key in m
      ensures page >= 0 ==> val == m[key] && Indexed(table, key, page)
      ensures page < 0 ==> page == -1
    {
      hide Inv, Sound;
      InvTable(g, Snap(), m);
      SearchExact(table, g.hash, key);
      var s := HashSearch(key);
      val := [];
      if s >= 0 {
        InvSlot(g, Snap(), m, s);
        page := table[s].index;
        BlockOfIsQuotient(page, g.ppb);
        var b, o := page / g.ppb, page % g.ppb;
        InvBlock(g, Snap(), m, b);
        if blocks[b].state.Used? {
          if !table[s].valid {
            return -1, [];
          }
          var buffer := flash[b][o].bytes;
          HoldsDecodes(buffer, Couple(key, m[key]));
          var keyLen, valLen := KeyLen(buffer), ValLen(buffer);
          if buffer[8..8 + |key|] == key {
            val := buffer[8 + keyLen..8 + keyLen + valLen];
            return page, val;
          }
        }
      }
      page := -1;
    }

    /** Returns the page index of the deleted record, or -2. */
    method Del(key: Key) returns (page: int)
      requires Ok()
      modifies this`table, this`blocks, this`m
      ensures Ok() && m == old(m) - {key}
      ensures page >= 0 <==> key in old(m)
      ensures page >= 0 ==> Indexed(old(table), key, page)
      ensures page < 0 ==> page == -2 && Snap() == old(Snap())
      ensures Steady(old(Snap()), Snap()) && Garbage(blocks) == old(Garbage(blocks)) + if key in old(m) then 1 else 0
    {
      hide Inv, Sound, Delete, Garbage;
      InvTable(g, Snap(), m);
      SearchExact(table, g.hash, key);
      var s := HashSearch(key);
      assert s < 0 ==> m - {key} == m;
      if s >= 0 {
        DeleteInv(g, Snap(), m, s);
        DeleteFrame(g, Snap(), s);
        GarbageDelete(g, Snap(), s);
        page := table[s].index;
        BlockOfIsQuotient(page, g.ppb);
        if blocks[page / g.ppb].state.Used? {
          if !table[s].valid {
            return -1;
          }
          InvalidPg(s);
          m := m - {key};
          return page;
        }
      }
      page := -2;
    }

    // ----- format_single -----

    method FormatSingle(b: int)
      requires Shape(g, Snap()) && b < g.nbBlocks
      modifies this`blocks, this`flash, this`readOnly
      ensures b < 0 ==> Snap() == old(Snap())
      ensures b >= 0 ==> Snap() == Erase(g, old(Snap()), b)
      ensures b >= 0 ==>
                && blocks == old(blocks)[b := Blk([], Free, old(blocks[b].worn) + 1, 0, 0)]
                && flash == old(flash)[b := seq(g.ppb, _ => Erased)] && !readOnly
    {
      if b < 0 {
        return;
      }
      flash := flash[b := Blank(g.ppb)];
      blocks := blocks[b := blocks[b].(state := Free, nbInvalid := 0, offset := 0, worn := blocks[b].worn + 1)];
      blocks := blocks[b := blocks[b].(list := [])];
      readOnly := false;
    }

    // ----- gc -----

    /** One step of the walk: read the first live page, look its key up and invalidate it. */
    method TakeFirst(target: nat) returns (page: seq<byte>, keyLen: nat, valLen: nat)
      requires Ok() && target < g.nbBlocks && blocks[target].list != []
      modifies this`table, this`blocks, this`m
      ensures Ok()
      ensures blocks[target].list == old(blocks[target].list)[1..]
      ensures Live(Snap(), m, target) == old(Live(Snap(), m, target))[1..]
      ensures var rec := old(Live(Snap(), m, target))[0];
              && m == old(m) - {rec.key} && |rec.key| < 128
              && Holds(page, rec) && |page| == g.pageSize
              && keyLen == |rec.key| && valLen == |rec.val|
      ensures Steady(old(Snap()), Snap()) && OnlyBlock(old(Snap()), Snap(), target)
      ensures blocks[target].offset == old(blocks[target].offset) && blocks[target].state == old(blocks[target].state)
    {
      hide Inv, Sound, Holds, Delete, Live;
      var current := blocks[target].list[0];
      LivePage(g, Snap(), m, target, 0);
      LiveAfterDelete(g, Snap(), m, target);
      ghost var rec := Live(Snap(), m, target)[0];
      var index := table[current].index;
      BlockOfIsQuotient(index, g.ppb);
      assert index / g.ppb == target;
      page := flash[index / g.ppb][index % g.ppb].bytes;
      HoldsDecodes(page, rec);
      keyLen, valLen := KeyLen(page), ValLen(page);
      assert |page| >= 8 + keyLen;
      var trueKey := page[8..8 + keyLen];
      InvTable(g, Snap(), m);
      SearchExact(table, g.hash, trueKey);
      var slot := HashSearch(trueKey);
      assert slot == current;
      DeleteInv(g, Snap(), m, slot);
      DeleteFrame(g, Snap(), slot);
      InvalidPg(slot);
      m := m - {trueKey};
    }

    /** Step 1 of gc: walk the valid-page list, copy every live page into the buffer and invalidate it. */
    method ReadLive(target: nat) returns (buffer: seq<byte>, lens: seq<(nat, nat)>, ghost pages: seq<seq<byte>>)
      requires Ok() && target < g.nbBlocks && blocks[target].state.Used? && 8 <= g.ppb
      modifies this`table, this`blocks, this`m
      ensures Ok() && blocks[target].list == []
      ensures var recs := old(Live(Snap(), m, target));
              && m == old(m) - KeySet(recs)
              && Readable(pages, Raws(recs), g.ppb, g.pageSize, Off(g.ppb, g.pageSize))
              && buffer == ReadAll(pages, g.ppb, g.pageSize, Off(g.ppb, g.pageSize))
              && |lens| == |recs|
              && forall i :: 0 <= i < |recs| ==> lens[i] == (|recs[i].key|, |recs[i].val|)
      ensures Steady(old(Snap()), Snap()) && OnlyBlock(old(Snap()), Snap(), target)
      ensures blocks[target].offset == old(blocks[target].offset) && blocks[target].state.Used?
    {
      hide Inv, Sound, Holds, Couple.Image, Readable, ReadAll, Raws, Live, KeySet, Steady, OnlyBlock, Blit, Fits, ListOk, BlkOk;
      FrameSelf(Snap(), target);
      ghost var recs := Live(Snap(), m, target);
      var size := Off(g.ppb, g.pageSize);
      InvBlock(g, Snap(), m, target);
      buffer, lens, pages := Zeros(size), [], [];
      var k, off := 0, 0;
      StartRead(recs, g.ppb, g.pageSize, size);
      assert recs[0..] == recs;
      while blocks[target].list != []
        invariant Ok() && 0 <= k <= |recs| && off == Off(k, g.ppb)
        invariant |recs| == k + |blocks[target].list| && m == old(m) - KeySet(recs[..k])
        invariant blocks[target].state.Used? && Live(Snap(), m, target) == recs[k..]
        invariant |pages| == |lens| == k
        invariant forall i :: 0 <= i < k ==> lens[i] == (|recs[i].key|, |recs[i].val|)
        invariant Readable(pages, Raws(recs[..k]), g.ppb, g.pageSize, size)
        invariant buffer == ReadAll(pages, g.ppb, g.pageSize, size)
        invariant Steady(old(Snap()), Snap()) && OnlyBlock(old(Snap()), Snap(), target)
        invariant blocks[target].offset == old(blocks[target].offset)
        decreases |recs| - k
      {
        ghost var before := Snap();
        assert recs[k..][0] == recs[k] && recs[k..][1..] == recs[k + 1..];
        var page, keyLen, valLen := TakeFirst(target);
        SteadyTrans(old(Snap()), before, Snap());
        OnlyBlockTrans(old(Snap()), before, Snap(), target);
        BufferRoom(k, g.ppb, g.ppb, g.pageSize);
        NextRead(pages, recs, k, page, g.ppb, g.pageSize, size);
        KeySetSnoc(recs, k);
        assert old(m) - KeySet(recs[..k]) - {recs[k].key} == old(m) - KeySet(recs[..k + 1]);
        buffer := Blit(buffer, off, page);
        pages := pages + [page];
        lens := lens + [(keyLen, valLen)];
        k, off := k + 1, off + g.ppb;
      }
      assert recs[..k] == recs;
    }

    /** One record of step 3 of gc: refresh it in the buffer, write it to the victim, index it under the key it then shows. */
    method WriteOne(victim: nat, i: nat, buffer: seq<byte>, keyLen: nat, valLen: nat,
                    ghost pages: seq<seq<byte>>, ghost recs: seq<Couple>, ghost m0: Contents, ghost safe: bool)
      returns (next: seq<byte>, ret: int)
      requires Sane() && victim < g.nbBlocks && blocks[victim].state.Used? && blocks[victim].offset < g.ppb && 8 <= g.ppb
      requires AllWellFormed(recs) && DistinctKeys(recs) && i < |recs| && keyLen == |recs[i].key| && valLen == |recs[i].val|
      requires Scarred(buffer, Raws(recs), i, g.ppb, g.pageSize) && AllGone(g, Snap(), recs)
      requires Readable(pages, Raws(recs), g.ppb, g.pageSize, Off(g.ppb, g.pageSize))
      requires safe ==>
                 && Ok() && AllSurvive(Raws(recs), 0, g.ppb) && Pending(m, m0, recs, i)
                 && buffer == ReadAll(pages, g.ppb, g.pageSize, Off(g.ppb, g.pageSize))
      modifies this`table, this`blocks, this`flash, this`readOnly, this`m
      ensures var off := Off(i, g.ppb);
              && 8 + keyLen + valLen <= g.pageSize && off + g.pageSize <= |buffer| && keyLen + valLen < 0x8000_0000
              && next == Touch(buffer, off, Le32(keyLen) + Le32(valLen), keyLen, 8 + keyLen + valLen)
              && BlkOk(g, old(blocks[victim]), old(flash[victim]))
              && Snap() == Append(g, old(Snap()), victim, UntilNul(next[off + 8..off + 8 + keyLen]), next[off..off + g.pageSize])
      ensures Sane() && Scarred(next, Raws(recs), i + 1, g.ppb, g.pageSize) && AllGone(g, Snap(), recs)
      ensures safe ==> Ok() && Pending(m, m0, recs, i + 1) && next == buffer
      ensures ret == if readOnly then -1 else 0
      ensures blocks[victim].state.Used? && blocks[victim].offset == old(blocks[victim].offset) + 1
      ensures blocks[victim].nbInvalid == old(blocks[victim].nbInvalid)
      ensures Steady(old(Snap()), Snap()) && OnlyBlock(old(Snap()), Snap(), victim)
    {
      hide Inv, Sound, Holds, Couple.Image, Couple.WellFormed, Readable, ReadAll, Raws, Steady, Blit, OnlyBlock, DistinctKeys,
        Pending, AllSurvive, Touch, Le32, Scarred, AllGone, NotHeld, TooLong, Append, BlkOk, AllWellFormed, UntilNul, Off, AllFull;
      ghost var before, rec := Snap(), recs[i];
      var off := Off(i, g.ppb);
      WriteStep(buffer, recs, i, g.ppb, g.pageSize);
      if safe {
        PendingNext(m, m0, recs, i);
        NextWrite(pages, recs, i, g.ppb, g.pageSize, Off(g.ppb, g.pageSize));
        KeyIsCString(rec);
      }
      next := Touch(buffer, off, Le32(keyLen) + Le32(valLen), keyLen, 8 + keyLen + valLen);
      var shownKey, page := UntilNul(next[off + 8..off + 8 + keyLen]), next[off..off + g.pageSize];
      GoneNext(g, before, victim, shownKey, page, recs);
      ret := AppendPage(victim, shownKey, page);
      if safe {
        AppendInv(g, before, m, victim, rec, page);
        m := m[rec.key := rec.val];
      }
    }

    /**
     Step 3 of gc: write the copied records to the victim and index them again, whatever the
     buffer holds. Neither write_page nor hash_add can fail, so the BUG() after them is not
     reached. The map is back if all records survive the buffer; one that is too long is nowhere.
     */
    method WriteLive(victim: nat, copied: seq<byte>, lens: seq<(nat, nat)>, ghost pages: seq<seq<byte>>,
                     ghost recs: seq<Couple>, ghost m0: Contents, ghost spare: nat)
      requires Ok() && victim < g.nbBlocks && blocks[victim].state.Used?
      requires Readable(pages, Raws(recs), g.ppb, g.pageSize, Off(g.ppb, g.pageSize))
      requires copied == ReadAll(pages, g.ppb, g.pageSize, Off(g.ppb, g.pageSize))
      requires |lens| == |recs| && forall i :: 0 <= i < |recs| ==> lens[i] == (|recs[i].key|, |recs[i].val|)
      requires Pending(m, m0, recs, 0) && DistinctKeys(recs)
      requires blocks[victim].offset + |recs| <= g.ppb && spare < g.nbBlocks
      requires if spare == victim then blocks[victim].offset + |recs| < g.ppb else blocks[spare].offset < g.ppb
      modifies this`table, this`blocks, this`flash, this`readOnly, this`m
      ensures Sane() && m == m0 && !readOnly
      ensures AllSurvive(Raws(recs), 0, g.ppb) ==> Ok()
      ensures AllGone(g, Snap(), recs)
      ensures blocks[victim].state.Used? && blocks[victim].offset == old(blocks[victim].offset) + |recs|
      ensures blocks[victim].nbInvalid == old(blocks[victim].nbInvalid)
      ensures Steady(old(Snap()), Snap()) && OnlyBlock(old(Snap()), Snap(), victim)
    {
      hide Inv, Sound, Couple.WellFormed, Readable, ReadAll, Raws, Steady, DistinctKeys,
        Pending, AllSurvive, Scarred, AllGone, AllWellFormed, TooLong, BlkOk, Touch, Append, Off, UntilNul, Le32;
      FrameSelf(Snap(), victim);
      ghost var safe := AllSurvive(Raws(recs), 0, g.ppb);
      PendingAbsent(m, m0, recs);
      WriteStart(pages, recs, g.ppb, g.pageSize, Off(g.ppb, g.pageSize));
      GoneStart(g, Snap(), m, recs);
      var buffer := copied;
      assert !readOnly by {
        assert blocks[spare].offset < g.ppb;
      }
      for i := 0 to |lens|
        invariant Sane() && !readOnly && AllGone(g, Snap(), recs)
        invariant Scarred(buffer, Raws(recs), i, g.ppb, g.pageSize)
        invariant safe ==> Ok() && Pending(m, m0, recs, i) && buffer == copied
        invariant blocks[victim].state.Used? && blocks[victim].offset == old(blocks[victim].offset) + i
        invariant blocks[victim].nbInvalid == old(blocks[victim].nbInvalid)
        invariant Steady(old(Snap()), Snap()) && OnlyBlock(old(Snap()), Snap(), victim)
      {
        ghost var before := Snap();
        var next, ret := WriteOne(victim, i, buffer, lens[i].0, lens[i].1, pages, recs, m0, safe);
        buffer := next;
        SteadyTrans(old(Snap()), before, Snap());
        OnlyBlockTrans(old(Snap()), before, Snap(), victim);
        assert blocks[spare].offset < g.ppb;
        assert ret == 0;
      }
      if safe {
        PendingDone(m, m0, recs);
      }
      m := m0;
    }

    /** Steps 1 and 2 of gc: copy and invalidate the live pages of the target, then erase it. */
    method Evacuate(target: nat) returns (buffer: seq<byte>, lens: seq<(nat, nat)>, ghost pages: seq<seq<byte>>)
      requires Ok() && target < g.nbBlocks && blocks[target].state.Used? && 8 <= g.ppb
      modifies this`table, this`blocks, this`flash, this`readOnly, this`m
      ensures Ok() && !readOnly && blocks[target].state.Free? && blocks[target].offset == 0
      ensures var recs := old(Live(Snap(), m, target));
              && Pending(m, old(m), recs, 0) && DistinctKeys(recs)
              && Readable(pages, Raws(recs), g.ppb, g.pageSize, Off(g.ppb, g.pageSize))
              && buffer == ReadAll(pages, g.ppb, g.pageSize, Off(g.ppb, g.pageSize))
              && |lens| == |recs|
              && forall i :: 0 <= i < |recs| ==> lens[i] == (|recs[i].key|, |recs[i].val|)
      ensures MetaKept(old(Snap()), Snap()) && Aged(old(Snap()), Snap(), 1) && OnlyBlock(old(Snap()), Snap(), target)
      ensures Worn(old(Snap()), Snap(), {target as int})
    {
      hide Inv, Sound, Holds, Readable, ReadAll, Raws, Live, KeySet, MetaKept, Aged, Worn, Steady, OnlyBlock, Pending, Erase, DistinctKeys;
      ghost var start, recs := Snap(), Live(Snap(), m, target);
      PendingStart(g, Snap(), m, target, recs);
      buffer, lens, pages := ReadLive(target);
      ghost var read := Snap();
      SteadyParts(start, read);
      EraseInv(g, Snap(), m, target);
      EraseFrame(g, Snap(), target);
      FormatSingle(target);
      MetaKeptTrans(start, read, Snap());
      AgedTrans(start, read, Snap(), 0, 1);
      SameBlockCount(start, read, Snap());
      WornThen(start, read, Snap(), {target as int});
      OnlyBlockTrans(start, read, Snap(), target);
    }

    /** Opens an empty data block; a block in use is left alone. */
    method OpenVictim(victim: nat)
      requires Ok() && !readOnly && victim < g.nbBlocks && !blocks[victim].state.Meta?
      modifies this`blocks, this`flash, this`readOnly
      ensures Ok() && !readOnly && blocks[victim].state.Used?
      ensures blocks[victim].offset == if old(blocks[victim].offset) == 0 then 1 else old(blocks[victim].offset)
      ensures blocks[victim].nbInvalid == old(blocks[victim].nbInvalid)
      ensures Steady(old(Snap()), Snap()) && OnlyBlock(old(Snap()), Snap(), victim)
    {
      hide Inv, Sound, Steady, OnlyBlock, Header;
      InvBlock(g, Snap(), m, victim);
      if blocks[victim].offset == 0 {
        HeaderFrame(g, Snap(), victim);
        WriteDataHdr(victim);
      } else {
        FrameSelf(Snap(), victim);
      }
    }

    /**
     The body of gc: read the live pages of the target, erase it, write them to the victim.
     The serial store always passes victim == target; the parallel one may merge into another block.
     */
    method Collect(target: nat, victim: nat)
      requires Ok() && target < g.nbBlocks && victim < g.nbBlocks && 8 <= g.ppb
      requires blocks[target].state.Used?
      requires victim == target ==> blocks[target].nbInvalid >= 1
      requires victim != target ==> !blocks[victim].state.Meta?
      requires victim != target ==>
                 blocks[victim].offset + (if blocks[victim].offset == 0 then 1 else 0) + |blocks[target].list| <= g.ppb
      modifies this`table, this`blocks, this`flash, this`readOnly, this`m
      ensures Sane() && m == old(m) && !readOnly && Verdict(g, old(Snap()), m, target, Snap())
      ensures blocks[victim].state.Used?
      ensures victim == target ==> blocks[target].offset == 1 + old(|blocks[target].list|) && blocks[target].nbInvalid == 0
      ensures victim != target ==> blocks[target].state.Free? && blocks[victim].nbInvalid == old(blocks[victim].nbInvalid)
      ensures victim != target ==>
                (blocks[victim].offset == old(blocks[victim].offset + (if blocks[victim].offset == 0 then 1 else 0) + |blocks[target].list|))
      ensures MetaKept(old(Snap()), Snap()) && Aged(old(Snap()), Snap(), 1) && OnlyBlocks(old(Snap()), Snap(), target, victim)
      ensures Worn(old(Snap()), Snap(), {target as int})
    {
      hide Inv, Sound, Readable, ReadAll, Raws, Live, MetaKept, Aged, Worn, Steady, OnlyBlocks, Pending, AllSurvive, DistinctKeys, BlkOk, TooLong;
      SoundUsed(g, Snap(), target);
      ghost var start, recs := Snap(), Live(Snap(), m, target);
      var buffer, lens, pages := Evacuate(target);
      ghost var erased := Snap();
      SoundUsed(g, Snap(), target);
      OpenVictim(victim);
      ghost var ready := Snap();
      WriteLive(victim, buffer, lens, pages, recs, old(m), target);
      SteadyTrans(erased, ready, Snap());
      SteadyParts(erased, Snap());
      OnlyBlockTrans(erased, ready, Snap(), victim);
      MetaKeptTrans(start, erased, Snap());
      AgedTrans(start, erased, Snap(), 1, 0);
      SameBlockCount(start, erased, Snap());
      WornThen(start, erased, Snap(), {target as int});
      OnlyBlocksJoin(start, erased, Snap(), target, victim);
    }

    method FindTarget(skip: seq<int>, threshold: int) returns (target: int)
      ensures target == -1 ==> NoTarget(blocks, skip, threshold)
      ensures target != -1 ==> IsTarget(blocks, skip, threshold, target)
    {
      for i := 0 to |blocks|
        invariant forall j :: 0 <= j < i && j !in skip ==> blocks[j].nbInvalid < threshold
      {
        if i !in skip && blocks[i].nbInvalid >= threshold {
          return i;
        }
      }
      return -1;
    }

    /**
     gc of the serial store. Its victim search never succeeds (the test is the constant
     BLK_FREE, which is 0), so the target is always rewritten in place.
     */
    method Gc()
      requires Ok()
      modifies this`table, this`blocks, this`flash, this`readOnly, this`m
      ensures Sane() && m == old(m) && (GcSafe(g, old(Snap()), m) ==> Ok())
      ensures NoTarget(old(blocks), [], 48) ==> Snap() == old(Snap())
      ensures forall b :: IsTarget(old(blocks), [], INVALID_THRESHOLD, b) ==>
                && Verdict(g, old(Snap()), m, b, Snap())
                && blocks[b].state.Used? && blocks[b].nbInvalid == 0 && !readOnly
                && blocks[b].offset == 1 + old(|blocks[b].list|) && OnlyBlock(old(Snap()), Snap(), b)
                && Garbage(blocks) == old(Garbage(blocks)) - old(blocks)[b].nbInvalid && Worn(old(Snap()), Snap(), {b})
      ensures MetaKept(old(Snap()), Snap()) && Aged(old(Snap()), Snap(), 1) && |FreeSet(blocks)| >= old(|FreeSet(blocks)|)
      ensures NoTarget(old(blocks), [], INVALID_THRESHOLD) || Garbage(blocks) + INVALID_THRESHOLD <= old(Garbage(blocks))
    {
      hide Inv, Sound, StrideSafe, MetaKept, Aged, Worn, AllGone, Live, Garbage, FreeSet;
      var target := FindTarget([], INVALID_THRESHOLD);
      FrameSelf(Snap(), 0);
      AgedTrans(Snap(), Snap(), Snap(), 0, 0);
      if target == -1 {
        AgedMore(Snap(), Snap(), 0, 1);
        return;
      }
      InvBlock(g, Snap(), m, target);
      Collect(target, target);
      FreeButOne(old(Snap()), Snap(), target);
      CollectGarbage(old(Snap()), Snap(), target);
    }

    /** Called after every set: collect when some block has too many invalid pages. */
    method GbCheck()
      requires Ok()
      modifies this`table, this`blocks, this`flash, this`readOnly, this`m
      ensures Sane() && m == old(m) && (GcSafe(g, old(Snap()), m) ==> Ok())
      ensures MetaKept(old(Snap()), Snap()) && Aged(old(Snap()), Snap(), 1) && |FreeSet(blocks)| >= old(|FreeSet(blocks)|)
      ensures NoTarget(old(blocks), [], INVALID_THRESHOLD) || Garbage(blocks) + INVALID_THRESHOLD <= old(Garbage(blocks))
      ensures NoTarget(old(blocks), [], 48) ==> Snap() == old(Snap())
      ensures forall b :: IsTarget(old(blocks), [], INVALID_THRESHOLD, b) ==>
                && Verdict(g, old(Snap()), m, b, Snap())
                && blocks[b].state.Used? && blocks[b].nbInvalid == 0 && !readOnly
                && blocks[b].offset == 1 + old(|blocks[b].list|) && OnlyBlock(old(Snap()), Snap(), b)
                && Garbage(blocks) == old(Garbage(blocks)) - old(blocks)[b].nbInvalid && Worn(old(Snap()), Snap(), {b})
    {
      hide Inv, Sound, StrideSafe, Overlong, Verdict, MetaKept, Aged;
      for i := 0 to |blocks|
        invariant Snap() == old(Snap()) && m == old(m)
        invariant forall j :: 0 <= j < i ==> blocks[j].nbInvalid < INVALID_THRESHOLD
      {
        if blocks[i].nbInvalid >= INVALID_THRESHOLD {
          Gc();
          return;
        }
      }
      FrameSelf(Snap(), 0);
      AgedMore(Snap(), Snap(), 0, 1);
    }

    // ----- gc of the parallel store, with merging -----

    /** The least worn block with more free pages than the target has live ones. */
    method MergeVictim(target: nat, live: int) returns (r: int)
      requires target < |blocks|
      ensures -1 <= r < |blocks|
      ensures r >= 0 ==> r != target && r !in metaOrder && g.ppb - blocks[r].offset > live
      ensures forall i :: 0 <= i < |blocks| && i != target && i !in metaOrder && g.ppb - blocks[i].offset > live ==>
                r >= 0 && blocks[r].worn <= blocks[i].worn && (i < r ==> blocks[r].worn < blocks[i].worn)
    {
      r := -1;
      for i := 0 to |blocks|
        invariant -1 <= r < i
        invariant r >= 0 ==> r != target && r !in metaOrder && g.ppb - blocks[r].offset > live
        invariant forall j :: 0 <= j < i && j != target && j !in metaOrder && g.ppb - blocks[j].offset > live ==>
                    r >= 0 && blocks[r].worn <= blocks[j].worn && (j < r ==> blocks[r].worn < blocks[j].worn)
      {
        if i != target && i !in metaOrder && g.ppb - blocks[i].offset > live {
          if r == -1 || blocks[r].worn > blocks[i].worn {
            r := i;
          }
        }
      }
    }

    /** The least worn free block. */
    method FreeVictim() returns (r: int)
      ensures -1 <= r < |blocks|
      ensures r >= 0 ==> blocks[r].offset == 0 && blocks[r].state.Free?
      ensures forall i :: 0 <= i < |blocks| && blocks[i].offset == 0 && blocks[i].state.Free? ==>
                r >= 0 && blocks[r].worn <= blocks[i].worn && (i < r ==> blocks[r].worn < blocks[i].worn)
    {
      r := -1;
      for i := 0 to |blocks|
        invariant -1 <= r < i
        invariant r >= 0 ==> blocks[r].offset == 0 && blocks[r].state.Free?
        invariant forall j :: 0 <= j < i && blocks[j].offset == 0 && blocks[j].state.Free? ==>
                    r >= 0 && blocks[r].worn <= blocks[j].worn && (j < r ==> blocks[r].worn < blocks[j].worn)
      {
        if blocks[i].offset == 0 && blocks[i].state.Free? {
          if r == -1 || blocks[i].worn < blocks[r].worn {
            r := i;
          }
        }
      }
    }

    /** The block to move the target to: merge into another block, else into a free one, else rewrite in place. */
    method ChooseVictim(target: nat) returns (victim: int)
      requires Sane() && target < g.nbBlocks && blocks[target].state.Used?
      ensures 0 <= victim < |blocks| && IsVictim(blocks, metaOrder, g.ppb, target, victim)
    {
      hide Sound;
      SoundUsed(g, Snap(), target);
      var live := blocks[target].offset - blocks[target].nbInvalid - 1;
      assert live == |blocks[target].list|;
      victim := MergeVictim(target, live);
      assert victim >= 0 ==> HasSpace(blocks, metaOrder, g.ppb, target, victim);
      if victim == -1 {
        assert forall b :: !HasSpace(blocks, metaOrder, g.ppb, target, b);
        victim := FreeVictim();
        if victim == -1 {
          victim := target;
        }
      }
    }

    /** Whatever is chosen can take the live pages of the target. */
    lemma VictimRoom(target: nat, victim: nat)
      requires Sane() && MetaFull(blocks, g.ppb) && target < g.nbBlocks && blocks[target].state.Used? && blocks[target].nbInvalid >= 1
      requires IsVictim(blocks, metaOrder, g.ppb, target, victim)
      ensures victim < g.nbBlocks
      ensures victim != target ==>
                && !blocks[victim].state.Meta?
                && blocks[victim].offset + (if blocks[victim].offset == 0 then 1 else 0) + |blocks[target].list| <= g.ppb
    {
      hide Sound;
      SoundUsed(g, Snap(), target);
      SoundUsed(g, Snap(), victim);
    }

    /**
     gc of the parallel store: merge the target into another block, else into a free one,
     else rewrite it in place. Whatever is chosen has room; the map is kept as Verdict says.
     */
    method GcMerge() returns (target: int, victim: int)
      requires Ok() && MetaFull(blocks, g.ppb)
      modifies this`table, this`blocks, this`flash, this`readOnly, this`m
      ensures Sane() && m == old(m)
      ensures target == -1 ==> Snap() == old(Snap()) && (g.ppb < 64 || NoTarget(blocks, metaOrder, 20))
      ensures target != -1 ==>
                && g.ppb >= 64 && IsTarget(old(blocks), metaOrder, 20, target) && 0 <= victim < g.nbBlocks
                && IsVictim(old(blocks), metaOrder, g.ppb, target, victim)
                && Verdict(g, old(Snap()), m, target, Snap())
                && !readOnly && OnlyBlocks(old(Snap()), Snap(), target, victim) && Worn(old(Snap()), Snap(), {target})
                && blocks[victim].state.Used? && blocks[victim].offset <= g.ppb
      ensures target != -1 && victim != target ==>
                && blocks[target].state.Free?
                && blocks[victim].offset ==
                   old(blocks)[victim].offset + (if old(blocks)[victim].offset == 0 then 1 else 0) + |old(blocks)[target].list|
      ensures target != -1 && victim == target ==>
                blocks[target].nbInvalid == 0 && blocks[target].offset == 1 + |old(blocks)[target].list|
      ensures MetaKept(old(Snap()), Snap()) && Aged(old(Snap()), Snap(), 1)
    {
      hide Inv, Sound, StrideSafe, Verdict, MetaKept, Aged, Worn, OnlyBlocks, IsVictim;
      FrameSelf(Snap(), 0);
      AgedMore(Snap(), Snap(), 0, 1);
      victim := -1;
      if g.ppb < 64 {
        return -1, -1;
      }
      target := FindTarget(metaOrder, MERGE_THRESHOLD);
      if target == -1 {
        return;
      }
      InvBlock(g, Snap(), m, target);
      victim := ChooseVictim(target);
      VictimRoom(target, victim);
      Collect(target, victim);
      SoundBlock(g, Snap(), victim);
    }

    // ----- flush_metadata -----

    ghost predicate Choosable(b: nat)
      reads this
      requires b < |blocks|
    {
      !blocks[b].state.Meta? && blocks[b].offset == 0 && blocks[b].worn < INT_MAX
    }

    ghost predicate HasRoom(b: nat)
      reads this
      requires b < |blocks|
    {
      !blocks[b].state.Meta? && blocks[b].offset < g.ppb && blocks[b].worn < INT_MAX
    }

    /** First pass of get_meta_block: the least worn erased block; the second pass takes the least worn block with room. */
    method GetMetaBlock() returns (r: int)
      ensures -1 <= r < |blocks|
      ensures (exists b :: 0 <= b < |blocks| && Choosable(b)) ==> r >= 0 && Choosable(r)
      ensures r >= 0 && Choosable(r) ==> forall b :: 0 <= b < |blocks| && Choosable(b) ==>
                blocks[r].worn <= blocks[b].worn && (b < r ==> blocks[r].worn < blocks[b].worn)
      ensures r >= 0 && !Choosable(r) ==>
                HasRoom(r) && forall b :: 0 <= b < |blocks| && HasRoom(b) ==>
                  blocks[r].worn <= blocks[b].worn && (b < r ==> blocks[r].worn < blocks[b].worn)
      ensures r == -1 ==> forall b :: 0 <= b < |blocks| ==> !HasRoom(b)
    {
      r := -1;
      var minimum := INT_MAX;
      for i := 0 to |blocks|
        invariant -1 <= r < i
        invariant r == -1 ==> minimum == INT_MAX && forall b :: 0 <= b < i ==> !Choosable(b)
        invariant r >= 0 ==> Choosable(r) && minimum == blocks[r].worn
        invariant r >= 0 ==> forall b :: 0 <= b < i && Choosable(b) ==> minimum <= blocks[b].worn && (b < r ==> minimum < blocks[b].worn)
      {
        if !blocks[i].state.Meta? {
          if blocks[i].offset == 0 {
            if blocks[i].worn < minimum {
              minimum := blocks[i].worn;
              r := i;
            }
          }
        }
      }
      if r != -1 {
        return;
      }
      minimum := INT_MAX;
      for i := 0 to |blocks|
        invariant -1 <= r < i
        invariant r == -1 ==> minimum == INT_MAX && forall b :: 0 <= b < i ==> !HasRoom(b)
        invariant r >= 0 ==> HasRoom(r) && minimum == blocks[r].worn
        invariant r >= 0 ==> forall b :: 0 <= b < i && HasRoom(b) ==> minimum <= blocks[b].worn && (b < r ==> minimum < blocks[b].worn)
      {
        if !blocks[i].state.Meta? {
          if blocks[i].offset < g.ppb {
            if blocks[i].worn < minimum {
              minimum := blocks[i].worn;
              r := i;
            }
          }
        }
      }
    }

    /** Erases the blocks of the previous snapshot. */
    method EraseOldMeta()
      requires Sane() && FlushReady(g, Snap(), metaOrder, saved)
      modifies this`blocks, this`flash, this`readOnly
      ensures Sane() && |FreeSet(blocks)| >= |metaOrder|
      ensures forall b :: !MetaBlock(Snap(), b)
      ensures UsedKept(old(Snap()), Snap()) && Aged(old(Snap()), Snap(), 1) && Worn(old(Snap()), Snap(), Entries(metaOrder))
    {
      hide Sound, SavedUpTo, Erase, UsedKept, Aged, Erasing;
      ghost var placed := Flushed(g, Snap(), metaOrder, saved);
      if placed {
        ErasingStart(g, Snap(), metaOrder, saved);
      }
      for i := 0 to |metaOrder|
        invariant Sane()
        invariant if placed then Erasing(old(Snap()), Snap(), metaOrder, i) else Snap() == old(Snap())
      {
        if placed {
          ErasingNext(g, old(Snap()), Snap(), metaOrder, i);
          SoundBlock(g, Snap(), metaOrder[i]);
          EraseSound(g, Snap(), metaOrder[i]);
        }
        FormatSingle(metaOrder[i]);
      }
      if placed {
        ErasingDone(old(Snap()), Snap(), metaOrder);
        ErasingFrame(old(Snap()), Snap(), metaOrder);
      } else {
        UsedSelf(Snap());
      }
    }

    /** Chooses the blocks of the next snapshot; every one of them is found erased, in the first pass. */
    method ChooseMeta()
      requires Sane() && |FreeSet(blocks)| >= |metaOrder| && WearRoom(blocks, 0)
      requires forall b :: !MetaBlock(Snap(), b)
      modifies this`blocks, this`metaOrder
      ensures Sane() && |metaOrder| == old(|metaOrder|) && Choosing(Snap(), metaOrder, |metaOrder|)
      ensures UsedKept(old(Snap()), Snap()) && Aged(old(Snap()), Snap(), 0) && LeastWorn(blocks, metaOrder, |metaOrder|)
    {
      hide Sound, Choosing, UsedKept, Aged, LeastWorn;
      LeastWornStart(blocks, metaOrder);
      ChoosingStart(Snap(), metaOrder);
      UsedSelf(Snap());
      for i := 0 to |metaOrder|
        invariant Sane() && |metaOrder| == old(|metaOrder|) && Choosing(Snap(), metaOrder, i) && WearRoom(blocks, 0)
        invariant UsedKept(old(Snap()), Snap()) && Aged(old(Snap()), Snap(), 0) && LeastWorn(blocks, metaOrder, i)
      {
        ghost var free := ChoosingFinds(Snap(), metaOrder, i);
        SoundBlock(g, Snap(), free);
        var target := GetMetaBlock();
        assert Choosable(free);
        SoundBlock(g, Snap(), target);
        assert blocks[target].state.Free?;
        ChoosingNext(Snap(), metaOrder, i, target);
        forall b | 0 <= b < |blocks| && blocks[b].state.Free? ensures Choosable(b) {
          SoundBlock(g, Snap(), b);
        }
        LeastWornNext(blocks, metaOrder, i, target);
        MarkSound(g, Snap(), target);
        MarkFrame(old(Snap()), Snap(), target);
        metaOrder := metaOrder[i := target];
        blocks := blocks[target := blocks[target].(state := Meta)];
      }
    }

    /** Header and data pages of metadata block number i; -2 when the last page fills the flash. */
    method WriteMetaBlock(i: nat, b: nat, buffer: seq<byte>, nbMeta: nat) returns (code: int)
      requires Sane() && i < nbMeta < 0x8000_0000 && |buffer| == Off(BufferPages(nbMeta, g.ppb), g.pageSize)
      requires b < g.nbBlocks && blocks[b].state.Meta? && blocks[b].offset == 0
      modifies this`blocks, this`flash, this`readOnly
      ensures Sane() && OnlyBlock(old(Snap()), Snap(), b)
      ensures blocks[b].state.Meta? && blocks[b].offset == g.ppb && blocks[b].worn == old(blocks[b].worn)
      ensures SavedUpTo(g, flash[b], i, g.ppb, buffer, nbMeta)
      ensures code == if readOnly then -2 else 0
    {
      hide Sound, SavedUpTo, OnlyBlock, MetaHdr, Chunk, ListOk;
      FrameSelf(Snap(), b);
      SoundBlock(g, Snap(), b);
      SavedNone(g, flash[b], i, buffer, nbMeta);
      for j := 0 to g.ppb
        invariant Sane() && OnlyBlock(old(Snap()), Snap(), b)
        invariant blocks[b].state.Meta? && blocks[b].offset == j && blocks[b].worn == old(blocks[b].worn)
        invariant SavedUpTo(g, flash[b], i, j, buffer, nbMeta)
        invariant !readOnly
      {
        var page;
        if j == 0 {
          page := MetaHdr(i, g.pageSize);
        } else {
          PageNoBound(i, j, g.ppb, nbMeta);
          ChunkInside(PageNo(i, j, g.ppb), BufferPages(nbMeta, g.ppb), g.pageSize);
          page := Chunk(buffer, PageNo(i, j, g.ppb), g.pageSize);
        }
        PutMetaSound(g, Snap(), b, page);
        PutFrame(g, old(Snap()), Snap(), b, page);
        SavedNext(g, flash[b], i, j, buffer, nbMeta, page);
        AddrSplit(b, j, g.ppb);
        var ret := WritePage(Addr(b, j, g.ppb), page);
        if ret != 0 {
          assert j + 1 == g.ppb by {
            assert blocks[b].offset == j + 1;
          }
          return -2;
        }
      }
      code := 0;
    }

    /** Writes the snapshot; -2 when the last page fills the flash, with everything written. */
    method WriteMeta(buffer: seq<byte>) returns (code: int)
      requires Sane() && 1 <= |metaOrder| < 0x8000_0000 && Choosing(Snap(), metaOrder, |metaOrder|)
      requires |buffer| == Off(BufferPages(|metaOrder|, g.ppb), g.pageSize)
      modifies this`blocks, this`flash, this`readOnly
      ensures Sane() && Flushed(g, Snap(), metaOrder, buffer)
      ensures UsedKept(old(Snap()), Snap()) && Aged(old(Snap()), Snap(), 0)
      ensures code == if readOnly then -2 else 0
    {
      hide Sound, Choosing, Writing, UsedKept, Aged, OnlyBlock, SavedUpTo;
      WritingStart(g, Snap(), metaOrder, buffer);
      UsedSelf(Snap());
      code := 0;
      for i := 0 to |metaOrder|
        invariant code == 0
        invariant Sane() && Writing(g, Snap(), metaOrder, buffer, i)
        invariant UsedKept(old(Snap()), Snap()) && Aged(old(Snap()), Snap(), 0)
        invariant i > 0 ==> !readOnly
      {
        ghost var before := Snap();
        WritingAt(g, Snap(), metaOrder, buffer, i);
        code := WriteMetaBlock(i, metaOrder[i], buffer, |metaOrder|);
        WritingNext(g, before, Snap(), metaOrder, buffer, i);
        WrittenFrame(old(Snap()), before, Snap(), metaOrder[i]);
        if code != 0 {
          if i + 1 < |metaOrder| {
            WritingAt(g, Snap(), metaOrder, buffer, i + 1);
            assert false;
          }
          WritingDone(g, Snap(), metaOrder, buffer);
          return;
        }
      }
      WritingDone(g, Snap(), metaOrder, buffer);
    }

    /** The tables that a flush has copied, and the state it leaves: the index and the data blocks are the same. */
    ghost predicate CopiedFrom(copied: Cfg, ram: Ram)
      reads this
    {
      && copied.table == table && UsedKept(copied, Snap()) && Choosing(copied, metaOrder, |metaOrder|)
      && |saved| > metaSize && saved[..metaSize] == ram.image(copied.blocks, copied.table)
      && forall i :: metaSize <= i < |saved| ==> saved[i] == ram.beyond(i - metaSize)
    }

    /**
     flush_metadata. The tables are copied after the new metadata blocks have been chosen and
     before they are written, so the snapshot shows those blocks in use and empty. The pages
     behind the copy come from the memory behind the buffer.
     */
    method Flush(ram: Ram, now: nat) returns (code: int, ghost copied: Cfg)
      requires Sane() && FlushReady(g, Snap(), metaOrder, saved) && WearRoom(blocks, 1) && RamOk(g, metaSize, ram)
      requires |metaOrder| == NbMetaBlocks(metaSize, g.pageSize, g.ppb) && |metaOrder| < g.nbBlocks < 0x8000_0000
      modifies this`blocks, this`flash, this`readOnly, this`metaOrder, this`timeFlush, this`saved
      ensures Sane() && Upkeep() && Flushed(g, Snap(), metaOrder, saved) && (old(Ok()) ==> Ok())
      ensures |metaOrder| == old(|metaOrder|)
      ensures UsedKept(old(Snap()), copied) && CopiedFrom(copied, ram)
      ensures UsedKept(old(Snap()), Snap()) && Aged(old(Snap()), Snap(), 1)
      ensures Worn(old(Snap()), Snap(), Entries(old(metaOrder))) && LeastWorn(copied.blocks, metaOrder, |metaOrder|)
      ensures code == if readOnly then -2 else 0
      ensures timeFlush == if code == 0 then now else old(timeFlush)
    {
      hide Inv, Sound, Choosing, Flushed, UsedKept, Aged, Worn, LeastWorn, WearRoom, FlushReady, FreeSet, MetaInv, BufferPages, NbMetaBlocks, AllFull, Off;
      ghost var c0 := Snap();
      assert |metaOrder| >= 1 by {
        AtLeastOneMeta(metaSize, g.pageSize, g.ppb);
      }
      EraseOldMeta();
      ghost var c1 := Snap();
      AgedRoom(c0, c1, 1);
      ChooseMeta();
      copied := Snap();
      UsedKeptTrans(c0, c1, copied);
      AgedTrans(c0, c1, copied, 1, 0);
      SameBlockCount(c0, c1, copied);
      WornThen(c0, c1, copied, Entries(old(metaOrder)));
      MetaFits(metaSize, g.pageSize, g.ppb);
      var image := ram.image(blocks, table);
      var total := Off(BufferPages(|metaOrder|, g.ppb), g.pageSize);
      var buffer := image + seq(total - |image|, i requires 0 <= i => ram.beyond(i));
      code := WriteMeta(buffer);
      UsedKeptTrans(c0, copied, Snap());
      AgedTrans(c0, copied, Snap(), 1, 0);
      SameBlockCount(c0, copied, Snap());
      WornThen(c0, copied, Snap(), Entries(old(metaOrder)));
      if Inv(g, c0, m) {
        UsedKeptInv(g, c0, Snap(), m);
      }
      saved := buffer;
      assert saved[..metaSize] == image;
      FlushedMeta(g, Snap(), metaOrder, saved);
      if code != 0 {
        return;
      }
      timeFlush := now;
    }

    // ----- init_scan -----

    method ScanHeaders(nbMeta: nat) returns (cnt: nat, order: seq<int>)
      requires Sane() && Upkeep() && nbMeta == |metaOrder|
      ensures Flushed(g, Snap(), metaOrder, saved) ==> cnt == nbMeta && order == metaOrder
      ensures !Flushed(g, Snap(), metaOrder, saved) ==> cnt == 0
    {
      hide Sound, Flushed, Scanned, FromLe32;
      ghost var placed := Flushed(g, Snap(), metaOrder, saved);
      order, cnt := seq(nbMeta, _ => -1), 0;
      ScanStart(metaOrder, order);
      for i := 0 to |blocks|
        invariant |order| == nbMeta
        invariant placed ==> Scanned(metaOrder, order, cnt, i)
        invariant !placed ==> cnt == 0
      {
        SoundBlock(g, Snap(), i);
        BlankHeader(g.pageSize);
        if placed {
          HeaderTells(g, Snap(), metaOrder, saved, i);
          FlushedDistinct(g, Snap(), metaOrder, saved);
          if i !in metaOrder {
            ScanMiss(metaOrder, order, cnt, i);
          } else {
            ScanHit(metaOrder, order, cnt, i, FromLe32(ReadBytes(flash[i][0], g.pageSize)[4..8]));
          }
        } else {
          assert blocks[i].state.Free?;
        }
        var tmp := ReadBytes(flash[i][0], g.pageSize);
        var hdr := FromLe32(tmp[..4]);
        if hdr == META_HDR_BASE {
          var number := FromLe32(tmp[4..8]);
          order := order[number := i];
          cnt := cnt + 1;
        }
      }
      if placed {
        FlushedDistinct(g, Snap(), metaOrder, saved);
        ScanDone(metaOrder, order, cnt, |blocks|);
      }
    }

    /** Appends the data pages of metadata block number i. */
    method ScanBlock(i: nat, b: nat, start: seq<byte>) returns (buf: seq<byte>)
      requires b < |flash| && SavedUpTo(g, flash[b], i, g.ppb, saved, |metaOrder|)
      requires Off(Off(i, g.ppb - 1), g.pageSize) <= |saved| && start == saved[..Off(Off(i, g.ppb - 1), g.pageSize)]
      ensures Off(Off(i + 1, g.ppb - 1), g.pageSize) <= |saved| && buf == saved[..Off(Off(i + 1, g.ppb - 1), g.pageSize)]
    {
      assert |flash[b]| == g.ppb >= 2;
      hide SavedUpTo, Chunk;
      buf := start;
      for j := 1 to g.ppb
        invariant Off(Off(i, g.ppb - 1) + (j - 1), g.pageSize) <= |saved|
        invariant buf == saved[..Off(Off(i, g.ppb - 1) + (j - 1), g.pageSize)]
      {
        SavedPage(g, flash[b], i, j, saved, |metaOrder|);
        var page := ReadBytes(flash[b][j], g.pageSize);
        buf := buf + page;
      }
    }

    /** Reassembles the buffer from the metadata blocks in order. */
    method ScanPages(order: seq<int>, cnt: nat) returns (buf: seq<byte>)
      requires Sane() && Upkeep() && Flushed(g, Snap(), metaOrder, saved) && order == metaOrder && cnt == |order|
      ensures buf == saved
    {
      hide Sound, Flushed, SavedUpTo, MetaInv, NbMetaBlocks;
      buf := [];
      assert saved[..0] == [];
      for i := 0 to cnt
        invariant Off(Off(i, g.ppb - 1), g.pageSize) <= |saved|
        invariant buf == saved[..Off(Off(i, g.ppb - 1), g.pageSize)]
      {
        FlushedAt(g, Snap(), order, saved, i);
        buf := ScanBlock(i, order[i], buf);
      }
      FlushedAt(g, Snap(), order, saved, 0);
      assert saved[..|saved|] == saved;
    }

    /** The mount-time scan finds the last snapshot, byte for byte; before the first flush it finds none. */
    method Scan() returns (cnt: nat, order: seq<int>, buf: seq<byte>)
      requires Sane() && Upkeep()
      ensures Flushed(g, Snap(), metaOrder, saved) ==> cnt == |metaOrder| && order == metaOrder && buf == saved
      ensures !Flushed(g, Snap(), metaOrder, saved) ==> cnt == 0 && buf == []
    {
      hide Sound, Flushed;
      cnt, order := ScanHeaders(|metaOrder|);
      buf := [];
      if cnt > 0 {
        buf := ScanPages(order, cnt);
      }
    }

    /** A flush and a scan: the first metadata_size bytes are those of the two tables at the flush. */
    method FlushAndScan(ram: Ram, now: nat) returns (buf: seq<byte>, ghost copied: Cfg)
      requires Valid() && WearRoom(blocks, 1) && RamOk(g, metaSize, ram)
      modifies this`blocks, this`flash, this`readOnly, this`metaOrder, this`timeFlush, this`saved
      ensures Valid() && |buf| > metaSize && buf[..metaSize] == ram.image(copied.blocks, copied.table)
      ensures copied.table == old(table) && UsedKept(old(Snap()), copied) && UsedKept(copied, Snap())
    {
      hide Inv, Sound, Flushed, UsedKept, Aged, WearRoom, FlushReady, Choosing;
      MetaInvReady(g, Snap(), metaOrder, saved, timeFlush);
      var _, tables := Flush(ram, now);
      copied := tables;
      var _, _, bytes := Scan();
      buf := bytes;
    }

    // ----- set_keyval as a whole -----

    /** Nothing has happened since. */
    ghost predicate Same(c: Cfg, contents: Contents, order: seq<int>, snapshot: seq<byte>, time: nat)
      reads this
    {
      Snap() == c && m == contents && metaOrder == order && saved == snapshot && timeFlush == time
    }

    /** Invalid pages after a set that had `before` of them with its write: none given back and no block due, or many given back. */
    ghost predicate Reclaims(before: int)
      reads this
    {
      || (Garbage(blocks) == before && NoTarget(blocks, [], INVALID_THRESHOLD))
      || Garbage(blocks) + INVALID_THRESHOLD <= before
    }

    /** The middle of set_keyval: write the record, then collect if that made a block due. Returns the state in between, too. */
    method PutAndCollect(key: Key, val: seq<byte>) returns (ret: int, ghost written: Cfg)
      requires Ok() && !readOnly && MetaFull(blocks, g.ppb) && WearRoom(blocks, 0)
      requires Couple(key, val).WellFormed() && |key| < 128 && Couple(key, val).Size() <= g.pageSize
      modifies this`table, this`blocks, this`flash, this`readOnly, this`m
      ensures Sane() && m == old(m)[key := val] && ret == if OnePageLeft(old(blocks), g.ppb) then -1 else 0
      ensures SetSafe(g, old(Snap()), old(m), Couple(key, val)) ==> Ok()
      ensures MetaKept(old(Snap()), Snap()) && Aged(old(Snap()), Snap(), 1) && |FreeSet(blocks)| + 1 >= old(|FreeSet(blocks)|)
      ensures Inv(g, written, m) && MetaKept(old(Snap()), written)
      ensures Garbage(written.blocks) == old(Garbage(blocks)) + (if key in old(m) then 1 else 0) && Reclaims(Garbage(written.blocks))
      ensures forall t: nat :: t < |written.blocks| && IsTarget(written.blocks, [], INVALID_THRESHOLD, t) ==>
                AllGone(g, Snap(), Live(written, m, t))
      ensures NoTarget(old(blocks), [], INVALID_THRESHOLD) ==> NoTarget(blocks, [], INVALID_THRESHOLD)
      ensures SetWear(old(blocks), written.blocks, blocks, [], false)
    {
      hide Inv, Sound, MetaKept, Aged, Worn, SetWear, OnePageLeft, FreeSet, Steady, StrideSafe, Couple.Image, Couple.WellFormed, WearRoom, Live, AllGone,
        IsTarget, NoTarget, OneMoreInvalid, Garbage, Dropped, Placed, Encode, GcSafe, SetSafe, IsHealthy, MetaFull, AllFull;
      ghost var c0 := Snap();
      ghost var b;
      ret, b := PutRecord(key, val);
      written := Snap();
      SteadyParts(c0, written);
      if SetSafe(g, c0, old(m), Couple(key, val)) {
        SafePut(g, c0, old(m), Couple(key, val), b);
      }
      GbCheck();
      MetaKeptTrans(c0, written, Snap());
      AgedTrans(c0, written, Snap(), 0, 1);
      if NoTarget(c0.blocks, [], INVALID_THRESHOLD) {
        CollectedAll(c0, written, Snap());
      }
      SameBlockCount(c0, written, Snap());
      CollectWear(c0, written, Snap());
    }

    /**
     set_keyval, with the garbage collection and the flush that it triggers. `now` and
     `nowFlush` are the two readings of the clock. Returns the tables that the flush has
     copied and the state between the write and the collection, too.
     */
    method Set(key: Key, val: seq<byte>, ram: Ram, now: nat, nowFlush: nat)
      returns (code: int, ghost copied: Cfg, ghost written: Cfg)
      requires Valid() && WearRoom(blocks, 2) && RamOk(g, metaSize, ram)
      requires Couple(key, val).WellFormed() && |key| < 128
      requires 1000000 <= now < U64
      modifies this
      ensures Sane() && Upkeep() && |metaOrder| == old(|metaOrder|) && Aged(old(Snap()), Snap(), 2)
      ensures Couple(key, val).Size() > g.pageSize || old(readOnly) ==>
                Same(old(Snap()), old(m), old(metaOrder), old(saved), old(timeFlush))
      ensures Couple(key, val).Size() > g.pageSize ==> code == -1
      ensures Couple(key, val).Size() <= g.pageSize && old(readOnly) ==> code == -3
      ensures Couple(key, val).Size() <= g.pageSize && !old(readOnly) ==>
                && m == old(m)[key := val] && code == (if OnePageLeft(old(blocks), g.ppb) then -3 else 0)
                && (SetSafe(g, old(Snap()), old(m), Couple(key, val)) ==> Ok())
                && Flushed(g, Snap(), metaOrder, saved)
                && (if FlushDue(old(timeFlush), now) then CopiedFrom(copied, ram) else saved == old(saved))
                && timeFlush == if FlushDue(old(timeFlush), now) && !readOnly then nowFlush else old(timeFlush)
      ensures Couple(key, val).Size() <= g.pageSize && !old(readOnly) ==>
                && Inv(g, written, m) && MetaKept(old(Snap()), written)
                && Garbage(written.blocks) == old(Garbage(blocks)) + (if key in old(m) then 1 else 0)
                && Reclaims(Garbage(written.blocks))
                && forall t: nat :: t < |written.blocks| && IsTarget(written.blocks, [], INVALID_THRESHOLD, t) ==>
                     AllGone(g, Snap(), Live(written, m, t))
      ensures NoTarget(old(blocks), [], INVALID_THRESHOLD) ==> NoTarget(blocks, [], INVALID_THRESHOLD)
      ensures Couple(key, val).Size() <= g.pageSize && !old(readOnly) ==>
                SetWear(old(blocks), written.blocks, blocks, old(metaOrder), FlushDue(old(timeFlush), now))
    {
      hide Inv, Sound, Flushed, MetaKept, Aged, Worn, SetWear, LeastWorn, OnePageLeft, FreeSet, FlushReady, Couple.Image, Couple.WellFormed, AllFree, Live, AllGone,
        WearRoom, NoTarget, IsTarget, Garbage, SetSafe, UsedKept, Choosing, NbMetaBlocks, CopiedFrom, RamOk, AllFull, MetaFull, SameMeaning;
      ghost var c0 := Snap();
      copied, written := c0, c0;
      FrameSelf(c0, 0);
      SteadyParts(c0, c0);
      AgedMore(c0, c0, 0, 2);
      if |key| + |val| + 8 > g.pageSize {
        return -1, c0, c0;
      }
      if readOnly {
        return -3, c0, c0;
      }
      MetaInvFull(g, c0, metaOrder, saved, timeFlush);
      ghost var placed := Flushed(g, c0, metaOrder, saved);
      RoomLess(blocks, 2, 0);
      var ret;
      ret, written := PutAndCollect(key, val);
      ghost var c2 := Snap();
      AgedRoomMore(c0, c2, 1, 1);
      AgedMore(c0, c2, 1, 2);
      if placed {
        FlushedStays(g, c0, c2, metaOrder, saved);
      }
      StillReady(g, c0, c2, metaOrder, saved, timeFlush);
      NoFlushWear(c0.blocks, written.blocks, c2.blocks, metaOrder);
      if FlushDue(timeFlush, now) {
        var _, tables := Flush(ram, nowFlush);
        copied := tables;
        AgedTrans(c0, c2, Snap(), 1, 1);
        FlushNoTarget(g, c2, Snap());
        FlushGarbage(g, c2, Snap());
        FlushWear(c0.blocks, written.blocks, c2, Snap(), old(metaOrder));
        UsedKeptMeaning(g, c2, Snap());
        forall t: nat | t < |written.blocks| && IsTarget(written.blocks, [], INVALID_THRESHOLD, t)
          ensures AllGone(g, Snap(), Live(written, m, t))
        {
          GoneStays(g, c2, Snap(), Live(written, m, t));
        }
      }
      code := if ret == -1 then -3 else 0;
    }

    // ----- every run -----

    ghost function View(): Account
      reads this
    {
      AccountOf(Snap(), m, Flushed(g, Snap(), metaOrder, saved))
    }

    /** The account of the store is the one that the last operation left, and says whether it is full. */
    lemma ViewTells()
      requires Valid()
      ensures var limit := Limit(g, |metaOrder|, View().began);
              && |m| <= View().used <= limit
              && (readOnly <==> View().used == limit) && (OnePageLeft(blocks, g.ppb) <==> View().used + 1 == limit)
    {
      hide Inv, OnePageLeft, Limit;
      Standing(g, Snap(), m, metaOrder, saved, timeFlush);
    }

    method SetStep(op: Op) returns (code: int)
      requires Valid() && WearRoom(blocks, 2) && OpOk(g, metaSize, op) && op.SetOp?
      modifies this
      ensures Sane() && Upkeep() && |metaOrder| == old(|metaOrder|) && Aged(old(Snap()), Snap(), 2)
      ensures Harmless(g, old(Snap()), old(m), op) ==> Ok() && Follows(g, |metaOrder|, old(View()), op, Status(code), View())
    {
      hide Inv, Sound, Flushed, Aged, Couple.Image, OnePageLeft, SetSafe, Limit, Follows, Garbage, NoTarget, UsedKept, Choosing, RamOk, NbMetaBlocks,
        IsTarget, MetaKept, Live, AllGone, CopiedFrom, Slack, Accepts;
      ViewTells();
      ghost var before, waste := View(), Garbage(blocks);
      var rec := op.rec;
      var ret, _, _ := Set(rec.key, rec.val, op.ram, op.now, op.nowFlush);
      code := ret;
      assert rec == Couple(rec.key, rec.val);
      AcceptsIff(g, |metaOrder|, before, op);
      if Accepts(g, |metaOrder|, before, op) {
        if Ok() {
          ViewTells();
          if NoTarget(blocks, [], INVALID_THRESHOLD) {
            SlackBound(g, Snap(), metaOrder, saved);
          }
          StoredFollows(g, |metaOrder|, before, op, code, View(), Garbage(blocks));
        }
      } else {
        RefusedFollows(g, |metaOrder|, before, op, Status(code));
      }
    }

    method DelStep(op: Op) returns (page: int)
      requires Valid() && op.DelOp?
      modifies this`table, this`blocks, this`m
      ensures Valid() && Aged(old(Snap()), Snap(), 2)
      ensures Follows(g, |metaOrder|, old(View()), op, Status(page), View())
    {
      hide Inv, Sound, Flushed, MetaKept, Aged, Steady, Limit, Follows, Garbage;
      ghost var c0, before := Snap(), View();
      ViewTells();
      if !before.began {
        AllFreeEmpty(g, c0, m);
      }
      page := Del(op.key);
      SteadyParts(c0, Snap());
      AgedMore(c0, Snap(), 0, 2);
      if before.began {
        FlushedStays(g, c0, Snap(), metaOrder, saved);
      }
      DeletedFollows(g, |metaOrder|, before, op, page, View());
    }

    method GcStep()
      requires Valid()
      modifies this`table, this`blocks, this`flash, this`readOnly, this`m
      ensures Sane() && Upkeep() && Aged(old(Snap()), Snap(), 2)
      ensures GcSafe(g, old(Snap()), old(m)) ==> Ok() && Follows(g, |metaOrder|, old(View()), GcOp, NotFound, View())
    {
      hide Inv, Sound, Flushed, MetaKept, Aged, Limit, Follows, Garbage, GcSafe, Verdict, FreeSet, IsTarget, NoTarget, NbMetaBlocks;
      ghost var c0, before := Snap(), View();
      ViewTells();
      if !before.began {
        NoTargetWhenFree(g, c0, m);
      }
      Gc();
      AgedMore(c0, Snap(), 1, 2);
      if before.began {
        FlushedStays(g, c0, Snap(), metaOrder, saved);
      }
      if Ok() {
        ViewTells();
        KeptFollows(g, |metaOrder|, before, GcOp, NotFound, View());
      }
    }

    method FlushStep(op: Op) returns (code: int)
      requires Valid() && WearRoom(blocks, 2) && OpOk(g, metaSize, op) && op.FlushOp?
      modifies this`blocks, this`flash, this`readOnly, this`metaOrder, this`timeFlush, this`saved
      ensures Valid() && |metaOrder| == old(|metaOrder|) && Aged(old(Snap()), Snap(), 2)
      ensures Follows(g, |metaOrder|, old(View()), op, Status(code), View())
    {
      hide Inv, Sound, Flushed, Aged, Limit, Follows, Garbage, WearRoom, FlushReady, UsedKept, Choosing, RamOk, NbMetaBlocks;
      ghost var c0, before := Snap(), View();
      ViewTells();
      MetaInvReady(g, c0, metaOrder, saved, timeFlush);
      RoomLess(blocks, 2, 1);
      var ret, _ := Flush(op.ram, op.now);
      code := ret;
      AgedMore(c0, Snap(), 1, 2);
      FlushGarbage(g, c0, Snap());
      ViewTells();
      KeptFollows(g, |metaOrder|, before, op, Status(code), View());
    }

    /** One operation: if its collection is harmless, the store answers and changes like the bounded map. */
    method Step(op: Op) returns (reply: Reply)
      requires Valid() && WearRoom(blocks, 2) && OpOk(g, metaSize, op)
      modifies this
      ensures Sane() && Upkeep() && |metaOrder| == old(|metaOrder|) && Aged(old(Snap()), Snap(), 2)
      ensures Harmless(g, old(Snap()), old(m), op) ==> Ok() && Follows(g, |metaOrder|, old(View()), op, reply, View())
    {
      hide Inv, Sound, Flushed, Aged, Limit, Follows, Garbage, MetaInv, NbMetaBlocks, SetSafe, GcSafe, RamOk;
      match op
      case SetOp(_, _, _, _) =>
        var code := SetStep(op);
        reply := Status(code);
      case GetOp(key) =>
        FrameSelf(Snap(), 0);
        SteadyParts(Snap(), Snap());
        AgedMore(Snap(), Snap(), 0, 2);
        ViewTells();
        var page, val := Get(key);
        reply := if page >= 0 then Value(val) else NotFound;
        KeptFollows(g, |metaOrder|, View(), op, reply, View());
      case DelOp(_) =>
        var page := DelStep(op);
        reply := Status(page);
      case GcOp =>
        GcStep();
        reply := NotFound;
      case FlushOp(_, _) =>
        var code := FlushStep(op);
        reply := Status(code);
    }

    /**
     Every run whose collections cannot meet overlong records: the store answers and changes
     like the bounded map, step by step, up to pages that collections give back.
     */
    method Run(ops: seq<Op>) returns (replies: seq<Reply>, ghost trace: seq<Account>)
      requires Valid() && WearRoom(blocks, 2 * |ops|) && Careful(g, |metaOrder|, View(), ops)
      requires forall i :: 0 <= i < |ops| ==> OpOk(g, metaSize, ops[i])
      modifies this
      ensures Valid() && |metaOrder| == old(|metaOrder|) && Aged(old(Snap()), Snap(), 2 * |ops|)
      ensures History(g, |metaOrder|, trace, ops, replies, |ops|) && |replies| == |ops| == |trace| - 1
      ensures trace[0] == old(View()) && trace[|ops|] == View()
    {
      hide Inv, Sound, Upkeep, Aged, OpOk, History, WearRoom, Compact, CarefulAt, Follows, View, Flushed, Harmless, AllSmall, IdealAfter, Limit;
      replies, trace := [], [View()];
      ghost var nbMeta, start := |metaOrder|, View();
      StartHistory(g, nbMeta, start, ops);
      SmallStart(g, start.m, ops);
      ViewMap();
      FrameSelf(Snap(), 0);
      SteadyParts(Snap(), Snap());
      for i := 0 to |ops|
        invariant Valid() && |metaOrder| == nbMeta && WearRoom(blocks, 2 * (|ops| - i)) && Aged(old(Snap()), Snap(), 2 * i)
        invariant History(g, nbMeta, trace, ops, replies, i)
        invariant |trace| == i + 1 && |replies| == i && trace[0] == start && trace[i] == View()
        invariant AllSmall(g, start.m, ops, i) ==> Compact(m, g.ppb)
      {
        ghost var c0, before := Snap(), View();
        RoomLess(blocks, 2 * (|ops| - i), 2);
        NextHarmless(trace, start, ops, replies, i);
        var reply := Step(ops[i]);
        AgedRoomMore(c0, Snap(), 2, 2 * (|ops| - i - 1));
        AgedTrans(old(Snap()), c0, Snap(), 2 * i, 2);
        ViewMap();
        SmallStays(g, nbMeta, start.m, before, ops, reply, View(), i);
        HistoryNext(g, nbMeta, trace, ops, replies, i, reply, View());
        replies, trace := replies + [reply], trace + [View()];
      }
    }

    /** One more overwriting in a store with a single data block and 47 wasted pages. */
    method LastSet(op: Op, a: Key, b: Key) returns (ghost lost: Couple)
      requires Valid() && WearRoom(blocks, 2) && OpOk(g, metaSize, op) && Fitting(g, op) && op.rec.Size() >= g.ppb + 2
      requires |metaOrder| + 1 == g.nbBlocks && g.ppb >= 51 && a != b && op.rec.key in {a, b}
      requires View().m.Keys == {a, b} && |m| == 2 && View().used == 49 && View().began && AllLong(m, g.ppb)
      modifies this
      ensures Sane() && m == old(m)[op.rec.key := op.rec.val]
      ensures g.ppb > 0 && lost.key in m && m[lost.key] == lost.val && NoneHolds(g, Snap(), lost) && !Inv(g, Snap(), m)
    {
      hide Inv, Sound, Flushed, Aged, Couple.Image, OnePageLeft, SetSafe, Limit, Garbage, NoTarget, UsedKept, Choosing, RamOk, NbMetaBlocks,
        IsTarget, MetaKept, Live, Raws, CopiedFrom, NoneHolds, MetaInv, TooLong, Pages;
      ViewTells();
      LimitShrinks(g, |metaOrder|, true);
      OnePage(g, |metaOrder|);
      ghost var c0, rec := Snap(), op.rec;
      FlushedCount(g, c0, metaOrder, saved);
      PutCard(m, rec.key, rec.val);
      LongPut(m, rec, g.ppb);
      assert rec == Couple(rec.key, rec.val);
      var _, _, written := Set(op.rec.key, op.rec.val, op.ram, op.now, op.nowFlush);
      MetaKeptCount(c0, written);
      ghost var t := SoleOverlong(g, written, m);
      lost := Live(written, m, t)[0];
      NoneHoldsGone(g, Snap(), m, lost);
    }

    lemma ViewMap()
      ensures View().m == m
    {
    }

    lemma NextHarmless(trace: seq<Account>, start: Account, ops: seq<Op>, replies: seq<Reply>, i: nat)
      requires Valid() && i < |ops| && History(g, |metaOrder|, trace, ops, replies, i)
      requires trace[0] == start && trace[i] == View() && CarefulAt(g, |metaOrder|, start, ops, i) && OpOk(g, metaSize, ops[i])
      requires AllSmall(g, start.m, ops, i) ==> Compact(m, g.ppb)
      ensures Harmless(g, Snap(), m, ops[i]) && View().m == m
    {
      hide Inv, Sound, History, Compact, CarefulAt, Flushed, Harmless, AllSmall, Limit, Ideal, RamOk, Couple.WellFormed;
      ViewTells();
      if Wasted(IdealAfter(g, |metaOrder|, start, ops, i + 1)) < INVALID_THRESHOLD {
        WasteGrows(g, |metaOrder|, IdealAfter(g, |metaOrder|, start, ops, i), ops[i]);
        CalmExact(g, |metaOrder|, trace, ops, replies, i, i);
      }
      CarefulHarmless(g, |metaOrder|, Snap(), m, start, View(), ops, i);
    }
  }

  lemma AcceptsIff(g: Geometry, nbMeta: nat, s: Account, op: Op)
    requires Sizes(g, nbMeta)
    ensures Accepts(g, nbMeta, s, op) <==> Fitting(g, op) && s.used < Limit(g, nbMeta, s.began)
  {
  }

  /** Without a block due for collection, few pages are wasted. */
  lemma SlackBound(g: Geometry, c: Cfg, order: seq<int>, buf: seq<byte>)
    requires Sound(g, c) && Flushed(g, c, order, buf) && Sizes(g, |order|) && NoTarget(c.blocks, [], INVALID_THRESHOLD)
    ensures Garbage(c.blocks) <= Slack(g, |order|)
  {
    hide Sound, Flushed, Garbage;
    SoundShape(g, c);
    forall b | 0 <= b < g.nbBlocks ensures BlkOk(g, c.blocks[b], c.flash[b]) {
      SoundBlock(g, c, b);
    }
    FlushedCount(g, c, order, buf);
    GarbageBound(g, c.blocks, c.flash, INVALID_THRESHOLD - 1);
  }

  lemma StartHistory(g: Geometry, nbMeta: nat, s: Account, ops: seq<Op>)
    requires Sizes(g, nbMeta)
    ensures History(g, nbMeta, [s], ops, [], 0)
  {
  }

  lemma FlushGarbage(g: Geometry, c: Cfg, d: Cfg)
    requires Sound(g, c) && Sound(g, d) && UsedKept(c, d)
    ensures Garbage(d.blocks) == Garbage(c.blocks)
  {
    hide Sound;
    SoundShape(g, c);
    SoundShape(g, d);
    forall b | 0 <= b < |c.blocks| ensures d.blocks[b].nbInvalid == c.blocks[b].nbInvalid {
      SoundBlock(g, c, b);
      SoundBlock(g, d, b);
    }
    GarbageSame(c.blocks, d.blocks);
  }

  /** The sole data block is due for collection, and its two records are too long. */
  lemma SoleOverlong(g: Geometry, c: Cfg, m: Contents) returns (t: nat)
    requires Inv(g, c, m) && Total(c.blocks, Metas()) + 1 == g.nbBlocks
    requires Garbage(c.blocks) == INVALID_THRESHOLD && |m| == 2 && AllLong(m, g.ppb)
    ensures t < |c.blocks| && IsTarget(c.blocks, [], INVALID_THRESHOLD, t)
    ensures |Live(c, m, t)| == 2 && TooLong(Raws(Live(c, m, t)), 0, g.ppb)
    ensures var rec := Live(c, m, t)[0];
            rec.key in m && rec.val == m[rec.key]
  {
    hide Inv, Live, Raws, Couple.Image, Holds, Garbage;
    InvShape(g, c, m);
    t := SoleBlock(g, c, m);
    LivePage(g, c, m, t, 0);
    var rec := Live(c, m, t)[0];
    HoldsWellFormed(PageAt(g, c, c.table[c.blocks[t].list[0]].index).bytes, rec);
    RawOfValid(rec);
    RawsAt(Live(c, m, t), 0);
  }

  lemma LongPut(m: Contents, rec: Couple, ppb: nat)
    requires AllLong(m, ppb) && rec.Size() >= ppb + 2
    ensures AllLong(m[rec.key := rec.val], ppb)
  {
  }

  lemma OnePage(g: Geometry, nbMeta: nat)
    requires g.ppb >= 1 && nbMeta + 1 == g.nbBlocks
    ensures Pages(g, nbMeta) == g.ppb - 1
  {
    assert Off(1, g.ppb - 1) == Off(0, g.ppb - 1) + (g.ppb - 1);
  }

  lemma RawsAt(recs: seq<Couple>, i: nat)
    requires i < |recs|
    ensures |Raws(recs)| == |recs| && Raws(recs)[i] == RawOf(recs[i])
  {
  }

  lemma RoomLess(blocks: seq<Blk>, a: nat, b: nat)
    requires WearRoom(blocks, a) && b <= a
    ensures WearRoom(blocks, b)
  {
  }

  lemma NoTargetWhenFree(g: Geometry, c: Cfg, m: Contents)
    requires Inv(g, c, m) && AllFree(c)
    ensures NoTarget(c.blocks, [], INVALID_THRESHOLD)
  {
    hide Inv;
    InvShape(g, c, m);
    forall b | 0 <= b < |c.blocks| ensures c.blocks[b].nbInvalid < INVALID_THRESHOLD {
      InvBlock(g, c, m, b);
    }
  }
}

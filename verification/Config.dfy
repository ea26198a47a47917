/**
 The RAM and flash state of the store, the elementary changes that its operations are
 made of, and the invariant that each of them keeps. The invariant names the plain
 key/value map that the state stands for, so each lemma also says what happens to the map.
 */
module Config {
  import opened Bytes
  import opened Addressing
  import opened ProbeTable
  import opened Record

  datatype BlkState = Free | Used | Meta | Invalid

  /** blk_info: the valid-page list holds bucket numbers, newest first. */
  datatype Blk = Blk(list: seq<nat>, state: BlkState, worn: int, nbInvalid: int, offset: int)

  datatype Page = Erased | Written(bytes: seq<byte>)

  datatype Geometry = Geometry(nbBlocks: nat, ppb: nat, pageSize: nat, hash: Key -> nat) {
    /** At least one block, a header page and a data page in each, and a copy buffer that gc cannot overrun. */
    ghost predicate Valid() {
      nbBlocks >= 1 && 2 <= ppb <= pageSize && 8 <= pageSize < 0x8000_0000
    }
  }

  datatype Cfg = Cfg(blocks: seq<Blk>, table: seq<Bucket>, flash: seq<seq<Page>>, readOnly: bool)

  type Contents = map<Key, seq<byte>>

  predicate AllFull(blocks: seq<Blk>, ppb: nat) {
    forall b :: 0 <= b < |blocks| ==> blocks[b].offset >= ppb
  }

  // ----- the invariant -----

  /** One block: written below its offset, erased from there on, and its pages accounted for. */
  ghost predicate BlkOk(g: Geometry, blk: Blk, pages: seq<Page>) {
    && |pages| == g.ppb
    && 0 <= blk.offset <= g.ppb && blk.nbInvalid >= 0
    && (forall o :: blk.offset <= o < g.ppb ==> pages[o] == Erased)
    && (forall o :: 0 <= o < blk.offset ==> pages[o].Written? && |pages[o].bytes| == g.pageSize)
    && match blk.state
       case Free => blk.offset == 0 && blk.list == [] && blk.nbInvalid == 0
       case Used => blk.offset == 1 + |blk.list| + blk.nbInvalid && pages[0] == Written(Zeros(g.pageSize))
       case Meta => blk.list == [] && blk.nbInvalid == 0
       case Invalid => false
  }

  ghost predicate Shape(g: Geometry, c: Cfg) {
    g.Valid() && |c.blocks| == |c.flash| == g.nbBlocks && |c.table| == Off(g.nbBlocks, g.ppb) > 0
  }

  ghost predicate BlocksOk(g: Geometry, c: Cfg)
    requires Shape(g, c)
  {
    forall b :: 0 <= b < g.nbBlocks ==> BlkOk(g, c.blocks[b], c.flash[b])
  }

  /** A valid bucket points at a written data page and is on the list of that page's block. */
  ghost predicate SlotOk(g: Geometry, c: Cfg, s: nat)
    requires Shape(g, c) && s < |c.table|
  {
    var e := c.table[s];
    && e.index >= 0 && BlockOf(e.index, g.ppb) < g.nbBlocks
    && var blk := c.blocks[BlockOf(e.index, g.ppb)];
    && blk.state.Used? && 1 <= PageOf(e.index, g.ppb) < blk.offset
    && s in blk.list
  }

  ghost predicate SlotsOk(g: Geometry, c: Cfg)
    requires Shape(g, c)
  {
    && (forall s :: 0 <= s < |c.table| && c.table[s].valid ==> SlotOk(g, c, s))
    && (forall s, t :: 0 <= s < t < |c.table| && c.table[s].valid && c.table[t].valid ==> c.table[s].index != c.table[t].index)
  }

  ghost predicate Distinct(list: seq<nat>) {
    forall i, j :: 0 <= i < j < |list| ==> list[i] != list[j]
  }

  ghost predicate ListOk(g: Geometry, c: Cfg, b: nat)
    requires Shape(g, c) && b < g.nbBlocks
  {
    && Distinct(c.blocks[b].list)
    && forall s :: s in c.blocks[b].list ==>
         s < |c.table| && c.table[s].valid && c.table[s].index >= 0 && BlockOf(c.table[s].index, g.ppb) == b
  }

  ghost predicate ListsOk(g: Geometry, c: Cfg)
    requires Shape(g, c)
  {
    forall b :: 0 <= b < g.nbBlocks ==> ListOk(g, c, b)
  }

  function PageAt(g: Geometry, c: Cfg, index: int): (p: Page)
    requires g.ppb > 0
  {
    if index >= 0 && BlockOf(index, g.ppb) < |c.flash| && PageOf(index, g.ppb) < |c.flash[BlockOf(index, g.ppb)]|
    then c.flash[BlockOf(index, g.ppb)][PageOf(index, g.ppb)]
    else Erased
  }

  /** The page holds the record of key in m. */
  ghost predicate Stores(p: Page, key: Key, m: Contents) {
    p.Written? && key in m && |key| < 128 && Holds(p.bytes, Couple(key, m[key]))
  }

  /** The index and the flash together stand for the map m. */
  ghost predicate MapOk(g: Geometry, c: Cfg, m: Contents)
    requires Shape(g, c)
  {
    && m.Keys == LiveKeys(c.table)
    && forall s :: 0 <= s < |c.table| && c.table[s].valid ==> Stores(PageAt(g, c, c.table[s].index), c.table[s].key, m)
  }

  /** NAND discipline and accounting: everything but which keys and values the pages hold. */
  ghost predicate Sound(g: Geometry, c: Cfg) {
    && Shape(g, c)
    && BlocksOk(g, c)
    && SlotsOk(g, c)
    && ListsOk(g, c)
    && c.readOnly == AllFull(c.blocks, g.ppb)
  }

  ghost predicate Inv(g: Geometry, c: Cfg, m: Contents) {
    && Sound(g, c)
    && TableInv(c.table, g.hash)
    && MapOk(g, c, m)
  }

  // What callers use of the invariant without opening it.

  lemma InvShape(g: Geometry, c: Cfg, m: Contents)
    requires Inv(g, c, m)
    ensures Sound(g, c) && Shape(g, c) && c.readOnly == AllFull(c.blocks, g.ppb)
  {
  }

  lemma InvBlock(g: Geometry, c: Cfg, m: Contents, b: nat)
    requires Inv(g, c, m) && b < g.nbBlocks
    ensures Shape(g, c) && BlkOk(g, c.blocks[b], c.flash[b]) && ListOk(g, c, b)
  {
  }

  lemma SoundShape(g: Geometry, c: Cfg)
    requires Sound(g, c)
    ensures Shape(g, c) && c.readOnly == AllFull(c.blocks, g.ppb)
  {
  }

  lemma SoundBlock(g: Geometry, c: Cfg, b: nat)
    requires Sound(g, c) && b < g.nbBlocks
    ensures Shape(g, c) && BlkOk(g, c.blocks[b], c.flash[b]) && ListOk(g, c, b)
  {
  }

  lemma SoundSlot(g: Geometry, c: Cfg, s: nat)
    requires Sound(g, c) && s < |c.table| && c.table[s].valid
    ensures Shape(g, c) && SlotOk(g, c, s)
  {
    assert SlotOk(g, c, s);
  }

  /** Pages of a data block: the header, the live ones, the invalid ones. */
  lemma SoundUsed(g: Geometry, c: Cfg, b: nat)
    requires Sound(g, c) && b < g.nbBlocks
    ensures Shape(g, c) && 0 <= c.blocks[b].offset <= g.ppb && c.blocks[b].nbInvalid >= 0
    ensures c.blocks[b].state.Used? ==> c.blocks[b].offset == 1 + |c.blocks[b].list| + c.blocks[b].nbInvalid
    ensures c.blocks[b].state.Free? ==> c.blocks[b].offset == 0 && c.blocks[b].list == [] && c.blocks[b].nbInvalid == 0
  {
  }

  lemma InvTable(g: Geometry, c: Cfg, m: Contents)
    requires Inv(g, c, m)
    ensures Shape(g, c) && TableInv(c.table, g.hash) && m.Keys == LiveKeys(c.table)
  {
  }

  /** A valid bucket leads to a page that holds its key and the value of the map. */
  lemma InvSlot(g: Geometry, c: Cfg, m: Contents, s: nat)
    requires Inv(g, c, m) && s < |c.table| && c.table[s].valid
    ensures Shape(g, c) && SlotOk(g, c, s) && Stores(PageAt(g, c, c.table[s].index), c.table[s].key, m)
  {
    assert SlotOk(g, c, s);
    assert Stores(PageAt(g, c, c.table[s].index), c.table[s].key, m);
  }

  /** The state determines the map. */
  lemma InvUnique(g: Geometry, c: Cfg, m: Contents, m': Contents)
    requires Inv(g, c, m) && Inv(g, c, m')
    ensures m == m'
  {
    hide Inv, Holds;
    InvTable(g, c, m);
    InvTable(g, c, m');
    forall k | k in m ensures m[k] == m'[k] {
      var s :| 0 <= s < |c.table| && c.table[s].valid && c.table[s].key == k;
      InvSlot(g, c, m, s);
      InvSlot(g, c, m', s);
      HoldsUnique(PageAt(g, c, c.table[s].index).bytes, Couple(k, m[k]), Couple(k, m'[k]));
    }
  }

  // ----- list_del -----

  function Remove(list: seq<nat>, s: nat): (r: seq<nat>)
    ensures s in list ==> |r| == |list| - 1
    ensures s !in list ==> r == list
    ensures forall x :: x in r ==> x in list
    ensures forall x :: x in list && x != s ==> x in r
  {
    if list == [] then [] else if list[0] == s then list[1..] else [list[0]] + Remove(list[1..], s)
  }

  /** The others keep their order. */
  lemma {:induction false} RemoveAt(list: seq<nat>, k: nat)
    requires k < |list| && list[k] !in list[..k]
    ensures Remove(list, list[k]) == list[..k] + list[k + 1..]
  {
    if k == 0 {
      assert list[..0] == [];
    } else {
      var rest, s := list[1..], list[k];
      assert rest[..k - 1] == list[..k][1..] && rest[k - 1] == s;
      assert list[0] == list[..k][0];
      assert list[0] != s && s !in rest[..k - 1];
      RemoveAt(rest, k - 1);
      assert Remove(list, s) == [list[0]] + Remove(rest, s);
      assert [list[0]] + (rest[..k - 1] + rest[k..]) == list[..k] + list[k + 1..];
    }
  }

  lemma {:induction false} RemoveDistinct(list: seq<nat>, s: nat)
    requires Distinct(list)
    ensures Distinct(Remove(list, s)) && s !in Remove(list, s)
  {
    if list == [] {
    } else {
      if list[0] == s {
        assert s !in list[1..];
      } else {
        RemoveDistinct(list[1..], s);
        assert list[0] !in list[1..];
      }
    }
  }

  // ----- invalid_pg -----

  function Delete(g: Geometry, c: Cfg, s: nat): (r: Cfg)
    requires s < |c.table| && c.table[s].index >= 0 && g.ppb > 0 && BlockOf(c.table[s].index, g.ppb) < |c.blocks|
  {
    var b := BlockOf(c.table[s].index, g.ppb);
    var blk := c.blocks[b];
    c.(table := Invalidate(c.table, s),
       blocks := c.blocks[b := blk.(nbInvalid := blk.nbInvalid + 1, list := Remove(blk.list, s))])
  }

  lemma DeleteSlots(g: Geometry, c: Cfg, s: nat)
    requires Shape(g, c) && SlotsOk(g, c) && s < |c.table| && SlotOk(g, c, s)
    ensures SlotsOk(g, Delete(g, c, s))
  {
    var r := Delete(g, c, s);
    forall t | 0 <= t < |r.table| && r.table[t].valid ensures SlotOk(g, r, t) {
      assert SlotOk(g, c, t);
    }
  }

  lemma DeleteBlock(g: Geometry, c: Cfg, s: nat, b: nat)
    requires Shape(g, c) && s < |c.table| && SlotOk(g, c, s) && b < g.nbBlocks
    requires BlkOk(g, c.blocks[b], c.flash[b]) && ListOk(g, c, b)
    ensures BlkOk(g, Delete(g, c, s).blocks[b], Delete(g, c, s).flash[b]) && ListOk(g, Delete(g, c, s), b)
  {
    if b == BlockOf(c.table[s].index, g.ppb) {
      RemoveDistinct(c.blocks[b].list, s);
    }
  }

  lemma DeleteLists(g: Geometry, c: Cfg, s: nat)
    requires Shape(g, c) && BlocksOk(g, c) && ListsOk(g, c) && s < |c.table| && SlotOk(g, c, s)
    ensures BlocksOk(g, Delete(g, c, s)) && ListsOk(g, Delete(g, c, s))
    ensures AllFull(Delete(g, c, s).blocks, g.ppb) == AllFull(c.blocks, g.ppb)
  {
    var r := Delete(g, c, s);
    assert forall b :: 0 <= b < g.nbBlocks ==> r.blocks[b].offset == c.blocks[b].offset;
    forall b | 0 <= b < g.nbBlocks ensures BlkOk(g, r.blocks[b], r.flash[b]) && ListOk(g, r, b) {
      assert BlkOk(g, c.blocks[b], c.flash[b]) && ListOk(g, c, b);
      DeleteBlock(g, c, s, b);
    }
  }

  lemma DeleteMap(g: Geometry, c: Cfg, m: Contents, s: nat)
    requires Shape(g, c) && TableInv(c.table, g.hash) && MapOk(g, c, m) && s < |c.table| && c.table[s].valid && SlotOk(g, c, s)
    ensures MapOk(g, Delete(g, c, s), m - {c.table[s].key})
  {
    var r, m' := Delete(g, c, s), m - {c.table[s].key};
    InvalidateKeeps(c.table, g.hash, s);
    forall t | 0 <= t < |r.table| && r.table[t].valid
      ensures Stores(PageAt(g, r, r.table[t].index), r.table[t].key, m')
    {
      assert Stores(PageAt(g, c, c.table[t].index), c.table[t].key, m);
      assert c.table[t].key in m';
    }
  }

  /** Invalidating a bucket removes exactly its key from the map. */
  lemma DeleteInv(g: Geometry, c: Cfg, m: Contents, s: nat)
    requires Inv(g, c, m) && s < |c.table| && c.table[s].valid
    ensures SlotOk(g, c, s)
    ensures Inv(g, Delete(g, c, s), m - {c.table[s].key})
  {
    assert SlotOk(g, c, s);
    DeleteSlots(g, c, s);
    DeleteLists(g, c, s);
    DeleteMap(g, c, m, s);
    InvalidateKeeps(c.table, g.hash, s);
  }

  // ----- format_single -----

  function Blank(n: nat): (pages: seq<Page>) {
    seq(n, _ => Erased)
  }

  function Erase(g: Geometry, c: Cfg, b: nat): (r: Cfg)
    requires b < |c.blocks| && b < |c.flash|
  {
    c.(blocks := c.blocks[b := Blk([], Free, c.blocks[b].worn + 1, 0, 0)],
       flash := c.flash[b := Blank(g.ppb)],
       readOnly := false)
  }

  /** The index is the same, and so is every page it points at. */
  ghost predicate SameMeaning(g: Geometry, c: Cfg, d: Cfg)
    requires g.ppb > 0
  {
    d.table == c.table &&
    forall s :: 0 <= s < |c.table| && c.table[s].valid ==> PageAt(g, d, c.table[s].index) == PageAt(g, c, c.table[s].index)
  }

  lemma MeaningKept(g: Geometry, c: Cfg, d: Cfg, m: Contents)
    requires Inv(g, c, m) && Sound(g, d) && g.ppb > 0 && SameMeaning(g, c, d)
    ensures Inv(g, d, m)
  {
    forall s | 0 <= s < |d.table| && d.table[s].valid ensures Stores(PageAt(g, d, d.table[s].index), d.table[s].key, m) {
      assert Stores(PageAt(g, c, c.table[s].index), c.table[s].key, m);
    }
  }

  /** Frame: the table is kept and only block b, which has no live page, differs. */
  lemma SameTable(g: Geometry, c: Cfg, r: Cfg, b: nat)
    requires Sound(g, c) && Shape(g, r) && b < g.nbBlocks
    requires r.table == c.table && c.blocks[b].list == [] && r.blocks[b].list == []
    requires forall b' :: 0 <= b' < g.nbBlocks && b' != b ==> r.blocks[b'] == c.blocks[b'] && r.flash[b'] == c.flash[b']
    ensures SlotsOk(g, r) && ListsOk(g, r) && SameMeaning(g, c, r)
  {
    forall s | 0 <= s < |r.table| && r.table[s].valid
      ensures SlotOk(g, r, s) && PageAt(g, r, c.table[s].index) == PageAt(g, c, c.table[s].index)
    {
      assert SlotOk(g, c, s);
    }
    forall b' | 0 <= b' < g.nbBlocks ensures ListOk(g, r, b') {
      assert ListOk(g, c, b');
    }
  }

  /** The same for the pages of the blocks. */
  lemma OtherBlocksOk(g: Geometry, c: Cfg, r: Cfg, b: nat)
    requires Sound(g, c) && Shape(g, r) && b < g.nbBlocks && BlkOk(g, r.blocks[b], r.flash[b])
    requires forall b' :: 0 <= b' < g.nbBlocks && b' != b ==> r.blocks[b'] == c.blocks[b'] && r.flash[b'] == c.flash[b']
    ensures BlocksOk(g, r)
  {
    forall b' | 0 <= b' < g.nbBlocks ensures BlkOk(g, r.blocks[b'], r.flash[b']) {
      assert BlkOk(g, c.blocks[b'], c.flash[b']);
    }
  }

  /** Erasing a block without live pages leaves the map alone. */
  lemma EraseSound(g: Geometry, c: Cfg, b: nat)
    requires Sound(g, c) && b < g.nbBlocks && c.blocks[b].list == []
    ensures Sound(g, Erase(g, c, b)) && SameMeaning(g, c, Erase(g, c, b))
  {
    var r := Erase(g, c, b);
    OtherBlocksOk(g, c, r, b);
    SameTable(g, c, r, b);
  }

  lemma EraseInv(g: Geometry, c: Cfg, m: Contents, b: nat)
    requires Inv(g, c, m) && b < g.nbBlocks && c.blocks[b].list == []
    ensures Inv(g, Erase(g, c, b), m)
  {
    hide Sound, SameMeaning;
    InvShape(g, c, m);
    EraseSound(g, c, b);
    MeaningKept(g, c, Erase(g, c, b), m);
  }

  // ----- write_page -----

  /** The page at the append offset of b is written, and the read-only flag recomputed. */
  function Put(g: Geometry, c: Cfg, b: nat, bytes: seq<byte>): (r: Cfg)
    requires b < |c.blocks| && b < |c.flash| && 0 <= c.blocks[b].offset < |c.flash[b]|
  {
    var blk := c.blocks[b];
    var blocks := c.blocks[b := blk.(offset := blk.offset + 1)];
    c.(blocks := blocks,
       flash := c.flash[b := c.flash[b][blk.offset := Written(bytes)]],
       readOnly := AllFull(blocks, g.ppb))
  }

  function SetState(c: Cfg, b: nat, state: BlkState): (r: Cfg)
    requires b < |c.blocks|
  {
    c.(blocks := c.blocks[b := c.blocks[b].(state := state)])
  }

  /** write_hdr for a data block: page 0 becomes zeros and the block is in use. */
  function Header(g: Geometry, c: Cfg, b: nat): (r: Cfg)
    requires b < |c.blocks| && b < |c.flash| && 0 <= c.blocks[b].offset < |c.flash[b]|
  {
    SetState(Put(g, c, b, Zeros(g.pageSize)), b, Used)
  }

  /** Opening a free block for data leaves the map alone. */
  lemma HeaderInv(g: Geometry, c: Cfg, m: Contents, b: nat)
    requires Inv(g, c, m) && b < g.nbBlocks && c.blocks[b].state.Free?
    ensures BlkOk(g, c.blocks[b], c.flash[b])
    ensures Inv(g, Header(g, c, b), m) && !Header(g, c, b).readOnly
  {
    SoundBlock(g, c, b);
    var r := Header(g, c, b);
    OtherBlocksOk(g, c, r, b);
    SameTable(g, c, r, b);
    assert r.blocks[b].offset < g.ppb;
    MeaningKept(g, c, r, m);
  }

  /** Choosing a free block for metadata leaves the map alone. */
  lemma MarkSound(g: Geometry, c: Cfg, b: nat)
    requires Sound(g, c) && b < g.nbBlocks && c.blocks[b].state.Free?
    ensures Sound(g, SetState(c, b, Meta))
  {
    SoundBlock(g, c, b);
    var r := SetState(c, b, Meta);
    OtherBlocksOk(g, c, r, b);
    SameTable(g, c, r, b);
    assert forall b' :: 0 <= b' < g.nbBlocks ==> r.blocks[b'].offset == c.blocks[b'].offset;
  }

  /** Writing the next page of a metadata block leaves the map alone. */
  lemma PutMetaSound(g: Geometry, c: Cfg, b: nat, bytes: seq<byte>)
    requires Sound(g, c) && b < g.nbBlocks && c.blocks[b].state.Meta? && c.blocks[b].offset < g.ppb
    requires |bytes| == g.pageSize
    ensures BlkOk(g, c.blocks[b], c.flash[b])
    ensures Sound(g, Put(g, c, b, bytes))
  {
    SoundBlock(g, c, b);
    var r := Put(g, c, b, bytes);
    OtherBlocksOk(g, c, r, b);
    SameTable(g, c, r, b);
  }

  // ----- write_page, hash_add and list_add together -----

  /** The record page goes to the append offset of b, the key into the index, its bucket to the front of the list. */
  function Append(g: Geometry, c: Cfg, b: nat, key: Key, bytes: seq<byte>): (r: Cfg)
    requires b < |c.blocks| && b < |c.flash| && 0 <= c.blocks[b].offset < |c.flash[b]| && |c.table| > 0
  {
    var p := Put(g, c, b, bytes);
    var (table, s) := Add(c.table, g.hash, key, Addr(b, c.blocks[b].offset, g.ppb));
    if s < 0 then p.(table := table)
    else p.(table := table, blocks := p.blocks[b := p.blocks[b].(list := [s] + p.blocks[b].list)])
  }

  /** Distinct slots with distinct pages: no more slots than pages. */
  lemma {:induction false} ImageCard(slots: set<nat>, table: seq<Bucket>, pages: set<nat>)
    requires forall s :: s in slots ==> s < |table| && table[s].index >= 0 && table[s].index in pages
    requires forall s, t :: s in slots && t in slots && s != t ==> table[s].index != table[t].index
    ensures |slots| <= |pages|
    decreases |slots|
  {
    if slots == {} {
    } else {
      var s :| s in slots;
      ImageCard(slots - {s}, table, pages - {table[s].index});
    }
  }

  /** The pages that valid buckets may point at, while page `next` is about to be written. */
  ghost function DataPages(g: Geometry, next: nat): set<nat> {
    Below(Off(g.nbBlocks, g.ppb)) - {0, next}
  }

  lemma SlotPage(g: Geometry, c: Cfg, b: nat, s: nat)
    requires Shape(g, c) && s < |c.table| && SlotOk(g, c, s)
    requires b < g.nbBlocks && 0 <= c.blocks[b].offset < g.ppb
    ensures c.table[s].index in DataPages(g, Addr(b, c.blocks[b].offset, g.ppb))
  {
    AddrJoin(c.table[s].index, g.ppb, g.nbBlocks);
    AddrSplit(b, c.blocks[b].offset, g.ppb);
  }

  lemma DataPagesCard(g: Geometry, b: nat, o: nat)
    requires g.Valid() && b < g.nbBlocks && 1 <= o < g.ppb
    ensures |DataPages(g, Addr(b, o, g.ppb))| == Off(g.nbBlocks, g.ppb) - 2
  {
    var n, next := Off(g.nbBlocks, g.ppb), Addr(b, o, g.ppb);
    AddrSplit(b, o, g.ppb);
    AddrJoin(next, g.ppb, g.nbBlocks);
    assert 0 in Below(n) && next in Below(n) - {0};
    assert |Below(n) - {0}| == n - 1;
    assert DataPages(g, next) == Below(n) - {0} - {next};
  }

  /**
   While a data page is being added, two buckets are free: every valid bucket has a page
   of its own, and neither page 0 nor the new page belongs to one.
   */
  lemma RoomForOne(g: Geometry, c: Cfg, b: nat)
    requires Shape(g, c) && SlotsOk(g, c) && b < g.nbBlocks && 1 <= c.blocks[b].offset < g.ppb
    ensures TwoFree(c.table)
  {
    hide DataPages, Addr, Off;
    var t, o := c.table, c.blocks[b].offset;
    var valid := set s | s in Below(|t|) && t[s].valid;
    forall s | s in valid ensures t[s].index >= 0 && t[s].index in DataPages(g, Addr(b, o, g.ppb)) {
      SlotPage(g, c, b, s);
    }
    DataPagesCard(g, b, o);
    ImageCard(valid, t, DataPages(g, Addr(b, o, g.ppb)));
    TwoOutside(t, valid);
  }

  lemma AppendSlots(g: Geometry, c: Cfg, b: nat, key: Key, bytes: seq<byte>, r: Cfg, s: nat)
    requires Shape(g, c) && SlotsOk(g, c) && b < g.nbBlocks && c.blocks[b].state.Used? && c.blocks[b].offset < g.ppb
    requires BlkOk(g, c.blocks[b], c.flash[b]) && r == Append(g, c, b, key, bytes)
    requires Extends(c.table, r.table, s) && r.table[s].index == Addr(b, c.blocks[b].offset, g.ppb)
    requires r.blocks[b].list == [s] + c.blocks[b].list
    ensures SlotsOk(g, r)
  {
    var o := c.blocks[b].offset;
    AddrSplit(b, o, g.ppb);
    forall t | 0 <= t < |r.table| && r.table[t].valid ensures SlotOk(g, r, t) {
      if t != s {
        assert SlotOk(g, c, t);
      }
    }
    forall t, u | 0 <= t < u < |r.table| && r.table[t].valid && r.table[u].valid
      ensures r.table[t].index != r.table[u].index
    {
      if t == s {
        assert SlotOk(g, c, u);
      } else if u == s {
        assert SlotOk(g, c, t);
      } else {
        assert c.table[t].valid && c.table[u].valid;
      }
    }
  }

  lemma AppendBlock(g: Geometry, c: Cfg, b: nat, key: Key, bytes: seq<byte>, r: Cfg, s: nat, b': nat)
    requires Shape(g, c) && b < g.nbBlocks && c.blocks[b].state.Used? && c.blocks[b].offset < g.ppb && |bytes| == g.pageSize
    requires BlkOk(g, c.blocks[b], c.flash[b]) && r == Append(g, c, b, key, bytes)
    requires Extends(c.table, r.table, s) && r.table[s].index == Addr(b, c.blocks[b].offset, g.ppb)
    requires r.blocks[b].list == [s] + c.blocks[b].list
    requires b' < g.nbBlocks && BlkOk(g, c.blocks[b'], c.flash[b']) && ListOk(g, c, b')
    ensures BlkOk(g, r.blocks[b'], r.flash[b']) && ListOk(g, r, b')
  {
    assert s !in c.blocks[b'].list;
    if b' == b {
      AddrSplit(b, c.blocks[b].offset, g.ppb);
    }
  }

  lemma AppendLists(g: Geometry, c: Cfg, b: nat, key: Key, bytes: seq<byte>, r: Cfg, s: nat)
    requires Shape(g, c) && BlocksOk(g, c) && ListsOk(g, c)
    requires b < g.nbBlocks && c.blocks[b].state.Used? && c.blocks[b].offset < g.ppb && |bytes| == g.pageSize
    requires BlkOk(g, c.blocks[b], c.flash[b]) && r == Append(g, c, b, key, bytes)
    requires Extends(c.table, r.table, s) && r.table[s].index == Addr(b, c.blocks[b].offset, g.ppb)
    requires r.blocks[b].list == [s] + c.blocks[b].list
    ensures BlocksOk(g, r) && ListsOk(g, r)
  {
    forall b' | 0 <= b' < g.nbBlocks ensures BlkOk(g, r.blocks[b'], r.flash[b']) && ListOk(g, r, b') {
      AppendBlock(g, c, b, key, bytes, r, s, b');
    }
  }

  /** The page of another valid bucket is not the one that is written. */
  lemma AppendSparesPage(g: Geometry, c: Cfg, b: nat, key: Key, bytes: seq<byte>, r: Cfg, t: nat)
    requires Shape(g, c) && t < |c.table| && SlotOk(g, c, t)
    requires b < g.nbBlocks && 0 <= c.blocks[b].offset < g.ppb && |c.flash[b]| == g.ppb
    requires r == Append(g, c, b, key, bytes)
    ensures PageAt(g, r, c.table[t].index) == PageAt(g, c, c.table[t].index)
  {
  }

  lemma AppendMap(g: Geometry, c: Cfg, m: Contents, b: nat, rec: Couple, bytes: seq<byte>, r: Cfg, s: nat)
    requires Shape(g, c) && SlotsOk(g, c) && MapOk(g, c, m)
    requires b < g.nbBlocks && c.blocks[b].state.Used? && c.blocks[b].offset < g.ppb
    requires BlkOk(g, c.blocks[b], c.flash[b]) && r == Append(g, c, b, rec.key, bytes)
    requires Extends(c.table, r.table, s) && r.table[s].index == Addr(b, c.blocks[b].offset, g.ppb)
    requires r.table[s].key == rec.key && rec.key !in m && |rec.key| < 128 && Holds(bytes, rec)
    ensures MapOk(g, r, m[rec.key := rec.val])
  {
    var m' := m[rec.key := rec.val];
    AddrSplit(b, c.blocks[b].offset, g.ppb);
    ExtendsKeys(c.table, r.table, s);
    assert PageAt(g, r, r.table[s].index) == Written(bytes);
    forall t | 0 <= t < |r.table| && r.table[t].valid
      ensures Stores(PageAt(g, r, r.table[t].index), r.table[t].key, m')
    {
      if t != s {
        AppendSparesPage(g, c, b, rec.key, bytes, r, t);
        assert Stores(PageAt(g, c, c.table[t].index), c.table[t].key, m);
      }
    }
  }

  /** Appending a page with whatever contents: neither write_page nor hash_add can fail, and the accounting stays right. */
  lemma AppendSound(g: Geometry, c: Cfg, b: nat, key: Key, bytes: seq<byte>)
    requires Sound(g, c) && b < g.nbBlocks && c.blocks[b].state.Used? && c.blocks[b].offset < g.ppb && |bytes| == g.pageSize
    ensures BlkOk(g, c.blocks[b], c.flash[b]) && TwoFree(c.table)
    ensures var (t, s) := Add(c.table, g.hash, key, Addr(b, c.blocks[b].offset, g.ppb));
            var r := Append(g, c, b, key, bytes);
            && s >= 0 && Extends(c.table, t, s) && r.table == t && t[s].key == key
            && t[s].index == Addr(b, c.blocks[b].offset, g.ppb) && Sound(g, r)
  {
    hide SlotsOk, ListsOk;
    SoundBlock(g, c, b);
    RoomForOne(g, c, b);
    var index := Addr(b, c.blocks[b].offset, g.ppb);
    AddExtends(c.table, g.hash, key, index);
    var s, r := Add(c.table, g.hash, key, index).1, Append(g, c, b, key, bytes);
    AppendSlots(g, c, b, key, bytes, r, s);
    AppendLists(g, c, b, key, bytes, r, s);
    assert AllFull(r.blocks, g.ppb) == r.readOnly by {
      var p := Put(g, c, b, bytes);
      assert forall b' :: 0 <= b' < g.nbBlocks ==> r.blocks[b'].offset == p.blocks[b'].offset;
    }
  }

  /** Appending the record of a key that is not in the map adds exactly that entry. */
  lemma AppendInv(g: Geometry, c: Cfg, m: Contents, b: nat, rec: Couple, bytes: seq<byte>)
    requires Inv(g, c, m) && b < g.nbBlocks && c.blocks[b].state.Used? && c.blocks[b].offset < g.ppb
    requires rec.key !in m && |rec.key| < 128 && |bytes| == g.pageSize && Holds(bytes, rec)
    ensures BlkOk(g, c.blocks[b], c.flash[b])
    ensures Inv(g, Append(g, c, b, rec.key, bytes), m[rec.key := rec.val])
  {
    hide SlotsOk, ListsOk, TableInv, Holds, Extends, TwoFree, Append, Add;
    AppendSound(g, c, b, rec.key, bytes);
    var index := Addr(b, c.blocks[b].offset, g.ppb);
    AddKeeps(c.table, g.hash, rec.key, index);
    var s, r := Add(c.table, g.hash, rec.key, index).1, Append(g, c, b, rec.key, bytes);
    AppendMap(g, c, m, b, rec, bytes, r, s);
  }

  // ----- what the elementary changes leave alone -----

  /** Nothing but block b differs from c to d. */
  ghost predicate OnlyBlock(c: Cfg, d: Cfg, b: nat) {
    && |c.blocks| == |d.blocks| && |c.flash| == |d.flash|
    && (forall i :: 0 <= i < |c.blocks| && i != b ==> d.blocks[i] == c.blocks[i])
    && (forall i :: 0 <= i < |c.flash| && i != b ==> d.flash[i] == c.flash[i])
  }

  /** From c to d, metadata blocks are untouched in RAM and on flash, and no block becomes one. */
  ghost predicate MetaKept(c: Cfg, d: Cfg) {
    && |c.blocks| == |d.blocks| == |c.flash| == |d.flash|
    && (forall i :: 0 <= i < |c.blocks| && c.blocks[i].state.Meta? ==> d.blocks[i] == c.blocks[i] && d.flash[i] == c.flash[i])
    && (forall i :: 0 <= i < |c.blocks| && d.blocks[i].state.Meta? ==> c.blocks[i].state.Meta?)
  }

  /** No worn counter falls, and none grows by more than k. */
  ghost predicate Aged(c: Cfg, d: Cfg, k: nat) {
    |c.blocks| == |d.blocks| && forall i :: 0 <= i < |c.blocks| ==> c.blocks[i].worn <= d.blocks[i].worn <= c.blocks[i].worn + k
  }

  /** The blocks of `erased` are worn once more, and no others. */
  ghost predicate Worn(c: Cfg, d: Cfg, erased: set<int>) {
    && |c.blocks| == |d.blocks|
    && forall i :: 0 <= i < |c.blocks| ==> d.blocks[i].worn == c.blocks[i].worn + if i in erased then 1 else 0
  }

  lemma WornThen(c: Cfg, d: Cfg, e: Cfg, erased: set<int>)
    requires |c.blocks| == |d.blocks| == |e.blocks|
    requires (Aged(c, d, 0) && Worn(d, e, erased)) || (Worn(c, d, erased) && Aged(d, e, 0))
    ensures Worn(c, e, erased)
  {
  }

  ghost predicate Steady(c: Cfg, d: Cfg) {
    MetaKept(c, d) && Aged(c, d, 0)
  }

  lemma MetaKeptTrans(c: Cfg, d: Cfg, e: Cfg)
    requires MetaKept(c, d) && MetaKept(d, e)
    ensures MetaKept(c, e)
  {
  }

  lemma AgedTrans(c: Cfg, d: Cfg, e: Cfg, j: nat, k: nat)
    requires Aged(c, d, j) && Aged(d, e, k)
    ensures Aged(c, e, j + k)
  {
  }

  lemma AgedMore(c: Cfg, d: Cfg, j: nat, k: nat)
    requires Aged(c, d, j) && j <= k
    ensures Aged(c, d, k)
  {
  }

  lemma SteadyTrans(c: Cfg, d: Cfg, e: Cfg)
    requires Steady(c, d) && Steady(d, e)
    ensures Steady(c, e)
  {
  }

  lemma OnlyBlockTrans(c: Cfg, d: Cfg, e: Cfg, b: nat)
    requires OnlyBlock(c, d, b) && OnlyBlock(d, e, b)
    ensures OnlyBlock(c, e, b)
  {
  }

  lemma FrameSelf(c: Cfg, b: nat)
    requires |c.blocks| == |c.flash|
    ensures Steady(c, c) && OnlyBlock(c, c, b)
  {
  }

  lemma DeleteFrame(g: Geometry, c: Cfg, s: nat)
    requires Shape(g, c) && s < |c.table| && SlotOk(g, c, s)
    ensures var d, b := Delete(g, c, s), BlockOf(c.table[s].index, g.ppb);
            && Steady(c, d) && OnlyBlock(c, d, b)
            && d.blocks[b].state == c.blocks[b].state && d.blocks[b].offset == c.blocks[b].offset
            && d.flash == c.flash && d.readOnly == c.readOnly
  {
  }

  lemma AppendFrame(g: Geometry, c: Cfg, b: nat, key: Key, bytes: seq<byte>)
    requires Shape(g, c) && b < g.nbBlocks && BlkOk(g, c.blocks[b], c.flash[b])
    requires c.blocks[b].state.Used? && c.blocks[b].offset < g.ppb
    ensures var d := Append(g, c, b, key, bytes);
            && Steady(c, d) && OnlyBlock(c, d, b)
            && d.blocks[b].state.Used? && d.blocks[b].offset == c.blocks[b].offset + 1
            && d.blocks[b].nbInvalid == c.blocks[b].nbInvalid
            && (Add(c.table, g.hash, key, Addr(b, c.blocks[b].offset, g.ppb)).1 >= 0 ==>
                  d.blocks[b].list != [] && d.blocks[b].list[1..] == c.blocks[b].list)
  {
  }

  lemma EraseFrame(g: Geometry, c: Cfg, b: nat)
    requires Shape(g, c) && b < g.nbBlocks
    ensures var d := Erase(g, c, b);
            && OnlyBlock(c, d, b) && Aged(c, d, 1) && Worn(c, d, {b}) && (c.blocks[b].state.Used? ==> MetaKept(c, d))
            && d.blocks[b].state.Free? && d.blocks[b].offset == 0 && !d.readOnly
  {
  }

  lemma HeaderFrame(g: Geometry, c: Cfg, b: nat)
    requires Shape(g, c) && b < g.nbBlocks && BlkOk(g, c.blocks[b], c.flash[b]) && c.blocks[b].state.Free?
    ensures var d := Header(g, c, b);
            && Steady(c, d) && OnlyBlock(c, d, b)
            && d.blocks[b].state.Used? && d.blocks[b].offset == 1 && d.blocks[b].nbInvalid == 0
  {
  }

  /** Nothing but blocks a and b differs from c to d. */
  ghost predicate OnlyBlocks(c: Cfg, d: Cfg, a: nat, b: nat) {
    && |c.blocks| == |d.blocks| && |c.flash| == |d.flash|
    && (forall i :: 0 <= i < |c.blocks| && i != a && i != b ==> d.blocks[i] == c.blocks[i])
    && (forall i :: 0 <= i < |c.flash| && i != a && i != b ==> d.flash[i] == c.flash[i])
  }

  lemma OnlyBlocksJoin(c: Cfg, d: Cfg, e: Cfg, a: nat, b: nat)
    requires OnlyBlock(c, d, a) && OnlyBlock(d, e, b)
    ensures OnlyBlocks(c, e, a, b)
  {
  }

  lemma SteadyParts(c: Cfg, d: Cfg)
    requires Steady(c, d)
    ensures MetaKept(c, d) && Aged(c, d, 0)
  {
  }

  // ----- the state after the first-mount format -----

  lemma FreshInv(g: Geometry, c: Cfg)
    requires Shape(g, c) && !c.readOnly
    requires forall b :: 0 <= b < g.nbBlocks ==> c.blocks[b] == Blk([], Free, 0, 0, 0) && c.flash[b] == Blank(g.ppb)
    requires forall s :: 0 <= s < |c.table| ==> !c.table[s].valid && !c.table[s].dirty
    ensures Inv(g, c, map[])
  {
    assert c.blocks[0].offset < g.ppb;
  }

  /** A store whose blocks are all free holds nothing. */
  lemma AllFreeEmpty(g: Geometry, c: Cfg, m: Contents)
    requires Inv(g, c, m) && forall b :: 0 <= b < |c.blocks| ==> c.blocks[b].state.Free?
    ensures m == map[]
  {
    forall s | 0 <= s < |c.table| ensures !c.table[s].valid {
      assert c.table[s].valid ==> SlotOk(g, c, s);
    }
    assert m.Keys == {};
  }
}

/**
 What the store promises: the state that set_keyval reaches before it collects garbage, when
 that collection is harmless, and the bounded map that every run of the driver behaves like.
 */
module StoreSpec {
  import opened Bytes
  import opened Arithmetic
  import opened Addressing
  import opened ProbeTable
  import opened Record
  import opened Config
  import opened LiveRecords
  import opened Metadata
  import opened Capacity

  const INVALID_THRESHOLD := 48
  const MERGE_THRESHOLD := 20
  const INT_MAX := 0x7FFF_FFFF

  // ----- which block is collected, which block is written -----

  /** The block that gc picks: the first one outside `skip` with enough invalid pages. */
  ghost predicate IsTarget(blocks: seq<Blk>, skip: seq<int>, threshold: int, b: int) {
    && 0 <= b < |blocks| && b !in skip && blocks[b].nbInvalid >= threshold
    && forall i :: 0 <= i < b && i !in skip ==> blocks[i].nbInvalid < threshold
  }

  ghost predicate NoTarget(blocks: seq<Blk>, skip: seq<int>, threshold: int) {
    forall i :: 0 <= i < |blocks| && i !in skip ==> blocks[i].nbInvalid < threshold
  }

  ghost predicate Writable(blk: Blk, ppb: nat) {
    !blk.state.Invalid? && blk.offset < ppb && blk.worn < INT_MAX
  }

  /** The least worn block with room, the first of them on a tie. */
  ghost predicate IsHealthy(blocks: seq<Blk>, ppb: nat, r: int) {
    && 0 <= r < |blocks| && Writable(blocks[r], ppb)
    && forall b :: 0 <= b < |blocks| && Writable(blocks[b], ppb) ==>
         blocks[r].worn <= blocks[b].worn && (b < r ==> blocks[r].worn < blocks[b].worn)
  }

  // ----- the state after the write of a set -----

  /** The old copy of the key, if there is one, is invalidated. */
  ghost function Dropped(g: Geometry, c: Cfg, key: Key): (d: Cfg)
    requires Sound(g, c)
  {
    var s := Search(c.table, g.hash, key);
    if s < 0 then c
    else
      SoundSlot(g, c, s);
      Delete(g, c, s)
  }

  ghost predicate Placeable(g: Geometry, c: Cfg, b: nat) {
    b < g.nbBlocks == |c.blocks| && (c.blocks[b].state.Free? || (c.blocks[b].state.Used? && c.blocks[b].offset < g.ppb))
  }

  /** The block has its header. */
  ghost function Opened(g: Geometry, c: Cfg, b: nat): (d: Cfg)
    requires Sound(g, c) && Placeable(g, c, b)
    ensures |d.blocks| == |d.flash| == g.nbBlocks && |d.table| > 0 && 1 <= d.blocks[b].offset < g.ppb == |d.flash[b]|
  {
    SoundBlock(g, c, b);
    if c.blocks[b].state.Free? then Header(g, c, b) else c
  }

  ghost function Placed(g: Geometry, c: Cfg, b: nat, key: Key, page: seq<byte>): (d: Cfg)
    requires Sound(g, c) && Placeable(g, c, b)
  {
    Append(g, Opened(g, c, b), b, key, page)
  }

  lemma DroppedInv(g: Geometry, c: Cfg, m: Contents, key: Key)
    requires Inv(g, c, m)
    ensures Sound(g, c)
    ensures var d := Dropped(g, c, key);
            && Inv(g, d, m - {key}) && Sound(g, d)
            && Garbage(d.blocks) == Garbage(c.blocks) + (if key in m then 1 else 0)
  {
    hide Inv, Sound, Delete, LiveKeys;
    InvShape(g, c, m);
    InvTable(g, c, m);
    SearchExact(c.table, g.hash, key);
    var s := Search(c.table, g.hash, key);
    if s >= 0 {
      DeleteInv(g, c, m, s);
      GarbageDelete(g, c, s);
    } else {
      assert m - {key} == m;
    }
    InvShape(g, Dropped(g, c, key), m - {key});
  }

  lemma OpenedInv(g: Geometry, c: Cfg, m: Contents, b: nat)
    requires Inv(g, c, m) && Placeable(g, c, b)
    ensures Sound(g, c)
    ensures var d := Opened(g, c, b);
            && Inv(g, d, m) && d.blocks[b].state.Used? && Garbage(d.blocks) == Garbage(c.blocks)
  {
    hide Inv, Sound;
    InvShape(g, c, m);
    InvBlock(g, c, m, b);
    if c.blocks[b].state.Free? {
      HeaderInv(g, c, m, b);
      GarbageSame(c.blocks, Header(g, c, b).blocks);
    }
  }

  lemma PlacedInv(g: Geometry, c: Cfg, m: Contents, b: nat, rec: Couple, page: seq<byte>)
    requires Inv(g, c, m) && Placeable(g, c, b) && rec.key !in m && |rec.key| < 128
    requires |page| == g.pageSize && Holds(page, rec)
    ensures Sound(g, c)
    ensures var d := Placed(g, c, b, rec.key, page);
            Inv(g, d, m[rec.key := rec.val]) && Garbage(d.blocks) == Garbage(c.blocks)
  {
    hide Inv, Sound, Holds, Opened;
    InvShape(g, c, m);
    OpenedInv(g, c, m, b);
    var o := Opened(g, c, b);
    AppendInv(g, o, m, b, rec, page);
    InvShape(g, o, m);
    AppendGarbage(g, o, b, rec.key, page);
  }

  lemma AppendGarbage(g: Geometry, c: Cfg, b: nat, key: Key, page: seq<byte>)
    requires Shape(g, c) && b < g.nbBlocks && BlkOk(g, c.blocks[b], c.flash[b]) && c.blocks[b].state.Used? && c.blocks[b].offset < g.ppb
    ensures Garbage(Append(g, c, b, key, page).blocks) == Garbage(c.blocks)
  {
    AppendFrame(g, c, b, key, page);
    GarbageSame(c.blocks, Append(g, c, b, key, page).blocks);
  }

  /** The whole write: the map gains the binding, and an old copy becomes one invalid page. */
  lemma PutInv(g: Geometry, c: Cfg, m: Contents, rec: Couple, b: nat)
    requires Inv(g, c, m) && rec.WellFormed() && |rec.key| < 128 && rec.Size() <= g.pageSize < 0x8000_0000
    requires Sound(g, c) && Placeable(g, Dropped(g, c, rec.key), b)
    ensures Sound(g, Dropped(g, c, rec.key))
    ensures var d := Placed(g, Dropped(g, c, rec.key), b, rec.key, Encode(rec, g.pageSize));
            && Inv(g, d, m[rec.key := rec.val])
            && Garbage(d.blocks) == Garbage(c.blocks) + (if rec.key in m then 1 else 0)
  {
    hide Inv, Sound, Dropped, Placed, Holds, Encode, Couple.Image;
    DroppedInv(g, c, m, rec.key);
    EncodeHolds(rec, g.pageSize);
    PlacedInv(g, Dropped(g, c, rec.key), m - {rec.key}, b, rec, Encode(rec, g.pageSize));
    assert (m - {rec.key})[rec.key := rec.val] == m[rec.key := rec.val];
  }

  // ----- when a garbage collection is harmless -----

  /** Whatever block is picked for collection, its live records come through the copy buffer. */
  ghost predicate GcSafe(g: Geometry, c: Cfg, m: Contents) {
    forall t: nat :: t < |c.blocks| && IsTarget(c.blocks, [], INVALID_THRESHOLD, t) ==> StrideSafe(g, c, m, t)
  }

  /** So it is in the state that the write of this set leads to. */
  ghost predicate SetSafe(g: Geometry, c: Cfg, m: Contents, rec: Couple)
    requires Sound(g, c) && rec.Size() <= g.pageSize < 0x8000_0000
  {
    var d := Dropped(g, c, rec.key);
    Sound(g, d) ==>
      forall b: nat :: IsHealthy(d.blocks, g.ppb, b) && Placeable(g, d, b) ==>
        GcSafe(g, Placed(g, d, b, rec.key, Encode(rec, g.pageSize)), m[rec.key := rec.val])
  }

  lemma SafePut(g: Geometry, c: Cfg, m: Contents, rec: Couple, b: nat)
    requires Sound(g, c) && rec.Size() <= g.pageSize < 0x8000_0000 && SetSafe(g, c, m, rec)
    requires Sound(g, Dropped(g, c, rec.key)) && IsHealthy(Dropped(g, c, rec.key).blocks, g.ppb, b)
    requires Placeable(g, Dropped(g, c, rec.key), b)
    ensures GcSafe(g, Placed(g, Dropped(g, c, rec.key), b, rec.key, Encode(rec, g.pageSize)), m[rec.key := rec.val])
  {
    hide Sound, Dropped, Placed, Encode, GcSafe, IsHealthy;
  }

  lemma CompactGcSafe(g: Geometry, c: Cfg, m: Contents)
    requires Inv(g, c, m) && Compact(m, g.ppb)
    ensures GcSafe(g, c, m)
  {
    hide Inv, StrideSafe, IsTarget;
    InvShape(g, c, m);
    forall t: nat | t < |c.blocks| ensures StrideSafe(g, c, m, t) {
      CompactSafe(g, c, m, t);
    }
  }

  lemma CalmGcSafe(g: Geometry, c: Cfg, m: Contents)
    requires Inv(g, c, m) && Garbage(c.blocks) < INVALID_THRESHOLD
    ensures NoTarget(c.blocks, [], INVALID_THRESHOLD) && GcSafe(g, c, m)
  {
    hide Inv, StrideSafe, Garbage;
    InvShape(g, c, m);
    forall t | 0 <= t < |c.blocks| ensures c.blocks[t].nbInvalid < INVALID_THRESHOLD {
      GarbageAtLeast(g, c, t);
    }
  }

  /** Records within the stride, or few invalid pages: either makes a set safe. */
  lemma SetSafeIf(g: Geometry, c: Cfg, m: Contents, rec: Couple)
    requires Inv(g, c, m) && rec.WellFormed() && |rec.key| < 128 && rec.Size() <= g.pageSize < 0x8000_0000
    requires Compact(m[rec.key := rec.val], g.ppb) || Garbage(c.blocks) + (if rec.key in m then 1 else 0) < INVALID_THRESHOLD
    ensures Sound(g, c) && SetSafe(g, c, m, rec)
  {
    hide Inv, Sound, Dropped, Placed, GcSafe, Encode, Couple.Image, Garbage, Compact, IsHealthy;
    InvShape(g, c, m);
    var d := Dropped(g, c, rec.key);
    forall b: nat | Sound(g, d) && Placeable(g, d, b)
      ensures GcSafe(g, Placed(g, d, b, rec.key, Encode(rec, g.pageSize)), m[rec.key := rec.val])
    {
      PutInv(g, c, m, rec, b);
      var e := Placed(g, d, b, rec.key, Encode(rec, g.pageSize));
      if Compact(m[rec.key := rec.val], g.ppb) {
        CompactGcSafe(g, e, m[rec.key := rec.val]);
      } else {
        CalmGcSafe(g, e, m[rec.key := rec.val]);
      }
    }
  }

  // ----- operations and answers -----

  /**
   The machine's memory when metadata is flushed: how the block table and the hash table lie
   in it as bytes, and what lies behind the buffer that they are copied to.
   */
  datatype Ram = Ram(image: (seq<Blk>, seq<Bucket>) -> seq<byte>, beyond: nat -> byte)

  ghost predicate RamOk(g: Geometry, metaSize: nat, ram: Ram) {
    forall blocks, table :: |blocks| == g.nbBlocks && |table| == Off(g.nbBlocks, g.ppb) ==> |ram.image(blocks, table)| == metaSize
  }

  datatype Op =
    | SetOp(rec: Couple, ram: Ram, now: nat, nowFlush: nat)
    | GetOp(key: Key)
    | DelOp(key: Key)
    | GcOp
    | FlushOp(ram: Ram, now: nat)

  datatype Reply = Status(code: int) | Value(val: seq<byte>) | NotFound

  /** What the driver demands of an operation: C strings, keys of less than 128 bytes, a clock value of a million or more. */
  ghost predicate OpOk(g: Geometry, metaSize: nat, op: Op) {
    match op
    case SetOp(rec, ram, now, _) => rec.WellFormed() && |rec.key| < 128 && RamOk(g, metaSize, ram) && 1000000 <= now < U64
    case FlushOp(ram, _) => RamOk(g, metaSize, ram)
    case _ => true
  }

  /** The collection that an operation may trigger does no damage. */
  ghost predicate Harmless(g: Geometry, c: Cfg, m: Contents, op: Op)
    requires Sound(g, c) && g.pageSize < 0x8000_0000
  {
    match op
    case SetOp(rec, _, _, _) => Fitting(g, op) && !c.readOnly ==> SetSafe(g, c, m, rec)
    case GcOp => GcSafe(g, c, m)
    case _ => true
  }

  /** A set whose record fits a page. */
  predicate Fitting(g: Geometry, op: Op) {
    op.SetOp? && op.rec.Size() <= g.pageSize
  }

  // ----- the bounded map -----

  /** The map, the pages that its history has used up, and whether a snapshot has been written. */
  datatype Account = Account(m: Contents, used: int, began: bool)

  ghost predicate Sizes(g: Geometry, nbMeta: nat) {
    g.Valid() && 1 <= nbMeta < g.nbBlocks
  }

  /** How many records there is room for; the blocks of the snapshot are taken by the first flush. */
  ghost function Limit(g: Geometry, nbMeta: nat, began: bool): nat
    requires Sizes(g, nbMeta)
  {
    Pages(g, if began then nbMeta else 0)
  }

  /** A map that takes a record as long as pages are left. Every accepted record uses one up, for good. */
  ghost function Ideal(g: Geometry, nbMeta: nat, s: Account, op: Op): Account
    requires Sizes(g, nbMeta)
  {
    match op
    case SetOp(rec, _, _, _) =>
      if Accepts(g, nbMeta, s, op) then Account(s.m[rec.key := rec.val], s.used + 1, true) else s
    case DelOp(key) => s.(m := s.m - {key})
    case FlushOp(_, _) => s.(began := true)
    case _ => s
  }

  /** Its answers, codes included: the record that takes the last page is stored and answered -3. */
  ghost predicate Answers(g: Geometry, nbMeta: nat, s: Account, op: Op, reply: Reply)
    requires Sizes(g, nbMeta)
  {
    match op
    case SetOp(_, _, _, _) =>
      reply == Status(if !Fitting(g, op) then -1 else if s.used + 1 >= Limit(g, nbMeta, s.began) then -3 else 0)
    case GetOp(key) => reply == if key in s.m then Value(s.m[key]) else NotFound
    case DelOp(key) => reply.Status? && if key in s.m then reply.code >= 0 else reply.code == -2
    case GcOp => true
    case FlushOp(_, _) => reply == Status(if s.used == Limit(g, nbMeta, true) then -2 else 0)
  }

  ghost function Wasted(s: Account): int {
    s.used - |s.m|
  }

  /** A set that the bounded map accepts. */
  ghost predicate Accepts(g: Geometry, nbMeta: nat, s: Account, op: Op)
    requires Sizes(g, nbMeta)
  {
    Fitting(g, op) && s.used < Limit(g, nbMeta, s.began)
  }

  /** The most pages that are wasted while no block is due for collection. */
  ghost function Slack(g: Geometry, nbMeta: nat): nat
    requires Sizes(g, nbMeta)
  {
    Off(g.nbBlocks - nbMeta, INVALID_THRESHOLD - 1)
  }

  /**
   One step of the store: it answers like the bounded map and changes like it, except that the
   garbage collection of a set or a gc gives back as many pages as the threshold or more. A set
   that collects nothing leaves no block due.
   */
  ghost predicate Follows(g: Geometry, nbMeta: nat, s: Account, op: Op, reply: Reply, r: Account)
    requires Sizes(g, nbMeta)
  {
    var i := Ideal(g, nbMeta, s, op);
    && Answers(g, nbMeta, s, op, reply)
    && r.m == i.m && r.began == i.began && |r.m| <= r.used
    && (|| (r.used == i.used && (Accepts(g, nbMeta, s, op) ==> Wasted(r) <= Slack(g, nbMeta)))
        || ((op.SetOp? || op.GcOp?) && r.used + INVALID_THRESHOLD <= i.used))
  }

  ghost function AccountOf(c: Cfg, m: Contents, began: bool): Account {
    Account(m, UsedPages(c, m), began)
  }

  /** The account tells whether the store is full, or takes just one more record. */
  lemma Standing(g: Geometry, c: Cfg, m: Contents, order: seq<int>, buf: seq<byte>, timeFlush: nat)
    requires Inv(g, c, m) && Sizes(g, |order|) && MetaInv(g, c, order, buf, timeFlush)
    ensures var s := AccountOf(c, m, Flushed(g, c, order, buf));
            var limit := Limit(g, |order|, s.began);
            && |m| <= s.used <= limit
            && (c.readOnly <==> s.used == limit) && (OnePageLeft(c.blocks, g.ppb) <==> s.used + 1 == limit)
  {
    hide Inv, OnePageLeft, Pages, Flushed;
    if Flushed(g, c, order, buf) {
      FlushedCount(g, c, order, buf);
      FullIff(g, c, m, |order|);
    } else {
      FreshCount(c, g.ppb);
      FullIff(g, c, m, 0);
    }
  }

  lemma RefusedFollows(g: Geometry, nbMeta: nat, s: Account, op: Op, reply: Reply)
    requires Sizes(g, nbMeta) && op.SetOp? && |s.m| <= s.used
    requires if Fitting(g, op) then s.used == Limit(g, nbMeta, s.began) && reply == Status(-3) else reply == Status(-1)
    ensures Follows(g, nbMeta, s, op, reply, s)
  {
    hide Pages;
  }

  lemma StoredFollows(g: Geometry, nbMeta: nat, s: Account, op: Op, code: int, r: Account, garbage: int)
    requires Sizes(g, nbMeta) && Accepts(g, nbMeta, s, op)
    requires code == if s.used + 1 == Limit(g, nbMeta, s.began) then -3 else 0
    requires r.m == s.m[op.rec.key := op.rec.val] && r.began && r.used == |r.m| + garbage && garbage >= 0
    requires var before := Wasted(s) + if op.rec.key in s.m then 1 else 0;
             (garbage == before && garbage <= Slack(g, nbMeta)) || garbage + INVALID_THRESHOLD <= before
    ensures Follows(g, nbMeta, s, op, Status(code), r)
  {
    hide Pages, Slack;
    PutCard(s.m, op.rec.key, op.rec.val);
  }

  lemma DeletedFollows(g: Geometry, nbMeta: nat, s: Account, op: Op, code: int, r: Account)
    requires Sizes(g, nbMeta) && op.DelOp? && |s.m| <= s.used
    requires if op.key in s.m then code >= 0 else code == -2
    requires r.m == s.m - {op.key} && r.began == s.began
    requires r.used - |r.m| == s.used - |s.m| + if op.key in s.m then 1 else 0
    ensures Follows(g, nbMeta, s, op, Status(code), r)
  {
    hide Pages, Slack, Limit;
    DropCard(s.m, op.key);
  }

  lemma KeptFollows(g: Geometry, nbMeta: nat, s: Account, op: Op, reply: Reply, r: Account)
    requires Sizes(g, nbMeta) && (op.GetOp? || op.GcOp? || op.FlushOp?) && Answers(g, nbMeta, s, op, reply)
    requires r.m == s.m && r.began == (s.began || op.FlushOp?) && |r.m| <= r.used
    requires r.used == s.used || (op.GcOp? && r.used + INVALID_THRESHOLD <= s.used)
    ensures Follows(g, nbMeta, s, op, reply, r)
  {
    hide Pages;
  }

  /** The first n steps of a run. */
  ghost predicate History(g: Geometry, nbMeta: nat, trace: seq<Account>, ops: seq<Op>, replies: seq<Reply>, n: nat)
    requires Sizes(g, nbMeta)
  {
    && n <= |ops| && |trace| == n + 1 && |replies| == n
    && forall i :: 0 <= i < n ==> Follows(g, nbMeta, trace[i], ops[i], replies[i], trace[i + 1])
  }

  lemma HistoryNext(g: Geometry, nbMeta: nat, trace: seq<Account>, ops: seq<Op>, replies: seq<Reply>, n: nat, reply: Reply, r: Account)
    requires Sizes(g, nbMeta) && History(g, nbMeta, trace, ops, replies, n) && n < |ops|
    requires Follows(g, nbMeta, trace[n], ops[n], reply, r)
    ensures History(g, nbMeta, trace + [r], ops, replies + [reply], n + 1)
  {
    hide Follows;
  }

  // ----- few wasted pages: exactly the bounded map -----

  ghost function IdealAfter(g: Geometry, nbMeta: nat, s: Account, ops: seq<Op>, n: nat): Account
    requires Sizes(g, nbMeta) && n <= |ops|
  {
    if n == 0 then s else Ideal(g, nbMeta, IdealAfter(g, nbMeta, s, ops, n - 1), ops[n - 1])
  }

  lemma WasteGrows(g: Geometry, nbMeta: nat, s: Account, op: Op)
    requires Sizes(g, nbMeta)
    ensures Wasted(s) <= Wasted(Ideal(g, nbMeta, s, op))
  {
    match op
    case SetOp(rec, _, _, _) =>
      PutCard(s.m, rec.key, rec.val);
    case DelOp(key) =>
      DropCard(s.m, key);
    case _ =>
  }

  lemma PutCard(m: Contents, key: Key, val: seq<byte>)
    ensures |m[key := val]| == |m| + if key in m then 0 else 1
  {
    if key in m {
      assert m[key := val].Keys == m.Keys;
    } else {
      assert m[key := val].Keys == m.Keys + {key};
    }
  }

  lemma DropCard(m: Contents, key: Key)
    ensures |m - {key}| == |m| - if key in m then 1 else 0
  {
    assert (m - {key}).Keys == m.Keys - {key};
  }

  /** As long as the bounded map has wasted fewer pages than the threshold, the store is that map. */
  lemma {:induction false} CalmExact(g: Geometry, nbMeta: nat, trace: seq<Account>, ops: seq<Op>, replies: seq<Reply>, k: nat, n: nat)
    requires Sizes(g, nbMeta) && History(g, nbMeta, trace, ops, replies, k) && n <= k
    requires Wasted(IdealAfter(g, nbMeta, trace[0], ops, n)) < INVALID_THRESHOLD
    ensures trace[n] == IdealAfter(g, nbMeta, trace[0], ops, n)
  {
    hide Ideal, Answers, Slack, Limit;
    if n == 0 {
    } else {
      WasteGrows(g, nbMeta, IdealAfter(g, nbMeta, trace[0], ops, n - 1), ops[n - 1]);
      CalmExact(g, nbMeta, trace, ops, replies, k, n - 1);
      assert Follows(g, nbMeta, trace[n - 1], ops[n - 1], replies[n - 1], trace[n - 1 + 1]);
    }
  }

  // ----- few sets: exactly a plain map -----

  /** How many of the first n operations are sets of acceptable size. */
  function Sets(g: Geometry, ops: seq<Op>, n: nat): (k: nat)
    requires n <= |ops|
  {
    if n == 0 then 0 else Sets(g, ops, n - 1) + if Fitting(g, ops[n - 1]) then 1 else 0
  }

  /** One step of a plain map. */
  ghost function PlainStep(g: Geometry, m: Contents, op: Op): Contents {
    if Fitting(g, op) then m[op.rec.key := op.rec.val] else if op.DelOp? then m - {op.key} else m
  }

  /** A plain map after the first n operations. */
  ghost function Plain(g: Geometry, m: Contents, ops: seq<Op>, n: nat): Contents
    requires n <= |ops|
  {
    if n == 0 then m else PlainStep(g, Plain(g, m, ops, n - 1), ops[n - 1])
  }

  lemma LimitShrinks(g: Geometry, nbMeta: nat, began: bool)
    requires Sizes(g, nbMeta)
    ensures Pages(g, nbMeta) <= Limit(g, nbMeta, began)
  {
    OffStep(g.nbBlocks - nbMeta, g.nbBlocks, g.ppb - 1);
  }

  /** As long as no more records have been set than there are pages, everything was stored. */
  lemma {:induction false} FewSetsExact(g: Geometry, nbMeta: nat, trace: seq<Account>, ops: seq<Op>, replies: seq<Reply>, k: nat, n: nat)
    requires Sizes(g, nbMeta) && History(g, nbMeta, trace, ops, replies, k) && n <= k
    requires trace[0].used + Sets(g, ops, n) <= Pages(g, nbMeta)
    ensures trace[n].m == Plain(g, trace[0].m, ops, n) && trace[n].used <= trace[0].used + Sets(g, ops, n)
  {
    hide Answers, Wasted, Pages;
    if n == 0 {
    } else {
      FewSetsExact(g, nbMeta, trace, ops, replies, k, n - 1);
      LimitShrinks(g, nbMeta, trace[n - 1].began);
      assert Follows(g, nbMeta, trace[n - 1], ops[n - 1], replies[n - 1], trace[n - 1 + 1]);
    }
  }

  /** The answer of a plain map; a set within a page is accepted if there is `room`. */
  ghost predicate PlainAnswers(g: Geometry, m: Contents, room: bool, op: Op, reply: Reply) {
    match op
    case SetOp(_, _, _, _) => (!Fitting(g, op) ==> reply == Status(-1)) && (Fitting(g, op) && room ==> reply == Status(0))
    case GetOp(key) => reply == if key in m then Value(m[key]) else NotFound
    case DelOp(key) => reply.Status? && if key in m then reply.code >= 0 else reply.code == -2
    case _ => true
  }

  lemma FewSetsAnswer(g: Geometry, nbMeta: nat, trace: seq<Account>, ops: seq<Op>, replies: seq<Reply>, n: nat, i: nat)
    requires Sizes(g, nbMeta) && History(g, nbMeta, trace, ops, replies, n) && i < n
    requires trace[0].used == 0 && Sets(g, ops, i) <= Pages(g, nbMeta)
    ensures PlainAnswers(g, Plain(g, trace[0].m, ops, i), Sets(g, ops, i) + 1 < Pages(g, nbMeta), ops[i], replies[i])
  {
    hide Pages, Plain, Sets, Slack;
    FewSetsExact(g, nbMeta, trace, ops, replies, n, i);
    LimitShrinks(g, nbMeta, trace[i].began);
    assert Follows(g, nbMeta, trace[i], ops[i], replies[i], trace[i + 1]);
  }

  // ----- few keys: a plain map for ever -----

  /** At no time up to n does the plain map have more than `keys` keys. */
  ghost predicate FewKeys(g: Geometry, m: Contents, ops: seq<Op>, n: nat, keys: nat)
    requires n <= |ops|
  {
    forall j: nat :: j <= n ==> |Plain(g, m, ops, j)| <= keys
  }

  /** While pages are left a step is that of a plain map, and what is used stays below the keys and the slack. */
  lemma FewKeysStep(g: Geometry, nbMeta: nat, s: Account, op: Op, reply: Reply, r: Account, keys: nat)
    requires Sizes(g, nbMeta) && Follows(g, nbMeta, s, op, reply, r)
    requires s.used <= keys + Slack(g, nbMeta) < Pages(g, nbMeta) && |PlainStep(g, s.m, op)| <= keys
    ensures r.m == PlainStep(g, s.m, op) && r.used <= keys + Slack(g, nbMeta)
  {
    hide Answers, Pages, Slack, Limit;
    LimitShrinks(g, nbMeta, s.began);
  }

  /**
   However long the run: with few enough keys beside the pages that can be wasted, the store
   never fills up, because collections give back what is overwritten and deleted.
   */
  lemma {:induction false} FewKeysExact(g: Geometry, nbMeta: nat, trace: seq<Account>, ops: seq<Op>, replies: seq<Reply>,
                                        k: nat, n: nat, keys: nat)
    requires Sizes(g, nbMeta) && History(g, nbMeta, trace, ops, replies, k) && n <= k
    requires FewKeys(g, trace[0].m, ops, n, keys) && trace[0].used <= keys + Slack(g, nbMeta) < Pages(g, nbMeta)
    ensures trace[n].m == Plain(g, trace[0].m, ops, n) && trace[n].used <= keys + Slack(g, nbMeta)
  {
    hide Follows, Pages, Slack, PlainStep;
    if n == 0 {
    } else {
      FewKeysExact(g, nbMeta, trace, ops, replies, k, n - 1, keys);
      assert Follows(g, nbMeta, trace[n - 1], ops[n - 1], replies[n - 1], trace[n - 1 + 1]);
      assert |Plain(g, trace[0].m, ops, n)| <= keys;
      FewKeysStep(g, nbMeta, trace[n - 1], ops[n - 1], replies[n - 1], trace[n], keys);
    }
  }

  lemma FewKeysAnswer(g: Geometry, nbMeta: nat, trace: seq<Account>, ops: seq<Op>, replies: seq<Reply>, n: nat, i: nat, keys: nat)
    requires Sizes(g, nbMeta) && History(g, nbMeta, trace, ops, replies, n) && i < n && trace[0].used == 0
    requires FewKeys(g, trace[0].m, ops, i, keys) && keys + Slack(g, nbMeta) + 1 < Pages(g, nbMeta)
    ensures PlainAnswers(g, Plain(g, trace[0].m, ops, i), true, ops[i], replies[i])
  {
    hide Pages, Plain, Slack, FewKeys;
    FewKeysExact(g, nbMeta, trace, ops, replies, n, i, keys);
    LimitShrinks(g, nbMeta, trace[i].began);
    assert Follows(g, nbMeta, trace[i], ops[i], replies[i], trace[i + 1]);
  }

  // ----- runs that no collection can damage -----

  ghost predicate AllSmall(g: Geometry, m: Contents, ops: seq<Op>, n: nat)
    requires n <= |ops|
  {
    Compact(m, g.ppb) && forall j :: 0 <= j < n && Fitting(g, ops[j]) ==> ops[j].rec.Size() <= g.ppb
  }

  /**
   The next operation comes either while the bounded map has wasted too few pages for a
   collection, or after nothing but records that fit into pages_per_block bytes.
   */
  ghost predicate CarefulAt(g: Geometry, nbMeta: nat, s: Account, ops: seq<Op>, i: nat)
    requires Sizes(g, nbMeta) && i < |ops|
  {
    Wasted(IdealAfter(g, nbMeta, s, ops, i + 1)) < INVALID_THRESHOLD || AllSmall(g, s.m, ops, i + 1)
  }

  ghost predicate Careful(g: Geometry, nbMeta: nat, s: Account, ops: seq<Op>)
    requires Sizes(g, nbMeta)
  {
    forall i: nat :: i < |ops| ==> CarefulAt(g, nbMeta, s, ops, i)
  }

  /** The next operation of a careful run is harmless. */
  lemma CarefulHarmless(g: Geometry, nbMeta: nat, c: Cfg, m: Contents, s: Account, now: Account, ops: seq<Op>, i: nat)
    requires Inv(g, c, m) && Sizes(g, nbMeta) && i < |ops| && CarefulAt(g, nbMeta, s, ops, i)
    requires now == AccountOf(c, m, now.began) && (ops[i].SetOp? ==> ops[i].rec.WellFormed() && |ops[i].rec.key| < 128)
    requires Wasted(IdealAfter(g, nbMeta, s, ops, i + 1)) < INVALID_THRESHOLD ==> now == IdealAfter(g, nbMeta, s, ops, i)
    requires AllSmall(g, s.m, ops, i) ==> Compact(m, g.ppb)
    requires c.readOnly <==> now.used == Limit(g, nbMeta, now.began)
    requires now.used <= Limit(g, nbMeta, now.began)
    ensures Sound(g, c) && Harmless(g, c, m, ops[i])
  {
    hide Inv, Sound, SetSafe, GcSafe, Limit, Garbage, Couple.WellFormed;
    InvShape(g, c, m);
    var op := ops[i];
    if Wasted(IdealAfter(g, nbMeta, s, ops, i + 1)) < INVALID_THRESHOLD {
      WasteGrows(g, nbMeta, now, op);
      if op.GcOp? {
        CalmGcSafe(g, c, m);
      } else if Fitting(g, op) && !c.readOnly {
        PutCard(m, op.rec.key, op.rec.val);
        SetSafeIf(g, c, m, op.rec);
      }
    } else {
      assert AllSmall(g, s.m, ops, i);
      if op.GcOp? {
        CompactGcSafe(g, c, m);
      } else if Fitting(g, op) {
        SetSafeIf(g, c, m, op.rec);
      }
    }
  }

  lemma SmallStart(g: Geometry, m: Contents, ops: seq<Op>)
    ensures AllSmall(g, m, ops, 0) ==> Compact(m, g.ppb)
  {
  }

  /** Records within the stride stay records within the stride. */
  lemma SmallStays(g: Geometry, nbMeta: nat, m0: Contents, s: Account, ops: seq<Op>, reply: Reply, r: Account, i: nat)
    requires Sizes(g, nbMeta) && i < |ops| && Follows(g, nbMeta, s, ops[i], reply, r)
    requires AllSmall(g, m0, ops, i) ==> Compact(s.m, g.ppb)
    ensures AllSmall(g, m0, ops, i + 1) ==> Compact(r.m, g.ppb)
  {
    hide Answers, Limit;
    if AllSmall(g, m0, ops, i + 1) {
      assert AllSmall(g, m0, ops, i);
    }
  }

  // ----- filling the store -----

  /** Sets of different keys that fit a page, as many as there are pages, and a get of the last key. */
  ghost predicate Filling(g: Geometry, nbMeta: nat, ops: seq<Op>)
    requires Sizes(g, nbMeta)
  {
    var n := Pages(g, nbMeta);
    && n >= 2 && |ops| == n + 1 && ops[n] == GetOp(if ops[n - 1].SetOp? then ops[n - 1].rec.key else [])
    && (forall i :: 0 <= i < n ==> Fitting(g, ops[i]))
    && (forall i, j :: 0 <= i < j < n && ops[i].SetOp? && ops[j].SetOp? ==> ops[i].rec.key != ops[j].rec.key)
  }

  lemma IdealStores(g: Geometry, nbMeta: nat, s: Account, op: Op)
    requires Sizes(g, nbMeta) && Accepts(g, nbMeta, s, op)
    ensures Ideal(g, nbMeta, s, op) == Account(s.m[op.rec.key := op.rec.val], s.used + 1, true)
  {
  }

  lemma {:induction false} FillingIdeal(g: Geometry, nbMeta: nat, ops: seq<Op>, k: nat)
    requires Sizes(g, nbMeta) && Filling(g, nbMeta, ops) && k <= Pages(g, nbMeta)
    ensures var s := IdealAfter(g, nbMeta, Account(map[], 0, false), ops, k);
            && s.used == k == |s.m| && s.began == (k > 0)
            && (forall key :: key in s.m ==> exists i :: 0 <= i < k && ops[i].SetOp? && ops[i].rec.key == key)
            && (k > 0 ==> ops[k - 1].SetOp? && ops[k - 1].rec.key in s.m && s.m[ops[k - 1].rec.key] == ops[k - 1].rec.val)
  {
    hide Pages, Ideal;
    if k == 0 {
    } else {
      FillingIdeal(g, nbMeta, ops, k - 1);
      var s, rec := IdealAfter(g, nbMeta, Account(map[], 0, false), ops, k - 1), ops[k - 1].rec;
      LimitShrinks(g, nbMeta, s.began);
      assert Fitting(g, ops[k - 1]);
      PutCard(s.m, rec.key, rec.val);
      IdealStores(g, nbMeta, s, ops[k - 1]);
    }
  }

  lemma FillingCareful(g: Geometry, nbMeta: nat, ops: seq<Op>)
    requires Sizes(g, nbMeta) && Filling(g, nbMeta, ops)
    ensures Careful(g, nbMeta, Account(map[], 0, false), ops)
    ensures forall i: nat :: i < |ops| ==> Wasted(IdealAfter(g, nbMeta, Account(map[], 0, false), ops, i)) == 0
  {
    hide Pages, Ideal, Filling;
    assert |ops| == Pages(g, nbMeta) + 1 && ops[|ops| - 1].GetOp? by {
      FillingShape(g, nbMeta, ops);
    }
    var s, n := Account(map[], 0, false), Pages(g, nbMeta);
    forall i: nat | i < |ops|
      ensures Wasted(IdealAfter(g, nbMeta, s, ops, i)) == 0 && CarefulAt(g, nbMeta, s, ops, i)
    {
      FillingIdeal(g, nbMeta, ops, i);
      if i < n {
        FillingIdeal(g, nbMeta, ops, i + 1);
      } else {
        IdealReads(g, nbMeta, IdealAfter(g, nbMeta, s, ops, i), ops[i]);
      }
    }
  }

  lemma FillingShape(g: Geometry, nbMeta: nat, ops: seq<Op>)
    requires Sizes(g, nbMeta) && Filling(g, nbMeta, ops)
    ensures |ops| == Pages(g, nbMeta) + 1 && ops[|ops| - 1].GetOp?
  {
  }

  lemma IdealReads(g: Geometry, nbMeta: nat, s: Account, op: Op)
    requires Sizes(g, nbMeta) && op.GetOp?
    ensures Ideal(g, nbMeta, s, op) == s
  {
  }

  /** Every set is answered 0 but the last, which is answered -3 and stored all the same. */
  lemma FillingAnswers(g: Geometry, nbMeta: nat, ops: seq<Op>, i: nat, reply: Reply)
    requires Sizes(g, nbMeta) && Filling(g, nbMeta, ops) && i < |ops|
    requires Answers(g, nbMeta, IdealAfter(g, nbMeta, Account(map[], 0, false), ops, i), ops[i], reply)
    ensures var n := Pages(g, nbMeta);
            reply == if i + 1 < n then Status(0) else if i + 1 == n then Status(-3) else Value(ops[n - 1].rec.val)
  {
    hide Pages, IdealAfter;
    FillingIdeal(g, nbMeta, ops, i);
    var s := IdealAfter(g, nbMeta, Account(map[], 0, false), ops, i);
    LimitShrinks(g, nbMeta, s.began);
  }

  // ----- wearing out one block with two long records -----

  /** n sets of two keys, each record fitting a page and at least two bytes longer than the stride. */
  ghost predicate TwoLong(g: Geometry, ops: seq<Op>, a: Key, b: Key) {
    && a != b && |ops| >= 2
    && (forall i :: 0 <= i < |ops| ==> Fitting(g, ops[i]) && ops[i].rec.Size() >= g.ppb + 2 && ops[i].rec.key in {a, b})
    && ops[0].SetOp? && ops[0].rec.key == a && ops[1].SetOp? && ops[1].rec.key == b
  }

  ghost predicate AllLong(m: Contents, ppb: nat) {
    forall k :: k in m ==> Couple(k, m[k]).Size() >= ppb + 2
  }

  lemma {:induction false} TwoLongIdeal(g: Geometry, nbMeta: nat, ops: seq<Op>, a: Key, b: Key, n: nat)
    requires Sizes(g, nbMeta) && TwoLong(g, ops, a, b) && n <= |ops| && |ops| <= Pages(g, nbMeta)
    ensures var s := IdealAfter(g, nbMeta, Account(map[], 0, false), ops, n);
            && s.used == n && s.began == (n > 0) && AllLong(s.m, g.ppb)
            && s.m.Keys == (if n == 0 then {} else if n == 1 then {a} else {a, b})
            && s.m == Plain(g, map[], ops, n)
  {
    hide Pages, Ideal;
    if n == 0 {
    } else {
      TwoLongIdeal(g, nbMeta, ops, a, b, n - 1);
      var s := IdealAfter(g, nbMeta, Account(map[], 0, false), ops, n - 1);
      LimitShrinks(g, nbMeta, s.began);
      assert Fitting(g, ops[n - 1]) && ops[n - 1].rec.key in {a, b};
      IdealStores(g, nbMeta, s, ops[n - 1]);
    }
  }
}

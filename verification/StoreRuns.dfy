/** Runs of the store from the first mount: what every run answers, and two runs that show where the code departs. */
module StoreRuns {
  import opened Bytes
  import opened Arithmetic
  import opened Addressing
  import opened ProbeTable
  import opened Record
  import opened Config
  import opened LiveRecords
  import opened LostRecords
  import opened Metadata
  import opened Capacity
  import opened StoreSpec
  import opened FlashStore

  /** The account of a store that has just been formatted. */
  function Empty(): (s: Account) {
    Account(map[], 0, false)
  }

  /**
   Every run from the first mount. However long it is, as long as the keys bound at a time
   leave room for the pages that can be wasted, every set within a page is accepted, and get
   and del are those of a plain map. So they are, whatever the keys, while no more records have
   been set than the data blocks have pages. While fewer pages have been wasted
   than a collection needs, every answer, full store included, is that of the bounded map. And
   at all times the store follows the bounded map, step by step.
   */
  method RunFromFirstMount(g: Geometry, metaSize: nat, ops: seq<Op>) returns (replies: seq<Reply>, ghost trace: seq<Account>)
    requires g.Valid() && NbMetaBlocks(metaSize, g.pageSize, g.ppb) < g.nbBlocks < 0x8000_0000 && 2 * |ops| < INT_MAX
    requires forall i :: 0 <= i < |ops| ==> OpOk(g, metaSize, ops[i])
    requires Sizes(g, NbMetaBlocks(metaSize, g.pageSize, g.ppb))
    requires Careful(g, NbMetaBlocks(metaSize, g.pageSize, g.ppb), Empty(), ops)
    ensures |replies| == |ops| == |trace| - 1 && trace[0] == Empty()
    ensures History(g, NbMetaBlocks(metaSize, g.pageSize, g.ppb), trace, ops, replies, |ops|)
    ensures var nbMeta := NbMetaBlocks(metaSize, g.pageSize, g.ppb);
            forall i: nat :: i < |ops| && Sets(g, ops, i) <= Pages(g, nbMeta) ==>
              PlainAnswers(g, Plain(g, map[], ops, i), Sets(g, ops, i) + 1 < Pages(g, nbMeta), ops[i], replies[i])
    ensures var nbMeta := NbMetaBlocks(metaSize, g.pageSize, g.ppb);
            forall i: nat, keys: nat :: i < |ops| && FewKeys(g, map[], ops, i, keys) && keys + Slack(g, nbMeta) + 1 < Pages(g, nbMeta) ==>
              PlainAnswers(g, Plain(g, map[], ops, i), true, ops[i], replies[i])
    ensures var nbMeta := NbMetaBlocks(metaSize, g.pageSize, g.ppb);
            forall i: nat :: i < |ops| && Wasted(IdealAfter(g, nbMeta, Empty(), ops, i)) < INVALID_THRESHOLD ==>
              Answers(g, nbMeta, IdealAfter(g, nbMeta, Empty(), ops, i), ops[i], replies[i])
  {
    hide OpOk, NbMetaBlocks, MetaInv, Inv, Careful, PlainAnswers, Answers, Plain, IdealAfter, Sets, Wasted, Pages, History, Flushed, FewKeys, Slack;
    var store := new Store(g, metaSize);
    FreshView(store);
    assert WearRoom(store.blocks, 2 * |ops|);
    replies, trace := store.Run(ops);
    ghost var nbMeta := |store.metaOrder|;
    forall i: nat | i < |ops| && Sets(g, ops, i) <= Pages(g, nbMeta)
      ensures PlainAnswers(g, Plain(g, map[], ops, i), Sets(g, ops, i) + 1 < Pages(g, nbMeta), ops[i], replies[i])
    {
      FewSetsAnswer(g, nbMeta, trace, ops, replies, |ops|, i);
    }
    forall i: nat, keys: nat | i < |ops| && FewKeys(g, map[], ops, i, keys) && keys + Slack(g, nbMeta) + 1 < Pages(g, nbMeta)
      ensures PlainAnswers(g, Plain(g, map[], ops, i), true, ops[i], replies[i])
    {
      FewKeysAnswer(g, nbMeta, trace, ops, replies, |ops|, i, keys);
    }
    forall i: nat | i < |ops| && Wasted(IdealAfter(g, nbMeta, Empty(), ops, i)) < INVALID_THRESHOLD
      ensures Answers(g, nbMeta, IdealAfter(g, nbMeta, Empty(), ops, i), ops[i], replies[i])
    {
      CalmExact(g, nbMeta, trace, ops, replies, |ops|, i);
      HistoryAnswer(g, nbMeta, trace, ops, replies, |ops|, i);
    }
  }

  lemma HistoryAnswer(g: Geometry, nbMeta: nat, trace: seq<Account>, ops: seq<Op>, replies: seq<Reply>, n: nat, i: nat)
    requires Sizes(g, nbMeta) && History(g, nbMeta, trace, ops, replies, n) && i < n
    ensures Answers(g, nbMeta, trace[i], ops[i], replies[i])
  {
    assert Follows(g, nbMeta, trace[i], ops[i], replies[i], trace[i + 1]);
  }

  lemma FreshView(store: Store)
    requires store.m == map[] && !Flushed(store.g, store.Snap(), store.metaOrder, store.saved)
    requires forall b :: 0 <= b < |store.blocks| ==> store.blocks[b].nbInvalid == 0
    ensures store.View() == Empty()
  {
    TotalZero(store.blocks, Invalids());
  }

  /**
   Filling the store, for every geometry: sets of different keys are answered 0 until the one
   that takes the last page, which is answered -3 although its value can be read back.
   */
  method FillStore(g: Geometry, metaSize: nat, ops: seq<Op>) returns (replies: seq<Reply>)
    requires g.Valid() && NbMetaBlocks(metaSize, g.pageSize, g.ppb) < g.nbBlocks < 0x8000_0000 && 2 * |ops| < INT_MAX
    requires forall i :: 0 <= i < |ops| ==> OpOk(g, metaSize, ops[i])
    requires Sizes(g, NbMetaBlocks(metaSize, g.pageSize, g.ppb))
    requires Filling(g, NbMetaBlocks(metaSize, g.pageSize, g.ppb), ops)
    ensures var n := Pages(g, NbMetaBlocks(metaSize, g.pageSize, g.ppb));
            && |replies| == n + 1
            && (forall i :: 0 <= i < n - 1 ==> replies[i] == Status(0))
            && replies[n - 1] == Status(-3) && replies[n] == Value(ops[n - 1].rec.val)
  {
    hide OpOk, NbMetaBlocks, Answers, Plain, IdealAfter, Sets, Pages, PlainAnswers, Careful, FewKeys, Slack;
    ghost var nbMeta := NbMetaBlocks(metaSize, g.pageSize, g.ppb);
    FillingCareful(g, nbMeta, ops);
    ghost var trace;
    replies, trace := RunFromFirstMount(g, metaSize, ops);
    forall i: nat | i < |ops|
      ensures replies[i] == if i + 1 < Pages(g, nbMeta) then Status(0)
                            else if i + 1 == Pages(g, nbMeta) then Status(-3) else Value(ops[Pages(g, nbMeta) - 1].rec.val)
    {
      FillingAnswers(g, nbMeta, ops, i, replies[i]);
    }
  }

  /**
   A small instance: one data block of two data pages beside one metadata block. The tables
   take 6 buckets of 168 bytes and 2 block records of 24 bytes.
   */
  method FillSmallest() returns (replies: seq<Reply>)
    ensures replies == [Status(0), Status(-3), Value([66])]
  {
    var g := Geometry(2, 3, 2048, (k: Key) => 0);
    var ram := Ram((b: seq<Blk>, t: seq<Bucket>) => Zeros(1056), (i: nat) => 0);
    var ops := [SetOp(Couple([65], []), ram, 1000000, 0), SetOp(Couple([66], [66]), ram, 1000000, 0), GetOp([66])];
    assert NbMetaPages(1056, 2048) == 1 && NbMetaBlocks(1056, 2048, 3) == 1;
    assert Pages(g, 1) == Off(1, 2) == Off(0, 2) + 2;
    assert OpOk(g, 1056, ops[0]) && OpOk(g, 1056, ops[1]);
    assert ops[0].rec.key[0] != ops[1].rec.key[0];
    assert Filling(g, 1, ops);
    replies := FillStore(g, 1056, ops);
  }

  // ----- a run that loses a record -----

  lemma FreshRoom(blocks: seq<Blk>, room: nat)
    requires room < INT_MAX && forall b :: 0 <= b < |blocks| ==> blocks[b].worn == 0
    ensures WearRoom(blocks, room)
  {
  }

  lemma TwoLongFront(g: Geometry, nbMeta: nat, ops: seq<Op>, last: Op, a: Key, b: Key)
    requires g.Valid() && 1 <= nbMeta && nbMeta + 1 == g.nbBlocks && g.ppb >= 51
    requires |ops| == 49 && TwoLong(g, ops + [last], a, b)
    ensures Sizes(g, nbMeta) && TwoLong(g, ops, a, b) && 49 <= Pages(g, nbMeta) && a != b
    ensures Fitting(g, last) && last.rec.Size() >= g.ppb + 2 && last.rec.key in {a, b}
  {
    OnePage(g, nbMeta);
    var all := ops + [last];
    assert all[49] == last;
    forall i | 0 <= i < 49 ensures all[i] == ops[i] {
    }
  }

  lemma {:induction false} PlainFront(g: Geometry, ops: seq<Op>, last: Op, n: nat)
    requires n <= |ops|
    ensures Plain(g, map[], ops + [last], n) == Plain(g, map[], ops, n)
  {
    if n == 0 {
    } else {
      PlainFront(g, ops, last, n - 1);
    }
  }

  lemma PlainNext(g: Geometry, ops: seq<Op>, last: Op)
    requires |ops| == 49 && Fitting(g, last)
    ensures Plain(g, map[], ops + [last], 50) == Plain(g, map[], ops, 49)[last.rec.key := last.rec.val]
  {
    PlainFront(g, ops, last, 49);
  }

  /** The account after 49 sets of two keys. */
  lemma TwoLongCareful(g: Geometry, nbMeta: nat, ops: seq<Op>, a: Key, b: Key)
    requires Sizes(g, nbMeta) && TwoLong(g, ops, a, b) && |ops| == 49 <= Pages(g, nbMeta)
    ensures Careful(g, nbMeta, Empty(), ops)
    ensures var s := IdealAfter(g, nbMeta, Empty(), ops, 49);
            s.used == 49 && s.began && |s.m| == 2 && Wasted(s) == 47 && s.m.Keys == {a, b} && AllLong(s.m, g.ppb) && s.m == Plain(g, map[], ops, 49)
  {
    hide Pages, IdealAfter, Plain, AllLong;
    forall i: nat | i < 49 ensures CarefulAt(g, nbMeta, Empty(), ops, i) {
      TwoLongIdeal(g, nbMeta, ops, a, b, i + 1);
      TwoKeysCard(IdealAfter(g, nbMeta, Empty(), ops, i + 1).m, a, b, i + 1);
    }
    TwoLongIdeal(g, nbMeta, ops, a, b, 49);
    TwoKeysCard(IdealAfter(g, nbMeta, Empty(), ops, 49).m, a, b, 49);
  }

  lemma TwoKeysCard(m: Contents, a: Key, b: Key, n: nat)
    requires a != b && n >= 1 && m.Keys == if n == 1 then {a} else {a, b}
    ensures |m| == if n == 1 then 1 else 2
  {
    assert |m| == |m.Keys|;
  }

  /**
   For every store with a single data block of at least 51 pages: fifty sets of two keys with
   records longer than the stride, all accepted, end in a collection after which no page of
   the index holds one of the two records.
   */
  method LoseRecord(g: Geometry, metaSize: nat, ops: seq<Op>, last: Op, a: Key, b: Key) returns (store: Store, ghost lost: Couple)
    requires g.Valid() && g.nbBlocks < 0x8000_0000 && g.ppb >= 51
    requires NbMetaBlocks(metaSize, g.pageSize, g.ppb) + 1 == g.nbBlocks
    requires |ops| == 49 && TwoLong(g, ops + [last], a, b)
    requires forall i :: 0 <= i < |ops| ==> OpOk(g, metaSize, ops[i])
    requires OpOk(g, metaSize, last)
    ensures store.Sane() && store.g == g
    ensures store.m == Plain(g, map[], ops + [last], 50)
    ensures lost.key in store.m && store.m[lost.key] == lost.val
    ensures NoneHolds(g, store.Snap(), lost) && !Inv(g, store.Snap(), store.m)
  {
    hide OpOk, NbMetaBlocks, Inv, Sound, Careful, Plain, IdealAfter, Pages, Sizes, TwoLong, MetaInv, AllLong, NoneHolds, WearRoom, Aged;
    store := new Store(g, metaSize);
    assert WearRoom(store.blocks, 100) by {
      FreshRoom(store.blocks, 100);
    }
    ghost var c0 := store.Snap();
    FreshView(store);
    AtLeastOneMeta(metaSize, g.pageSize, g.ppb);
    TwoLongFront(g, |store.metaOrder|, ops, last, a, b);
    TwoLongCareful(g, |store.metaOrder|, ops, a, b);
    RoomLess(store.blocks, 100, 98);
    var replies, trace := store.Run(ops);
    AgedRoomMore(c0, store.Snap(), 98, 2);
    CalmExact(g, |store.metaOrder|, trace, ops, replies, 49, 49);
    PlainNext(g, ops, last);
    lost := store.LastSet(last, a, b);
  }

  /**
   An instance: two blocks of 64 pages of 2048 bytes, whose tables take 128 buckets of 168
   bytes and 2 block records of 24 bytes, and values of 57 letters.
   */
  method LoseConcretely() returns (store: Store, ghost lost: Couple)
    ensures store.g.ppb > 0 && NoneHolds(store.g, store.Snap(), lost)
    ensures lost.key in store.m && store.m[lost.key] == lost.val && !Inv(store.g, store.Snap(), store.m)
  {
    var g := Geometry(2, 64, 2048, (k: Key) => 0);
    var ram := Ram((b: seq<Blk>, t: seq<Bucket>) => Zeros(21552), (i: nat) => 0);
    var a, b := SetOp(Couple([65], seq(57, _ => 67)), ram, 1000000, 0), SetOp(Couple([66], seq(57, _ => 68)), ram, 1000000, 0);
    var ops := seq(49, i => if i % 2 == 0 then a else b);
    assert NbMetaPages(21552, 2048) == 11 && NbMetaBlocks(21552, 2048, 64) == 1;
    assert OpOk(g, 21552, a) && OpOk(g, 21552, b);
    assert a.rec.key[0] != b.rec.key[0];
    assert (ops + [b])[0] == a && (ops + [b])[1] == b;
    assert TwoLong(g, ops + [b], [65], [66]);
    store, lost := LoseRecord(g, 21552, ops, b, [65], [66]);
  }
}

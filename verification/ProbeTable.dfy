/**
 The RAM index: open addressing with linear probing and sticky dirty marks.
 Everything is stated for an arbitrary hash function.
 */
module ProbeTable {
  import opened Bytes

  type Key = seq<byte>

  datatype Bucket = Bucket(valid: bool, dirty: bool, key: Key, index: int)

  type Table = t: seq<Bucket> | |t| > 0 witness [Bucket(false, false, [], 0)]

  function Home(n: nat, hash: Key -> nat, key: Key): (h: nat)
    requires n > 0
    ensures h < n
  {
    hash(key) % n
  }

  /** The slot reached after d probe steps from h. */
  function Slot(n: nat, h: nat, d: nat): (s: nat)
    requires h < n && d < n
    ensures s < n
  {
    if h + d < n then h + d else h + d - n
  }

  /** How many probe steps lead from h to s. */
  function Dist(n: nat, h: nat, s: nat): (d: nat)
    requires h < n && s < n
    ensures d < n && Slot(n, h, d) == s
  {
    if s >= h then s - h else s + n - h
  }

  /** One probe step, (i + 1) % size, moves one slot further along the path. */
  lemma NextSlot(n: nat, h: nat, d: nat)
    requires h < n && d + 1 < n
    ensures (Slot(n, h, d) + 1) % n == Slot(n, h, d + 1)
  {
    var s := Slot(n, h, d);
    if s + 1 == n {
      assert (s + 1) % n == 0;
    } else {
      assert (s + 1) % n == s + 1;
    }
  }

  // ----- hash_search -----

  /** The probe loop from step d on: -1 after size - 1 probes, -2 at a clean slot. */
  function SearchFrom(t: Table, h: nat, key: Key, d: nat): (r: int)
    requires h < |t| && d < |t|
    ensures r < |t| && (r >= 0 ==> t[r].valid && t[r].key == key)
    decreases |t| - d
  {
    if d == |t| - 1 then -1
    else
      var s := Slot(|t|, h, d);
      if t[s].valid && t[s].key == key then s
      else if !t[s].dirty then -2
      else SearchFrom(t, h, key, d + 1)
  }

  function Search(t: Table, hash: Key -> nat, key: Key): (r: int)
    ensures r < |t| && (r >= 0 ==> t[r].valid && t[r].key == key)
  {
    SearchFrom(t, Home(|t|, hash, key), key, 0)
  }

  // ----- hash_add -----

  /** Steps from d on to the first slot that is not valid; |t| when there is none. */
  function FreeDist(t: Table, h: nat, d: nat): (r: nat)
    requires h < |t| && d <= |t|
    ensures d <= r <= |t|
    ensures forall e :: d <= e < r ==> t[Slot(|t|, h, e)].valid
    ensures r < |t| ==> !t[Slot(|t|, h, r)].valid
    decreases |t| - d
  {
    if d == |t| || !t[Slot(|t|, h, d)].valid then d else FreeDist(t, h, d + 1)
  }

  /** Marks the first d slots of the path from h dirty. */
  function MarkPath(t: Table, h: nat, d: nat): (u: Table)
    requires h < |t| && d <= |t|
    ensures |u| == |t|
    ensures forall s :: 0 <= s < |t| ==>
              u[s] == if Dist(|t|, h, s) < d then t[s].(dirty := true) else t[s]
  {
    seq(|t|, s requires 0 <= s < |t| => if Dist(|t|, h, s) < d then t[s].(dirty := true) else t[s])
  }

  lemma MarkNext(t: Table, h: nat, d: nat)
    requires h < |t| && d < |t|
    ensures var u, s := MarkPath(t, h, d), Slot(|t|, h, d);
            MarkPath(t, h, d + 1) == u[s := u[s].(dirty := true)] && u[s].valid == t[s].valid
  {
  }

  lemma MarkNone(t: Table, h: nat)
    requires h < |t|
    ensures MarkPath(t, h, 0) == t
  {
  }

  function AddAt(t: Table, h: nat, key: Key, index: int): (r: (Table, int))
    requires h < |t|
    ensures |r.0| == |t| && r.1 < |t|
  {
    var d := FreeDist(t, h, 0);
    var u := MarkPath(t, h, d);
    if d == |t| then (u, -1)
    else
      var s := Slot(|t|, h, d);
      (u[s := u[s].(valid := true, key := key, index := index)], s)
  }

  function Add(t: Table, hash: Key -> nat, key: Key, index: int): (r: (Table, int))
    ensures |r.0| == |t| && r.1 < |t|
  {
    AddAt(t, Home(|t|, hash, key), key, index)
  }

  function Invalidate(t: Table, s: nat): (u: Table)
    requires s < |t|
  {
    t[s := t[s].(valid := false)]
  }

  // ----- the invariant -----

  /** Slot s can be reached by the search for its own key. */
  ghost predicate Reachable(t: Table, hash: Key -> nat, s: nat)
    requires s < |t|
  {
    var h := Home(|t|, hash, t[s].key);
    && Dist(|t|, h, s) <= |t| - 2
    && forall d :: 0 <= d < Dist(|t|, h, s) ==> t[Slot(|t|, h, d)].dirty
  }

  ghost predicate TableInv(t: Table, hash: Key -> nat) {
    && (forall s :: 0 <= s < |t| && t[s].valid ==> Reachable(t, hash, s))
    && (forall s, s' :: 0 <= s < |t| && 0 <= s' < |t| && t[s].valid && t[s'].valid && t[s].key == t[s'].key ==> s == s')
  }

  ghost function LiveKeys(t: Table): set<Key> {
    set s | 0 <= s < |t| && t[s].valid :: t[s].key
  }

  /** Two slots are free: what hash_add needs so that the key can be found again. */
  ghost predicate TwoFree(t: Table) {
    exists a, b :: 0 <= a < b < |t| && !t[a].valid && !t[b].valid
  }

  // ----- search is exact -----

  lemma {:induction false} SearchFromFinds(t: Table, hash: Key -> nat, s: nat, d: nat)
    requires TableInv(t, hash) && s < |t| && t[s].valid
    requires d <= Dist(|t|, Home(|t|, hash, t[s].key), s)
    ensures SearchFrom(t, Home(|t|, hash, t[s].key), t[s].key, d) == s
    decreases |t| - d
  {
    var h := Home(|t|, hash, t[s].key);
    assert Reachable(t, hash, s);
    if d == Dist(|t|, h, s) {
    } else {
      assert Slot(|t|, h, d) != s;
      SearchFromFinds(t, hash, s, d + 1);
    }
  }

  lemma {:induction false} SearchFromMisses(t: Table, h: nat, key: Key, d: nat)
    requires h < |t| && d < |t|
    requires key !in LiveKeys(t)
    ensures SearchFrom(t, h, key, d) < 0
    decreases |t| - d
  {
    if d == |t| - 1 {
    } else {
      assert !(t[Slot(|t|, h, d)].valid && t[Slot(|t|, h, d)].key == key);
      SearchFromMisses(t, h, key, d + 1);
    }
  }

  /** hash_search finds a key iff it is valid, and then returns its one slot. */
  lemma SearchExact(t: Table, hash: Key -> nat, key: Key)
    requires TableInv(t, hash)
    ensures Search(t, hash, key) >= 0 <==> key in LiveKeys(t)
    ensures forall s :: 0 <= s < |t| && t[s].valid && t[s].key == key ==> Search(t, hash, key) == s
  {
    if key in LiveKeys(t) {
      var s :| 0 <= s < |t| && t[s].valid && t[s].key == key;
      SearchFromFinds(t, hash, s, 0);
    } else {
      SearchFromMisses(t, Home(|t|, hash, key), key, 0);
    }
  }

  /** Which miss it is: -2 when a clean slot comes up among the slots that are looked at, -1 when none does. */
  lemma {:induction false} MissCode(t: Table, h: nat, key: Key, d: nat)
    requires h < |t| && d < |t| && SearchFrom(t, h, key, d) < 0
    ensures SearchFrom(t, h, key, d) == if exists e :: d <= e < |t| - 1 && !t[Slot(|t|, h, e)].dirty then -2 else -1
    decreases |t| - d
  {
    if d == |t| - 1 {
    } else if t[Slot(|t|, h, d)].dirty {
      MissCode(t, h, key, d + 1);
    }
  }

  /** Probing starts at hash(key) modulo the size: a key in that slot is found there, and a free slot there is taken. */
  lemma ProbeStarts(t: Table, hash: Key -> nat, key: Key, index: int)
    ensures var h := hash(key) % |t|;
            && (|t| > 1 && t[h].valid && t[h].key == key ==> Search(t, hash, key) == h)
            && (!t[h].valid ==> Add(t, hash, key, index) == (t[h := t[h].(valid := true, key := key, index := index)], h))
  {
    var h := hash(key) % |t|;
    assert Slot(|t|, h, 0) == h;
    if !t[h].valid {
      assert FreeDist(t, h, 0) == 0;
      MarkNone(t, h);
    }
  }

  /** An add fails iff no slot is free; else it marks exactly the valid slots that it passes. */
  lemma AddExact(t: Table, hash: Key -> nat, key: Key, index: int)
    ensures var (u, s) := Add(t, hash, key, index);
            var h := Home(|t|, hash, key);
            && (s == -1 <==> forall i :: 0 <= i < |t| ==> t[i].valid)
            && (s >= 0 ==> !t[s].valid && forall i :: 0 <= i < |t| && Dist(|t|, h, i) < Dist(|t|, h, s) ==> t[i].valid)
            && (forall i :: 0 <= i < |t| ==>
                  (u[i].dirty <==> t[i].dirty || s == -1 || Dist(|t|, h, i) < Dist(|t|, h, s)))
  {
    var h, d := Home(|t|, hash, key), FreeDist(t, Home(|t|, hash, key), 0);
    forall i | 0 <= i < |t| && Dist(|t|, h, i) < d ensures t[i].valid {
      assert t[Slot(|t|, h, Dist(|t|, h, i))].valid;
    }
    assert d < |t| ==> Dist(|t|, h, Slot(|t|, h, d)) == d;
  }

  // ----- what add and invalidate keep -----

  lemma FreeWithin(t: Table, h: nat)
    requires h < |t| && TwoFree(t)
    ensures FreeDist(t, h, 0) <= |t| - 2
  {
    var a, b :| 0 <= a < b < |t| && !t[a].valid && !t[b].valid;
    assert Dist(|t|, h, a) != Dist(|t|, h, b);
    var e := if Dist(|t|, h, a) < Dist(|t|, h, b) then Dist(|t|, h, a) else Dist(|t|, h, b);
    assert !t[Slot(|t|, h, e)].valid;
  }

  /** u is t with one more valid slot s; dirty marks may have been added. */
  ghost predicate Extends(t: Table, u: Table, s: nat) {
    && |u| == |t| && s < |t| && !t[s].valid && u[s].valid
    && (forall i :: 0 <= i < |t| ==> t[i].dirty ==> u[i].dirty)
    && (forall i :: 0 <= i < |t| && i != s ==>
          u[i].valid == t[i].valid && u[i].key == t[i].key && u[i].index == t[i].index)
  }

  lemma AddExtends(t: Table, hash: Key -> nat, key: Key, index: int)
    requires TwoFree(t)
    ensures var (u, s) := Add(t, hash, key, index);
            && 0 <= s && Extends(t, u, s)
            && u[s].key == key && u[s].index == index
            && Reachable(u, hash, s)
  {
    FreeWithin(t, Home(|t|, hash, key));
  }

  lemma ExtendsKeeps(t: Table, hash: Key -> nat, u: Table, s: nat)
    requires TableInv(t, hash) && Extends(t, u, s)
    requires u[s].key !in LiveKeys(t) && Reachable(u, hash, s)
    ensures TableInv(u, hash)
  {
    forall i | 0 <= i < |t| && u[i].valid
      ensures Reachable(u, hash, i)
    {
      if i != s {
        assert Reachable(t, hash, i);
      }
    }
    forall i, j | 0 <= i < |t| && 0 <= j < |t| && u[i].valid && u[j].valid && u[i].key == u[j].key
      ensures i == j
    {
      if i != s {
        assert t[i].key in LiveKeys(t);
      }
      if j != s {
        assert t[j].key in LiveKeys(t);
      }
    }
  }

  lemma ExtendsKeys(t: Table, u: Table, s: nat)
    requires Extends(t, u, s)
    ensures LiveKeys(u) == LiveKeys(t) + {u[s].key}
  {
    forall k | k in LiveKeys(t) + {u[s].key} ensures k in LiveKeys(u) {
      if k != u[s].key {
        var i :| 0 <= i < |t| && t[i].valid && t[i].key == k;
        assert u[i].valid && u[i].key == k;
      }
    }
  }

  /** Adding a key that is not indexed stores it in one free slot and keeps the invariant. */
  lemma AddKeeps(t: Table, hash: Key -> nat, key: Key, index: int)
    requires TableInv(t, hash) && key !in LiveKeys(t) && TwoFree(t)
    ensures var (u, s) := Add(t, hash, key, index);
            && 0 <= s && Extends(t, u, s)
            && u[s].key == key && u[s].index == index
            && TableInv(u, hash)
            && LiveKeys(u) == LiveKeys(t) + {key}
  {
    var (u, s) := Add(t, hash, key, index);
    AddExtends(t, hash, key, index);
    ExtendsKeeps(t, hash, u, s);
    ExtendsKeys(t, u, s);
  }

  lemma InvalidateKeeps(t: Table, hash: Key -> nat, s: nat)
    requires TableInv(t, hash) && s < |t| && t[s].valid
    ensures TableInv(Invalidate(t, s), hash)
    ensures LiveKeys(Invalidate(t, s)) == LiveKeys(t) - {t[s].key}
  {
    var u := Invalidate(t, s);
    forall i | 0 <= i < |t| && u[i].valid
      ensures Reachable(u, hash, i)
    {
      assert Reachable(t, hash, i);
    }
    forall k | k in LiveKeys(t) - {t[s].key} ensures k in LiveKeys(u) {
      var i :| 0 <= i < |t| && t[i].valid && t[i].key == k;
      assert u[i].valid && u[i].key == k;
    }
  }

  // ----- the exact limit of the size - 1 probe bound -----

  /**
   Without the two free slots an add can still succeed and yet hide its key: after a
   successful add the key is found iff some slot other than the last of its path was free.
   */
  lemma AddFoundIff(t: Table, hash: Key -> nat, key: Key, index: int)
    requires TableInv(t, hash) && key !in LiveKeys(t)
    requires Add(t, hash, key, index).1 >= 0
    ensures var h := Home(|t|, hash, key);
            Search(Add(t, hash, key, index).0, hash, key) >= 0
            <==> exists d :: 0 <= d < |t| - 1 && !t[Slot(|t|, h, d)].valid
  {
    var n, h := |t|, Home(|t|, hash, key);
    var (u, s) := Add(t, hash, key, index);
    var f := FreeDist(t, h, 0);
    if exists d :: 0 <= d < n - 1 && !t[Slot(n, h, d)].valid {
      SearchFromReaches(u, h, key, f, 0);
    } else {
      assert f == n - 1;
      forall d | 0 <= d < n - 1
        ensures !(u[Slot(n, h, d)].valid && u[Slot(n, h, d)].key == key)
      {
        assert t[Slot(n, h, d)].key in LiveKeys(t);
        assert Slot(n, h, d) != s;
      }
      SearchFromBlind(u, h, key, 0);
    }
  }

  lemma {:induction false} SearchFromReaches(t: Table, h: nat, key: Key, f: nat, d: nat)
    requires h < |t| && d <= f < |t| - 1
    requires t[Slot(|t|, h, f)].valid && t[Slot(|t|, h, f)].key == key
    requires forall e :: 0 <= e < f ==> t[Slot(|t|, h, e)].dirty
    ensures SearchFrom(t, h, key, d) >= 0
    decreases |t| - d
  {
    if d == f {
    } else {
      SearchFromReaches(t, h, key, f, d + 1);
    }
  }

  lemma {:induction false} SearchFromBlind(t: Table, h: nat, key: Key, d: nat)
    requires h < |t| && d < |t|
    requires forall e :: 0 <= e < |t| - 1 ==> !(t[Slot(|t|, h, e)].valid && t[Slot(|t|, h, e)].key == key)
    ensures SearchFrom(t, h, key, d) < 0
    decreases |t| - d
  {
    if d == |t| - 1 {
    } else {
      SearchFromBlind(t, h, key, d + 1);
    }
  }

  /** A full-but-one table of two slots: the add succeeds and the search cannot see the key. */
  lemma AddHidesKey()
    ensures var t: Table := [Bucket(true, true, [1], 0), Bucket(false, false, [], 0)];
            var hash := (k: Key) => 0;
            && TableInv(t, hash)
            && Add(t, hash, [2], 7).1 == 1
            && Search(Add(t, hash, [2], 7).0, hash, [2]) < 0
  {
    var t: Table := [Bucket(true, true, [1], 0), Bucket(false, false, [], 0)];
    var hash := (k: Key) => 0;
    assert Reachable(t, hash, 0);
    assert FreeDist(t, 0, 0) == 1;
    var u := Add(t, hash, [2], 7).0;
    assert u[0].key == [1] && u[0].key[0] == 1;
    assert SearchFrom(u, 0, [2], 1) == -1;
  }

  // ----- every interleaving of adds and invalidations -----

  datatype TableOp = AddKey(key: Key, index: int) | Drop(key: Key)

  /** Sets look the key up, drop the slot that holds it, and add it again. */
  function Step(t: Table, hash: Key -> nat, op: TableOp): (u: Table)
    ensures |u| == |t|
  {
    var s := Search(t, hash, op.key);
    var t' := if s >= 0 then Invalidate(t, s) else t;
    match op
    case AddKey(key, index) => Add(t', hash, key, index).0
    case Drop(_) => t'
  }

  /** The keys that a plain set would hold after the same operations. */
  ghost function KeysAfter(ops: seq<TableOp>): set<Key> {
    if ops == [] then {}
    else
      var rest := KeysAfter(ops[..|ops| - 1]);
      match ops[|ops| - 1]
      case AddKey(key, _) => rest + {key}
      case Drop(key) => rest - {key}
  }

  function After(t: Table, hash: Key -> nat, ops: seq<TableOp>): (u: Table)
    ensures |u| == |t|
  {
    if ops == [] then t else Step(After(t, hash, ops[..|ops| - 1]), hash, ops[|ops| - 1])
  }

  /** Before every add a plain set would hold at least two keys fewer than there are slots, the added one not counted. */
  ghost predicate RoomThroughout(size: nat, ops: seq<TableOp>) {
    forall i :: 0 <= i < |ops| && ops[i].AddKey? ==> |KeysAfter(ops[..i]) - {ops[i].key}| + 2 <= size
  }

  lemma RoomBefore(size: nat, ops: seq<TableOp>)
    requires ops != [] && RoomThroughout(size, ops)
    ensures var n := |ops| - 1;
            && RoomThroughout(size, ops[..n])
            && (ops[n].AddKey? ==> |KeysAfter(ops[..n]) - {ops[n].key}| + 2 <= size)
  {
    hide KeysAfter;
    var n := |ops| - 1;
    forall i | 0 <= i < n ensures ops[..n][..i] == ops[..i] {
    }
  }

  lemma {:induction false} RunKeys(t: Table, hash: Key -> nat, ops: seq<TableOp>)
    requires forall s :: 0 <= s < |t| ==> !t[s].valid && !t[s].dirty
    requires RoomThroughout(|t|, ops)
    ensures TableInv(After(t, hash, ops), hash) && LiveKeys(After(t, hash, ops)) == KeysAfter(ops)
    decreases |ops|
  {
    if ops == [] {
    } else {
      hide Step, TableInv, LiveKeys, RoomThroughout;
      var n := |ops| - 1;
      RoomBefore(|t|, ops);
      RunKeys(t, hash, ops[..n]);
      StepExact(After(t, hash, ops[..n]), hash, ops[n]);
    }
  }

  /** Every interleaving of adds and drops: search finds exactly the keys that a plain set would hold. */
  lemma RunExact(t: Table, hash: Key -> nat, ops: seq<TableOp>)
    requires forall s :: 0 <= s < |t| ==> !t[s].valid && !t[s].dirty
    requires RoomThroughout(|t|, ops)
    ensures var u := After(t, hash, ops);
            && TableInv(u, hash)
            && LiveKeys(u) == KeysAfter(ops)
            && forall key :: Search(u, hash, key) >= 0 <==> key in KeysAfter(ops)
  {
    hide Search, TableInv, LiveKeys, After, KeysAfter;
    RunKeys(t, hash, ops);
    forall key ensures Search(After(t, hash, ops), hash, key) >= 0 <==> key in KeysAfter(ops) {
      SearchExact(After(t, hash, ops), hash, key);
    }
  }

  /** One operation changes the set of live keys as it would change a plain set. */
  lemma StepExact(t: Table, hash: Key -> nat, op: TableOp)
    requires TableInv(t, hash) && (op.AddKey? ==> |LiveKeys(t) - {op.key}| + 2 <= |t|)
    ensures var u := Step(t, hash, op);
            && TableInv(u, hash)
            && LiveKeys(u) == if op.AddKey? then LiveKeys(t) + {op.key} else LiveKeys(t) - {op.key}
  {
    hide Search, Add, Reachable;
    SearchExact(t, hash, op.key);
    var s := Search(t, hash, op.key);
    if s >= 0 {
      InvalidateKeeps(t, hash, s);
    }
    var v := if s >= 0 then Invalidate(t, s) else t;
    assert LiveKeys(v) == LiveKeys(t) - {op.key};
    match op
    case AddKey(key, index) =>
      FewKeysRoom(v, hash);
      AddKeeps(v, hash, key, index);
    case Drop(_) =>
  }

  // ----- counting slots -----

  ghost function Below(n: nat): (r: set<nat>)
    ensures |r| == n && forall x: nat :: x in r <==> x < n
  {
    if n == 0 then {} else Below(n - 1) + {n - 1}
  }

  lemma TwoOutside(t: Table, valid: set<nat>)
    requires forall s: nat :: s in valid <==> s < |t| && t[s].valid
    requires |valid| + 2 <= |t|
    ensures TwoFree(t)
  {
    var free := Below(|t|) - valid;
    assert valid <= Below(|t|);
    assert |free| == |t| - |valid|;
    var x :| x in free;
    assert |free - {x}| == |free| - 1;
    var y :| y in free - {x};
    if x < y {
      assert 0 <= x < y < |t| && !t[x].valid && !t[y].valid;
    } else {
      assert 0 <= y < x < |t| && !t[y].valid && !t[x].valid;
    }
  }

  /** Valid slots have distinct keys: no more slots than keys. */
  lemma {:induction false} KeyCard(slots: set<nat>, t: Table, keys: set<Key>)
    requires forall s :: s in slots ==> s < |t| && t[s].key in keys
    requires forall s, s' :: s in slots && s' in slots && s != s' ==> t[s].key != t[s'].key
    ensures |slots| <= |keys|
    decreases |slots|
  {
    if slots == {} {
    } else {
      var s :| s in slots;
      KeyCard(slots - {s}, t, keys - {t[s].key});
    }
  }

  /** A table with at least two slots more than live keys has two free slots. */
  lemma FewKeysRoom(t: Table, hash: Key -> nat)
    requires TableInv(t, hash) && |LiveKeys(t)| + 2 <= |t|
    ensures TwoFree(t)
  {
    hide Reachable;
    var valid := set s | s in Below(|t|) && t[s].valid;
    KeyCard(valid, t, LiveKeys(t));
    TwoOutside(t, valid);
  }
}

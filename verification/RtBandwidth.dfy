/**
 Hierarchical admission of real-time bandwidth: every change is checked by walking the
 whole task-group tree, and the global limit can be changed only when the tree still fits.
 */
module RtBandwidth {
  import opened Wrappers
  import opened Arithmetic
  import opened GroupWalk

  const RUNTIME_INF := U64 - 1
  const NSEC_PER_USEC := 1000
  const EINVAL := 22
  const EBUSY := 16

  /** What the walk ends with when the visitor divides by a zero global period: the CPU traps. */
  const TRAP := 1

  datatype RawBw = Bw(period: nat, runtime: nat)

  /** Period and runtime in nanoseconds, as the u64 values of struct rt_bandwidth; a period is never 0. */
  type Bandwidth = b: RawBw | 0 < b.period < U64 && b.runtime < U64 witness Bw(1, 0)

  type Tg = Group<Bandwidth>

  /** runtime << 20 is computed in 64 bits. */
  function ToRatio(bw: Bandwidth): (r: nat) {
    if bw.runtime == RUNTIME_INF then 0x10_0000 else (bw.runtime * 0x10_0000 % U64) / bw.period
  }

  /** The computed ratio is the true one, rounded down, exactly for runtimes below 2^44 ns (about 4.9 hours). */
  lemma ToRatioExactIff(bw: Bandwidth)
    requires bw.runtime != RUNTIME_INF
    ensures ToRatio(bw) == bw.runtime * 0x10_0000 / bw.period <==> bw.runtime < 0x1000_0000_0000
  {
    var x, p := bw.runtime * 0x10_0000, bw.period;
    if x >= U64 {
      var w := x % U64;
      assert w + U64 <= x;
      QuotientGap(w, x, p);
    } else {
      assert x % U64 == x;
    }
  }

  /** No limit counts as the whole; everything else as the quotient, rounded down, of the shifted runtime in 64 bits. */
  lemma ToRatioValue(bw: Bandwidth)
    ensures bw.runtime == 0xFFFF_FFFF_FFFF_FFFF ==> ToRatio(bw) == 0x10_0000
    ensures bw.runtime != RUNTIME_INF ==>
              ToRatio(bw) * bw.period <= bw.runtime * 0x10_0000 % U64 < (ToRatio(bw) + 1) * bw.period
  {
    if bw.runtime != RUNTIME_INF {
      var x, p := bw.runtime * 0x10_0000 % U64, bw.period;
      QuotientBelow(x, p);
      assert x == p * (x / p) + x % p;
    }
  }

  /** A group that asks for its whole period of 17592186045 us is accounted as asking for nothing. */
  lemma ToRatioWraps()
    ensures ToRatio(Bw(17592186045 * NSEC_PER_USEC, 17592186045 * NSEC_PER_USEC)) == 0
  {
  }

  // ----- the constraint on the whole tree -----

  function SumRatios(kids: seq<Tg>, k: nat): (n: nat)
    requires k <= |kids|
    decreases |kids| - k
  {
    if k == |kids| then 0 else ToRatio(kids[k].data) + SumRatios(kids, k + 1)
  }

  /** Every group has at least the sum of its children's ratios. */
  ghost predicate Nested(t: Tg) {
    && (t.data.runtime <= t.data.period || t.data.runtime == RUNTIME_INF)
    && SumRatios(t.kids, 0) <= ToRatio(t.data)
    && forall i :: 0 <= i < |t.kids| ==> Nested(t.kids[i])
  }

  /** Moreover every group has at most the global ratio. */
  ghost predicate Fits(t: Tg, limit: nat) {
    && (t.data.runtime <= t.data.period || t.data.runtime == RUNTIME_INF)
    && ToRatio(t.data) <= limit
    && SumRatios(t.kids, 0) <= ToRatio(t.data)
    && forall i :: 0 <= i < |t.kids| ==> Fits(t.kids[i], limit)
  }

  lemma {:induction false} KidWithinSum(kids: seq<Tg>, k: nat, i: nat)
    requires k <= i < |kids|
    ensures ToRatio(kids[i].data) <= SumRatios(kids, k)
    decreases i - k
  {
    if k == i {
    } else {
      KidWithinSum(kids, k + 1, i);
    }
  }

  /** A nested tree is within the limit iff its root is: only the root can exceed it. */
  lemma {:induction false} FitsIff(t: Tg, limit: nat)
    ensures Fits(t, limit) <==> Nested(t) && ToRatio(t.data) <= limit
  {
    hide ToRatio, SumRatios;
    forall i | 0 <= i < |t.kids|
      ensures ToRatio(t.kids[i].data) <= SumRatios(t.kids, 0) && (Fits(t.kids[i], limit) <==> Nested(t.kids[i]) && ToRatio(t.kids[i].data) <= limit)
    {
      KidWithinSum(t.kids, 0, i);
      FitsIff(t.kids[i], limit);
    }
  }

  function SumLeaves(t: Tg): (n: nat)
    decreases t, |t.kids| + 1
  {
    if t.kids == [] then ToRatio(t.data) else SumLeavesFrom(t, 0)
  }

  function SumLeavesFrom(t: Tg, k: nat): (n: nat)
    requires k <= |t.kids|
    decreases t, |t.kids| - k
  {
    if k == |t.kids| then 0 else SumLeaves(t.kids[k]) + SumLeavesFrom(t, k + 1)
  }

  /** Hence all leaves together never have more than their root. */
  lemma {:induction false} LeavesWithinRoot(t: Tg)
    requires Nested(t)
    ensures SumLeaves(t) <= ToRatio(t.data)
    decreases t, |t.kids| + 1
  {
    if t.kids == [] {
    } else {
      LeavesFrom(t, 0);
    }
  }

  lemma {:induction false} LeavesFrom(t: Tg, k: nat)
    requires Nested(t) && k <= |t.kids|
    ensures SumLeavesFrom(t, k) <= SumRatios(t.kids, k)
    decreases t, |t.kids| - k
  {
    if k == |t.kids| {
    } else {
      LeavesWithinRoot(t.kids[k]);
      LeavesFrom(t, k + 1);
    }
  }

  /** The sum of the children's ratios, piece by piece. */
  lemma {:induction false} SumAdditive(a: seq<Tg>, b: seq<Tg>)
    ensures SumRatios(a + b, 0) == SumRatios(a, 0) + SumRatios(b, 0)
    ensures forall t: Tg :: SumRatios([t], 0) == ToRatio(t.data)
  {
    if a == [] {
      assert a + b == b;
    } else {
      SumAdditive(a[1..], b);
      assert a + b == [a[0]] + (a[1..] + b) && a == [a[0]] + a[1..];
      SumShift(a[0], a[1..] + b, 0);
      SumShift(a[0], a[1..], 0);
    }
    forall t: Tg ensures SumRatios([t], 0) == ToRatio(t.data) {
      assert SumRatios([t], 1) == 0;
    }
  }

  /** No leaf has more than all leaves together. */
  lemma {:induction false} LeafWithin(t: Tg, path: Path)
    requires IsPath(t, path) && At(t, path).kids == []
    ensures ToRatio(At(t, path).data) <= SumLeaves(t)
    decreases t
  {
    hide ToRatio;
    if path == [] {
    } else {
      LeafWithin(t.kids[path[0]], path[1..]);
      LeavesSome(t, 0, path[0]);
    }
  }

  lemma {:induction false} LeavesSome(t: Tg, k: nat, i: nat)
    requires k <= i < |t.kids|
    ensures SumLeaves(t.kids[i]) <= SumLeavesFrom(t, k)
    decreases i - k
  {
    if k == i {
    } else {
      LeavesSome(t, k + 1, i);
    }
  }

  /** No group has more than any group above it. */
  lemma {:induction false} AboveHasMore(t: Tg, path: Path, n: nat)
    requires Nested(t) && IsPath(t, path) && n <= |path|
    ensures IsPath(t, path[..n]) && ToRatio(At(t, path).data) <= ToRatio(At(t, path[..n]).data)
    decreases t
  {
    hide ToRatio;
    if path == [] {
      assert path[..n] == path;
    } else if n == 0 {
      assert path[..0] == [];
      AboveHasMore(t.kids[path[0]], path[1..], 0);
      assert path[1..][..0] == [];
      KidWithinSum(t.kids, 0, path[0]);
    } else {
      AboveHasMore(t.kids[path[0]], path[1..], n - 1);
      assert path[..n][1..] == path[1..][..n - 1] && path[..n][0] == path[0];
    }
  }

  // ----- tg_schedulable -----

  /** A change that is being tried out: a group, its new values, the global limit (none when its period is 0) and the RT tasks. */
  datatype Trial = Trial(target: Option<Path>, asked: Bandwidth, limit: Option<nat>, enabled: bool, hasRtTasks: Path -> bool)

  function Tried(t: Tg, path: Path, d: Trial): (bw: Bandwidth) {
    if d.target == Some(path) then d.asked else t.data
  }

  function SumTried(kids: seq<Tg>, path: Path, k: nat, d: Trial): (n: nat)
    requires k <= |kids|
    decreases |kids| - k
  {
    if k == |kids| then 0 else ToRatio(Tried(kids[k], path + [k], d)) + SumTried(kids, path, k + 1, d)
  }

  /** The visitor: 0, or the error of the first constraint that the group breaks. */
  function TgSchedulable(t: Tg, path: Path, d: Trial): (err: int) {
    var bw := Tried(t, path, d);
    if bw.runtime > bw.period && bw.runtime != RUNTIME_INF then -EINVAL
    else if d.enabled && bw.runtime == 0 && d.hasRtTasks(path) then -EBUSY
    else
      var total := ToRatio(bw);
      if d.limit.None? then TRAP
      else if total > d.limit.value then -EINVAL
      else if SumTried(t.kids, path, 0, d) > total then -EINVAL
      else 0
  }

  /** Which error it is: EINVAL for a runtime above the period, EBUSY for RT tasks without runtime, else EINVAL for too large a share. */
  lemma VisitorCodes(t: Tg, path: Path, d: Trial)
    ensures var bw, err := Tried(t, path, d), TgSchedulable(t, path, d);
            var tooLong, starved := bw.runtime > bw.period && bw.runtime != RUNTIME_INF, d.enabled && bw.runtime == 0 && d.hasRtTasks(path);
            var tooMuch := d.limit.Some? && (ToRatio(bw) > d.limit.value || SumTried(t.kids, path, 0, d) > ToRatio(bw));
            && (err == -22 <==> tooLong || (!starved && tooMuch))
            && (err == -16 <==> !tooLong && starved)
            && (err == TRAP <==> !tooLong && !starved && d.limit.None?)
            && err in {0, -22, -16, TRAP}
  {
  }

  function Checker(root: Tg, d: Trial): (f: Path -> int) {
    (path: Path) => if IsPath(root, path) then TgSchedulable(At(root, path), path, d) else 0
  }

  /** All groups of the subtree at path pass the visitor. */
  ghost predicate AllPass(t: Tg, path: Path, f: Path -> int) {
    f(path) == 0 && forall k :: 0 <= k < |t.kids| ==> AllPass(t.kids[k], path + [k], f)
  }

  function Nop(): Visitor<()> {
    (s: (), p: Path) => ((), 0)
  }

  function Check(f: Path -> int): Visitor<()> {
    (s: (), p: Path) => ((), f(p))
  }

  /** The walk returns 0 iff every group passes. */
  lemma {:induction false} WalkZeroIff(t: Tg, path: Path, f: Path -> int)
    ensures Traverse(t, path, Check(f), Nop(), ()).1 == 0 <==> AllPass(t, path, f)
    decreases t, |t.kids| + 1
  {
    KidsZeroIff(t, 0, path, f);
  }

  lemma {:induction false} KidsZeroIff(t: Tg, k: nat, path: Path, f: Path -> int)
    requires k <= |t.kids|
    ensures TraverseKids(t, k, path, Check(f), Nop(), ()).1 == 0
            <==> forall i :: k <= i < |t.kids| ==> AllPass(t.kids[i], path + [i], f)
    decreases t, |t.kids| - k
  {
    if k == |t.kids| {
    } else {
      WalkZeroIff(t.kids[k], path + [k], f);
      KidsZeroIff(t, k + 1, path, f);
    }
  }

  function OnlyDown(f: Path -> int): (g: Visit -> int) {
    (v: Visit) => if v.Down? then f(v.path) else 0
  }

  /** The error of the walk is that of the first group, in the order of the walk, that does not pass. */
  lemma {:induction false} WalkFirstError(t: Tg, path: Path, f: Path -> int)
    ensures Traverse(t, path, Check(f), Nop(), ()).1 == Cut(PrePost(t, path), OnlyDown(f)).1
    decreases t, |t.kids| + 1
  {
    var d, kids, u := [Down(path)], PrePostKids(t, 0, path), [Up(path)];
    CutAppend(d + kids, u, OnlyDown(f));
    CutAppend(d, kids, OnlyDown(f));
    CutOne(Up(path), OnlyDown(f));
    CutOne(Down(path), OnlyDown(f));
    KidsFirstError(t, 0, path, f);
  }

  lemma {:induction false} KidsFirstError(t: Tg, k: nat, path: Path, f: Path -> int)
    requires k <= |t.kids|
    ensures TraverseKids(t, k, path, Check(f), Nop(), ()).1 == Cut(PrePostKids(t, k, path), OnlyDown(f)).1
    decreases t, |t.kids| - k
  {
    if k == |t.kids| {
    } else {
      CutAppend(PrePost(t.kids[k], path + [k]), PrePostKids(t, k + 1, path), OnlyDown(f));
      WalkFirstError(t.kids[k], path + [k], f);
      KidsFirstError(t, k + 1, path, f);
    }
  }

  // ----- the tree that the trial stands for -----

  function Update(t: Tg, path: Path, bw: Bandwidth): (r: Tg)
    requires IsPath(t, path)
  {
    if path == [] then t.(data := bw)
    else t.(kids := t.kids[path[0] := Update(t.kids[path[0]], path[1..], bw)])
  }

  /** An update changes the values of that group and of no other, and the shape not at all. */
  lemma {:induction false} UpdateAt(t: Tg, path: Path, bw: Bandwidth, q: Path)
    requires IsPath(t, path)
    ensures IsPath(Update(t, path, bw), q) <==> IsPath(t, q)
    ensures IsPath(t, q) ==> At(Update(t, path, bw), q).data == if q == path then bw else At(t, q).data
    ensures IsPath(t, q) ==> |At(Update(t, path, bw), q).kids| == |At(t, q).kids|
  {
    if path == [] || q == [] {
      if path == [] && q != [] {
        assert Update(t, path, bw).kids == t.kids;
      }
    } else if q[0] == path[0] {
      UpdateAt(t.kids[path[0]], path[1..], bw, q[1..]);
      assert q == [q[0]] + q[1..] && path == [path[0]] + path[1..];
    }
  }

  /** A group without limit is refused below any group, and under any limit, of less than the whole. */
  lemma UnlimitedRefused(root: Tg, path: Path, period: nat, limit: nat, n: nat)
    requires IsPath(root, path) && 0 < period < U64 && n <= |path|
    requires limit < 0x10_0000 || (n < |path| && IsPath(root, path[..n]) && ToRatio(At(root, path[..n]).data) < 0x10_0000)
    ensures !Fits(Update(root, path, Bw(period, RUNTIME_INF)), limit)
  {
    var bw: Bandwidth := Bw(period, RUNTIME_INF);
    var u := Update(root, path, bw);
    ToRatioValue(bw);
    hide ToRatio, Nested, Fits, Update;
    FitsIff(u, limit);
    UpdateAt(root, path, bw, path);
    UpdateAt(root, path, bw, path[..n]);
    if Fits(u, limit) {
      AboveHasMore(u, path, 0);
      assert path[..0] == [];
      AboveHasMore(u, path, n);
    }
  }

  /** The subtree at path, with the change that falls into it. */
  ghost function Changed(t: Tg, path: Path, d: Trial): (r: Tg) {
    if d.target.Some? && path <= d.target.value && IsPath(t, d.target.value[|path|..])
    then Update(t, d.target.value[|path|..], d.asked) else t
  }

  /** The change lies in the tree below path, or outside of it altogether. */
  ghost predicate Targets(t: Tg, path: Path, d: Trial) {
    d.target.Some? && path <= d.target.value ==> IsPath(t, d.target.value[|path|..])
  }

  lemma ChangedParts(t: Tg, path: Path, d: Trial)
    requires Targets(t, path, d)
    ensures Changed(t, path, d).data == Tried(t, path, d) && |Changed(t, path, d).kids| == |t.kids|
    ensures forall i :: 0 <= i < |t.kids| ==>
              Targets(t.kids[i], path + [i], d) && Changed(t, path, d).kids[i] == Changed(t.kids[i], path + [i], d)
  {
    if d.target.Some? && path <= d.target.value {
      var goal := d.target.value;
      var rest := goal[|path|..];
      assert goal == path + rest && (rest == [] <==> goal == path);
      forall i | 0 <= i < |t.kids|
        ensures Targets(t.kids[i], path + [i], d) && Changed(t, path, d).kids[i] == Changed(t.kids[i], path + [i], d)
      {
        if path + [i] <= goal {
          assert goal[|path|] == i == rest[0];
          assert goal[|path + [i]|..] == rest[1..];
        } else {
          assert rest != [] ==> path + [rest[0]] == goal[..|path| + 1];
        }
      }
    } else {
      forall i | 0 <= i < |t.kids| ensures !(d.target.Some? && path + [i] <= d.target.value) {
        if d.target.Some? {
          PrefixLess(path, i, d.target.value);
        }
      }
    }
  }

  lemma {:induction false} SumTriedIsSum(kids: seq<Tg>, after: seq<Tg>, path: Path, k: nat, d: Trial)
    requires |kids| == |after| && k <= |kids|
    requires forall i :: 0 <= i < |kids| ==> after[i].data == Tried(kids[i], path + [i], d)
    ensures SumTried(kids, path, k, d) == SumRatios(after, k)
    decreases |kids| - k
  {
    if k == |kids| {
    } else {
      SumTriedIsSum(kids, after, path, k + 1, d);
    }
  }

  /** No group that holds RT tasks is left without runtime. */
  ghost predicate NoStarving(t: Tg, path: Path, d: Trial) {
    && !(d.enabled && t.data.runtime == 0 && d.hasRtTasks(path))
    && forall k :: 0 <= k < |t.kids| ==> NoStarving(t.kids[k], path + [k], d)
  }

  /** The visitor on one group sees exactly the constraint of the changed tree at that group. */
  lemma VisitorExact(t: Tg, path: Path, d: Trial)
    requires Targets(t, path, d)
    ensures var u := Changed(t, path, d);
            TgSchedulable(t, path, d) == 0 <==>
              && (u.data.runtime <= u.data.period || u.data.runtime == RUNTIME_INF)
              && d.limit.Some? && ToRatio(u.data) <= d.limit.value && SumRatios(u.kids, 0) <= ToRatio(u.data)
              && !(d.enabled && u.data.runtime == 0 && d.hasRtTasks(path))
  {
    hide ToRatio, Changed;
    ChangedParts(t, path, d);
    var u := Changed(t, path, d);
    forall i | 0 <= i < |t.kids| ensures u.kids[i].data == Tried(t.kids[i], path + [i], d) {
      ChangedParts(t.kids[i], path + [i], d);
    }
    SumTriedIsSum(t.kids, u.kids, path, 0, d);
  }

  /** Admission is exact: every group passes iff the changed tree fits the limit and starves nobody. */
  lemma {:induction false} PassIff(root: Tg, t: Tg, path: Path, d: Trial)
    requires IsPath(root, path) && At(root, path) == t && Targets(t, path, d)
    ensures AllPass(t, path, Checker(root, d))
            <==> d.limit.Some? && Fits(Changed(t, path, d), d.limit.value) && NoStarving(Changed(t, path, d), path, d)
    decreases t
  {
    hide ToRatio, Changed, TgSchedulable, SumRatios;
    var u := Changed(t, path, d);
    ChangedParts(t, path, d);
    VisitorExact(t, path, d);
    forall k | 0 <= k < |t.kids|
      ensures AllPass(t.kids[k], path + [k], Checker(root, d))
              <==> d.limit.Some? && Fits(u.kids[k], d.limit.value) && NoStarving(u.kids[k], path + [k], d)
    {
      AtKid(root, path, k);
      PassIff(root, t.kids[k], path + [k], d);
    }
  }

  /** The result of __rt_schedulable. */
  ghost function WalkError(root: Tg, d: Trial): (err: int) {
    Traverse(root, [], Check(Checker(root, d)), Nop(), ()).1
  }

  /** It is what the visitor says of the first group that does not pass, and 0 if all do. */
  lemma WalkErrorIs(root: Tg, d: Trial)
    ensures WalkError(root, d) == Cut(PrePost(root, []), OnlyDown(Checker(root, d))).1
  {
    WalkFirstError(root, [], Checker(root, d));
  }

  /** When it is 0, whatever the order of the walk. */
  lemma AdmitIff(root: Tg, d: Trial)
    requires d.target.Some? ==> IsPath(root, d.target.value)
    ensures var u := if d.target.Some? then Update(root, d.target.value, d.asked) else root;
            WalkError(root, d) == 0
            <==> d.limit.Some? && Fits(u, d.limit.value) && NoStarving(u, [], d)
  {
    if d.target.Some? {
      assert d.target.value[0..] == d.target.value;
    }
    WalkZeroIff(root, [], Checker(root, d));
    PassIff(root, root, [], d);
  }

  // ----- new groups -----

  /** sched_create_group: the new group becomes the first child of the group at path. */
  function AddKid(t: Tg, path: Path, g: Tg): (r: Tg)
    requires IsPath(t, path)
    ensures r.data == t.data
  {
    if path == [] then t.(kids := [g] + t.kids)
    else t.(kids := t.kids[path[0] := AddKid(t.kids[path[0]], path[1..], g)])
  }

  lemma {:induction false} SumSame(a: seq<Tg>, b: seq<Tg>, k: nat)
    requires |a| == |b| && k <= |a| && forall i :: 0 <= i < |a| ==> a[i].data == b[i].data
    ensures SumRatios(a, k) == SumRatios(b, k)
    decreases |a| - k
  {
    if k == |a| {
    } else {
      SumSame(a, b, k + 1);
    }
  }

  lemma {:induction false} SumShift(g: Tg, kids: seq<Tg>, k: nat)
    requires k <= |kids|
    ensures SumRatios([g] + kids, k + 1) == SumRatios(kids, k)
    decreases |kids| - k
  {
    if k == |kids| {
    } else {
      SumShift(g, kids, k + 1);
    }
  }

  /** A group without runtime can be added anywhere. */
  lemma {:induction false} AddKidNested(t: Tg, path: Path, period: nat)
    requires IsPath(t, path) && Nested(t) && 0 < period < U64
    ensures Nested(AddKid(t, path, Group(Bw(period, 0), [])))
  {
    var g := Group(Bw(period, 0), []);
    var u := AddKid(t, path, g);
    assert ToRatio(Bw(period, 0)) == 0;
    if path == [] {
      SumShift(g, t.kids, 0);
    } else {
      AddKidNested(t.kids[path[0]], path[1..], period);
      SumSame(t.kids, u.kids, 0);
    }
  }

  /** The new group is there, the first child of its parent, and every other group is where its path has moved to. */
  lemma {:induction false} AddKidAt(t: Tg, path: Path, g: Tg)
    requires IsPath(t, path)
    ensures IsPath(AddKid(t, path, g), path + [0]) && At(AddKid(t, path, g), path + [0]) == g
  {
    if path == [] {
      assert path + [0] == [0] && [0][1..] == [];
    } else {
      AddKidAt(t.kids[path[0]], path[1..], g);
      assert (path + [0])[1..] == path[1..] + [0];
    }
  }

  lemma {:induction false} AddKidOthers(t: Tg, path: Path, g: Tg, q: Path)
    requires IsPath(t, path) && IsPath(t, q)
    ensures var r := AddKid(t, path, g);
            && IsPath(r, Shifted(q, path)) && At(r, Shifted(q, path)).data == At(t, q).data
            && |At(r, Shifted(q, path)).kids| == |At(t, q).kids| + if q == path then 1 else 0
  {
    if q == [] {
    } else if path == [] {
      assert ([q[0] + 1] + q[1..])[1..] == q[1..];
    } else if q[0] == path[0] {
      AddKidOthers(t.kids[path[0]], path[1..], g, q[1..]);
      assert ([q[0]] + Shifted(q[1..], path[1..]))[1..] == Shifted(q[1..], path[1..]);
      assert q == [q[0]] + q[1..] && path == [path[0]] + path[1..];
    }
  }

  /** A new first child at `path` moves the groups below its siblings one place on. */
  function Shifted(goal: Path, path: Path): (r: Path)
    ensures r == [] <==> goal == []
  {
    if goal == [] then []
    else if path == [] then [goal[0] + 1] + goal[1..]
    else if goal[0] == path[0] then [goal[0]] + Shifted(goal[1..], path[1..])
    else goal
  }

  /** Creating a group and changing another one can be done in either order. */
  lemma {:induction false} CreateCommutes(t: Tg, path: Path, g: Tg, goal: Path, bw: Bandwidth)
    requires IsPath(t, path) && IsPath(t, goal)
    ensures IsPath(AddKid(t, path, g), Shifted(goal, path)) && IsPath(Update(t, goal, bw), path)
    ensures Update(AddKid(t, path, g), Shifted(goal, path), bw) == AddKid(Update(t, goal, bw), path, g)
  {
    if goal == [] {
    } else if path == [] {
      assert ([goal[0] + 1] + goal[1..])[1..] == goal[1..];
    } else if goal[0] == path[0] {
      CreateCommutes(t.kids[path[0]], path[1..], g, goal[1..], bw);
      var rest := Shifted(goal[1..], path[1..]);
      assert ([goal[0]] + rest)[1..] == rest;
    } else {
      assert Shifted(goal, path) == goal;
    }
  }

  // ----- when the walk traps -----

  /** The result of a walk is 0 or what the visitor returned somewhere. */
  lemma {:induction false} WalkResult(t: Tg, path: Path, f: Path -> int, bad: int)
    requires bad != 0 && forall p :: f(p) != bad
    ensures Traverse(t, path, Check(f), Nop(), ()).1 != bad
    decreases t, |t.kids| + 1
  {
    KidsResult(t, 0, path, f, bad);
  }

  lemma {:induction false} KidsResult(t: Tg, k: nat, path: Path, f: Path -> int, bad: int)
    requires k <= |t.kids| && bad != 0 && forall p :: f(p) != bad
    ensures TraverseKids(t, k, path, Check(f), Nop(), ()).1 != bad
    decreases t, |t.kids| - k
  {
    if k == |t.kids| {
    } else {
      WalkResult(t.kids[k], path + [k], f, bad);
      KidsResult(t, k + 1, path, f, bad);
    }
  }

  /** The visitor gets past its first two tests on the root, which is visited first. */
  ghost predicate RootDivides(root: Tg, d: Trial) {
    var bw := Tried(root, [], d);
    && (bw.runtime <= bw.period || bw.runtime == RUNTIME_INF)
    && !(d.enabled && bw.runtime == 0 && d.hasRtTasks([]))
  }

  /** The walk traps iff there is no limit to divide by and the root is not refused before the division. */
  lemma TrapIff(root: Tg, d: Trial)
    ensures WalkError(root, d) == TRAP <==> d.limit.None? && RootDivides(root, d)
  {
    if d.limit.Some? {
      forall p ensures Checker(root, d)(p) != TRAP {
      }
      WalkResult(root, [], Checker(root, d), TRAP);
    }
  }
}

/**
 walk_tg_tree: an iterative walk over the task-group tree that keeps no stack, only the
 current group, its parent pointers and the sibling links. A group is named by its path
 from the root: its parent is the path without the last step, its next sibling the path
 with the last step increased.
 */
module GroupWalk {

  datatype Group<T> = Group(data: T, kids: seq<Group<T>>)

  type Path = seq<nat>

  predicate IsPath<T>(t: Group<T>, path: Path) {
    path == [] || (path[0] < |t.kids| && IsPath(t.kids[path[0]], path[1..]))
  }

  function At<T>(t: Group<T>, path: Path): (r: Group<T>)
    requires IsPath(t, path)
  {
    if path == [] then t else At(t.kids[path[0]], path[1..])
  }

  function Parent(path: Path): (p: Path)
    requires path != []
  {
    path[..|path| - 1]
  }

  function Last(path: Path): (k: nat)
    requires path != []
  {
    path[|path| - 1]
  }

  lemma {:induction false} AtKid<T>(t: Group<T>, path: Path, k: nat)
    requires IsPath(t, path)
    ensures IsPath(t, path + [k]) <==> k < |At(t, path).kids|
    ensures IsPath(t, path + [k]) ==> At(t, path + [k]) == At(t, path).kids[k]
  {
    if path == [] {
      assert path + [k] == [k] && [k][1..] == [];
    } else {
      assert (path + [k])[1..] == path[1..] + [k];
      AtKid(t.kids[path[0]], path[1..], k);
    }
  }

  lemma {:induction false} AtParent<T>(t: Group<T>, path: Path)
    requires IsPath(t, path) && path != []
    ensures IsPath(t, Parent(path)) && Last(path) < |At(t, Parent(path)).kids|
    ensures At(t, path) == At(t, Parent(path)).kids[Last(path)]
  {
    if |path| == 1 {
      assert path[1..] == [] && Parent(path) == [];
    } else {
      assert Parent(path)[1..] == Parent(path[1..]) && Last(path[1..]) == Last(path);
      AtParent(t.kids[path[0]], path[1..]);
    }
  }

  /** A visitor reads and changes the caller's data and returns 0 to go on. */
  type Visitor<!S> = (S, Path) -> (S, int)

  // ----- the recursive traversal -----

  function Traverse<T, S>(t: Group<T>, path: Path, down: Visitor<S>, up: Visitor<S>, s: S): (r: (S, int))
    decreases t, |t.kids| + 1
  {
    var (s1, ret) := down(s, path);
    if ret != 0 then (s1, ret)
    else
      var (s2, ret2) := TraverseKids(t, 0, path, down, up, s1);
      if ret2 != 0 then (s2, ret2) else up(s2, path)
  }

  function TraverseKids<T, S>(t: Group<T>, k: nat, path: Path, down: Visitor<S>, up: Visitor<S>, s: S): (r: (S, int))
    requires k <= |t.kids|
    decreases t, |t.kids| - k
  {
    if k == |t.kids| then (s, 0)
    else
      var (s1, ret) := Traverse(t.kids[k], path + [k], down, up, s);
      if ret != 0 then (s1, ret) else TraverseKids(t, k + 1, path, down, up, s1)
  }

  // ----- what the traversal visits -----

  datatype Visit = Down(path: Path) | Up(path: Path)

  /** A group on the way down, all below it, the group on the way up. */
  function PrePost<T>(t: Group<T>, path: Path): (visits: seq<Visit>)
    decreases t, |t.kids| + 1
  {
    [Down(path)] + PrePostKids(t, 0, path) + [Up(path)]
  }

  function PrePostKids<T>(t: Group<T>, k: nat, path: Path): (visits: seq<Visit>)
    requires k <= |t.kids|
    decreases t, |t.kids| - k
  {
    if k == |t.kids| then [] else PrePost(t.kids[k], path + [k]) + PrePostKids(t, k + 1, path)
  }

  /** The visits that are made when visit v answers f(v): up to the first answer that is not 0, and that answer. */
  function Cut(visits: seq<Visit>, f: Visit -> int): (r: (seq<Visit>, int)) {
    if visits == [] then ([], 0)
    else if f(visits[0]) != 0 then ([visits[0]], f(visits[0]))
    else
      var rest := Cut(visits[1..], f);
      ([visits[0]] + rest.0, rest.1)
  }

  lemma {:induction false} CutAppend(a: seq<Visit>, b: seq<Visit>, f: Visit -> int)
    ensures Cut(a, f).1 == 0 ==> Cut(a, f).0 == a
    ensures Cut(a + b, f) == if Cut(a, f).1 != 0 then Cut(a, f) else (a + Cut(b, f).0, Cut(b, f).1)
  {
    if a == [] {
      assert a + b == b && a + Cut(b, f).0 == Cut(b, f).0;
    } else {
      CutAppend(a[1..], b, f);
      assert (a + b)[1..] == a[1..] + b && a == [a[0]] + a[1..];
      assert [a[0]] + (a[1..] + Cut(b, f).0) == a + Cut(b, f).0;
    }
  }

  lemma CutOne(v: Visit, f: Visit -> int)
    ensures Cut([v], f) == ([v], f(v))
  {
    assert [v][1..] == [];
    assert [v] + [] == [v];
  }

  /** A visitor that notes down its visits. */
  function Logger(down: bool, f: Visit -> int): Visitor<seq<Visit>> {
    (log: seq<Visit>, p: Path) => var v := if down then Down(p) else Up(p); (log + [v], f(v))
  }

  /** Every group is visited before and after its children, these from left to right, until an answer is not 0. */
  lemma {:induction false} TraverseVisits<T>(t: Group<T>, path: Path, f: Visit -> int, log: seq<Visit>)
    ensures var c := Cut(PrePost(t, path), f);
            Traverse(t, path, Logger(true, f), Logger(false, f), log) == (log + c.0, c.1)
    decreases t, |t.kids| + 1
  {
    var d, kids, u := [Down(path)], PrePostKids(t, 0, path), [Up(path)];
    CutAppend(d + kids, u, f);
    CutAppend(d, kids, f);
    TraverseKidsVisits(t, 0, path, f, log + d);
    var c := Cut(kids, f);
    assert log + d + c.0 == log + (d + c.0);
    assert log + d + kids + u == log + (d + kids + u);
    if f(Down(path)) == 0 && c.1 == 0 {
      CutAppend(kids, [], f);
    }
    CutOne(Up(path), f);
    CutOne(Down(path), f);
  }

  lemma {:induction false} TraverseKidsVisits<T>(t: Group<T>, k: nat, path: Path, f: Visit -> int, log: seq<Visit>)
    requires k <= |t.kids|
    ensures var c := Cut(PrePostKids(t, k, path), f);
            TraverseKids(t, k, path, Logger(true, f), Logger(false, f), log) == (log + c.0, c.1)
    decreases t, |t.kids| - k
  {
    if k == |t.kids| {
      assert log + [] == log;
    } else {
      var first, rest := PrePost(t.kids[k], path + [k]), PrePostKids(t, k + 1, path);
      CutAppend(first, rest, f);
      TraverseVisits(t.kids[k], path + [k], f, log);
      TraverseKidsVisits(t, k + 1, path, f, log + first);
      assert log + first + Cut(rest, f).0 == log + (first + Cut(rest, f).0);
    }
  }

  /** The walk passes every group of the tree, and nothing else, on its way down. */
  lemma {:induction false} VisitsAll<T>(t: Group<T>, path: Path, q: Path)
    ensures Down(path + q) in PrePost(t, path) <==> IsPath(t, q)
    decreases t, |t.kids| + 1
  {
    VisitsKids(t, 0, path, q);
    assert Down(path + q) in [Down(path)] <==> q == [] by {
      assert q == [] ==> path + q == path;
      assert |path + q| == |path| + |q|;
    }
  }

  lemma {:induction false} VisitsKids<T>(t: Group<T>, k: nat, path: Path, q: Path)
    requires k <= |t.kids|
    ensures Down(path + q) in PrePostKids(t, k, path) <==> q != [] && k <= q[0] < |t.kids| && IsPath(t.kids[q[0]], q[1..])
    decreases t, |t.kids| - k
  {
    if k == |t.kids| {
    } else {
      VisitsKids(t, k + 1, path, q);
      if q != [] && q[0] == k {
        VisitsAll(t.kids[k], path + [k], q[1..]);
        assert path + [k] + q[1..] == path + q;
      } else {
        OtherKid(path, k, q);
        NotBelow(t.kids[k], path + [k], path + q);
      }
    }
  }

  lemma PrefixLess(path: Path, i: nat, goal: Path)
    ensures path + [i] <= goal ==> path <= goal
  {
    if path + [i] <= goal {
      assert path == (path + [i])[..|path|] == goal[..|path|];
    }
  }

  lemma OtherKid(path: Path, k: nat, q: Path)
    requires q == [] || q[0] != k
    ensures !(path + [k] <= path + q)
  {
    assert q != [] ==> (path + q)[|path|] == q[0];
    assert (path + [k])[|path|] == k;
  }

  /** All visits of a subtree are of paths below it. */
  lemma {:induction false} NotBelow<T>(t: Group<T>, path: Path, p: Path)
    requires !(path <= p)
    ensures Down(p) !in PrePost(t, path)
    decreases t, |t.kids| + 1
  {
    NotBelowKids(t, 0, path, p);
  }

  lemma {:induction false} NotBelowKids<T>(t: Group<T>, k: nat, path: Path, p: Path)
    requires k <= |t.kids| && !(path <= p)
    ensures Down(p) !in PrePostKids(t, k, path)
    decreases t, |t.kids| - k
  {
    if k == |t.kids| {
    } else {
      PrefixLess(path, k, p);
      NotBelow(t.kids[k], path + [k], p);
      NotBelowKids(t, k + 1, path, p);
    }
  }

  /** What is left to do at a group whose first k children are done. */
  function Finish<T, S>(root: Group<T>, path: Path, k: nat, down: Visitor<S>, up: Visitor<S>, s: S): (r: (S, int))
    requires IsPath(root, path) && k <= |At(root, path).kids|
    decreases |path|
  {
    var (s1, ret) := TraverseKids(At(root, path), k, path, down, up, s);
    if ret != 0 then (s1, ret)
    else
      var (s2, ret2) := up(s1, path);
      if ret2 != 0 || path == [] then (s2, ret2)
      else
        AtParent(root, path);
        Finish(root, Parent(path), Last(path) + 1, down, up, s2)
  }

  /** What is left to do at a group that has not been entered yet. */
  function Enter<T, S>(root: Group<T>, path: Path, down: Visitor<S>, up: Visitor<S>, s: S): (r: (S, int))
    requires IsPath(root, path)
  {
    var (s1, ret) := Traverse(At(root, path), path, down, up, s);
    if ret != 0 || path == [] then (s1, ret)
    else
      AtParent(root, path);
      Finish(root, Parent(path), Last(path) + 1, down, up, s1)
  }

  /** Stepping to the next child splits its traversal off. */
  lemma FinishKid<T, S>(root: Group<T>, path: Path, k: nat, down: Visitor<S>, up: Visitor<S>, s: S)
    requires IsPath(root, path) && k < |At(root, path).kids|
    ensures IsPath(root, path + [k])
    ensures Finish(root, path, k, down, up, s) == Enter(root, path + [k], down, up, s)
  {
    AtKid(root, path, k);
    assert Parent(path + [k]) == path && Last(path + [k]) == k;
  }

  // ----- how much is left -----

  ghost function Size<T>(t: Group<T>): (n: nat)
    decreases t, |t.kids| + 1
  {
    1 + KidsSize(t, 0)
  }

  ghost function KidsSize<T>(t: Group<T>, k: nat): (n: nat)
    requires k <= |t.kids|
    decreases t, |t.kids| - k
  {
    if k == |t.kids| then 0 else Size(t.kids[k]) + KidsSize(t, k + 1)
  }

  ghost function Rest<T>(root: Group<T>, path: Path): (n: nat)
    requires IsPath(root, path)
    decreases |path|
  {
    if path == [] then 0
    else
      AtParent(root, path);
      2 * KidsSize(At(root, Parent(path)), Last(path) + 1) + 1 + Rest(root, Parent(path))
  }

  ghost function Left<T>(root: Group<T>, path: Path, entering: bool, k: nat): (n: nat)
    requires IsPath(root, path) && k <= |At(root, path).kids|
  {
    (if entering then 2 * Size(At(root, path)) else 2 * KidsSize(At(root, path), k) + 1) + Rest(root, path)
  }

  /**
   The goto-driven walk ends on every tree, and it makes the visits of the recursive
   pre/post-order traversal, in that order and with the same early exit, for all visitors.
   */
  method WalkTgTree<T, S>(root: Group<T>, down: Visitor<S>, up: Visitor<S>, data: S) returns (s: S, ret: int)
    ensures (s, ret) == Traverse(root, [], down, up, data)
  {
    var parent: Path := [];
    var entering, k: nat := true, 0;
    s, ret := data, 0;
    while true
      invariant IsPath(root, parent) && k <= |At(root, parent).kids| && (entering ==> k == 0)
      invariant Traverse(root, [], down, up, data) ==
                if entering then Enter(root, parent, down, up, s) else Finish(root, parent, k, down, up, s)
      decreases Left(root, parent, entering, k), if entering then 0 else 1
    {
      if entering {
        var r := down(s, parent);
        s, ret := r.0, r.1;
        if ret != 0 {
          return;
        }
        entering := false;
      } else if k < |At(root, parent).kids| {
        FinishKid(root, parent, k, down, up, s);
        AtKid(root, parent, k);
        AtParent(root, parent + [k]);
        assert Parent(parent + [k]) == parent && Last(parent + [k]) == k;
        parent := parent + [k];
        entering, k := true, 0;
      } else {
        var r := up(s, parent);
        s, ret := r.0, r.1;
        if ret != 0 || parent == [] {
          return;
        }
        AtParent(root, parent);
        k := Last(parent) + 1;
        parent := Parent(parent);
      }
    }
  }
}

/**
 The lottery scheduling class: a draw over a linked list and a draw over a red-black tree
 whose nodes carry the ticket sum of their subtree.
 */
module Lottery {
  import opened Wrappers
  import opened Arithmetic

  /** ticket is task_struct.ticket, weight is the copy in lottery_task that the tree works on. */
  datatype Task = Task(pid: nat, ticket: nat, weight: nat)

  datatype Tree = Leaf | Node(left: Tree, task: Task, accu: nat, right: Tree)

  function InOrder(t: Tree): (s: seq<Task>) {
    match t
    case Leaf => []
    case Node(l, p, _, r) => InOrder(l) + [p] + InOrder(r)
  }

  function Weight(s: seq<Task>): (n: nat) {
    if s == [] then 0 else s[0].weight + Weight(s[1..])
  }

  lemma {:induction false} WeightAppend(a: seq<Task>, b: seq<Task>)
    ensures Weight(a + b) == Weight(a) + Weight(b)
  {
    if a == [] {
      assert a + b == b;
    } else {
      WeightAppend(a[1..], b);
      assert (a + b)[1..] == a[1..] + b;
    }
  }

  lemma WeightNode(l: seq<Task>, p: Task, r: seq<Task>)
    ensures Weight(l + [p] + r) == Weight(l) + p.weight + Weight(r)
  {
    WeightAppend(l + [p], r);
    WeightAppend(l, [p]);
  }

  /** Both copies of the ticket count agree. */
  ghost predicate Agree(s: seq<Task>) {
    forall i :: 0 <= i < |s| ==> s[i].ticket == s[i].weight
  }

  // ----- subtree sums -----

  function AccuOf(t: Tree): (n: nat) {
    if t.Leaf? then 0 else t.accu
  }

  ghost predicate Accurate(t: Tree) {
    t.Leaf? || (Accurate(t.left) && Accurate(t.right) && t.accu == Weight(InOrder(t)))
  }

  /** update_postorder, branch by branch: children first, then the node itself. */
  function UpdatePostorder(t: Tree): (r: Tree)
    ensures InOrder(r) == InOrder(t) && r.Leaf? == t.Leaf?
  {
    match t
    case Leaf => Leaf
    case Node(l, p, _, r) =>
      var l', r' := UpdatePostorder(l), UpdatePostorder(r);
      if l'.Node? && r'.Node? then Node(l', p, l'.accu + r'.accu + p.weight, r')
      else if l'.Node? then Node(l', p, l'.accu + p.weight, r')
      else if r'.Node? then Node(l', p, r'.accu + p.weight, r')
      else Node(l', p, p.weight, r')
  }

  /** Whatever the sums were before, afterwards each node holds the sum of its subtree. */
  lemma {:induction false} UpdateAccurate(t: Tree)
    ensures Accurate(UpdatePostorder(t)) && AccuOf(UpdatePostorder(t)) == Weight(InOrder(t))
  {
    if t.Leaf? {
    } else {
      UpdateAccurate(t.left);
      UpdateAccurate(t.right);
      WeightNode(InOrder(t.left), t.task, InOrder(t.right));
    }
  }

  // ----- insertion -----

  /** Where the descent of insert_lottery_rb_task links the new leaf. */
  function Link(t: Tree, p: Task): (r: Tree) {
    match t
    case Leaf => Node(Leaf, p, 0, Leaf)
    case Node(l, q, a, r) =>
      if p.weight < q.weight then Node(Link(l, p), q, a, r) else Node(l, q, a, Link(r, p))
  }

  ghost predicate Sorted(s: seq<Task>) {
    forall i, j :: 0 <= i < j < |s| ==> s[i].weight <= s[j].weight
  }

  function Insert(s: seq<Task>, k: nat, p: Task): (r: seq<Task>)
    requires k <= |s|
  {
    s[..k] + [p] + s[k..]
  }

  lemma InsertLeft(l: seq<Task>, q: Task, r: seq<Task>, k: nat, p: Task)
    requires k <= |l|
    ensures k <= |l + [q] + r| && Insert(l, k, p) + [q] + r == Insert(l + [q] + r, k, p)
  {
    var s := l + [q] + r;
    assert s[..k] == l[..k] && s[k..] == l[k..] + [q] + r;
  }

  lemma InsertRight(l: seq<Task>, q: Task, r: seq<Task>, k: nat, p: Task)
    requires k <= |r|
    ensures |l| + 1 + k <= |l + [q] + r| && l + [q] + Insert(r, k, p) == Insert(l + [q] + r, |l| + 1 + k, p)
  {
    var s := l + [q] + r;
    assert s[..|l| + 1 + k] == l + [q] + r[..k] && s[|l| + 1 + k..] == r[k..];
  }

  /** k separates the tasks of at most the weight w from the heavier ones. */
  ghost predicate Separates(s: seq<Task>, k: nat, w: nat) {
    && k <= |s|
    && (forall i :: 0 <= i < k ==> s[i].weight <= w)
    && (forall i :: k <= i < |s| ==> w < s[i].weight)
  }

  lemma SortedParts(l: seq<Task>, q: Task, r: seq<Task>)
    requires Sorted(l + [q] + r)
    ensures Sorted(l) && Sorted(r)
    ensures forall i :: 0 <= i < |l| ==> l[i].weight <= q.weight
    ensures forall i :: 0 <= i < |r| ==> q.weight <= r[i].weight
  {
    var s := l + [q] + r;
    assert s[|l|] == q;
    forall i, j | 0 <= i < j < |l| ensures l[i].weight <= l[j].weight {
      assert s[i] == l[i] && s[j] == l[j];
    }
    forall i, j | 0 <= i < j < |r| ensures r[i].weight <= r[j].weight {
      assert s[|l| + 1 + i] == r[i] && s[|l| + 1 + j] == r[j];
    }
    forall i | 0 <= i < |l| ensures l[i].weight <= q.weight {
      assert s[i] == l[i];
    }
    forall i | 0 <= i < |r| ensures q.weight <= r[i].weight {
      assert s[|l| + 1 + i] == r[i];
    }
  }

  lemma SeparatesLeft(l: seq<Task>, q: Task, r: seq<Task>, k: nat, w: nat)
    requires k <= |l| && Separates(l, k, w) && w < q.weight && forall i :: 0 <= i < |r| ==> q.weight <= r[i].weight
    ensures Separates(l + [q] + r, k, w)
  {
  }

  lemma SeparatesRight(l: seq<Task>, q: Task, r: seq<Task>, k: nat, w: nat)
    requires k <= |r| && Separates(r, k, w) && q.weight <= w && forall i :: 0 <= i < |l| ==> l[i].weight <= q.weight
    ensures Separates(l + [q] + r, |l| + 1 + k, w)
  {
    var s := l + [q] + r;
    forall i | 0 <= i < |s| ensures s[i] == if i < |l| then l[i] else if i == |l| then q else r[i - |l| - 1] {
    }
  }

  /** The new task lands after every task of at most its weight and before every heavier one. */
  lemma {:induction false} LinkInOrder(t: Tree, p: Task) returns (k: nat)
    requires Sorted(InOrder(t))
    ensures k <= |InOrder(t)| && Separates(InOrder(t), k, p.weight) && InOrder(Link(t, p)) == Insert(InOrder(t), k, p)
  {
    if t.Leaf? {
      k := 0;
    } else {
      hide Sorted, Insert, Separates;
      var l, q, r := InOrder(t.left), t.task, InOrder(t.right);
      SortedParts(l, q, r);
      if p.weight < q.weight {
        k := LinkInOrder(t.left, p);
        SeparatesLeft(l, q, r, k, p.weight);
        InsertLeft(l, q, r, k, p);
      } else {
        k := LinkInOrder(t.right, p);
        SeparatesRight(l, q, r, k, p.weight);
        InsertRight(l, q, r, k, p);
        k := |l| + 1 + k;
      }
    }
  }

  lemma LinkSorted(t: Tree, p: Task)
    requires Sorted(InOrder(t))
    ensures Sorted(InOrder(Link(t, p))) && multiset(InOrder(Link(t, p))) == multiset(InOrder(t)) + multiset{p}
  {
    hide InOrder, Link, Insert;
    var k := LinkInOrder(t, p);
    InsertSorted(InOrder(t), k, p);
  }

  lemma InsertSorted(s: seq<Task>, k: nat, p: Task)
    requires Sorted(s) && k <= |s| && Separates(s, k, p.weight)
    ensures Sorted(Insert(s, k, p)) && multiset(Insert(s, k, p)) == multiset(s) + multiset{p}
  {
    var u := Insert(s, k, p);
    assert s == s[..k] + s[k..];
    forall i, j | 0 <= i < j < |u| ensures u[i].weight <= u[j].weight {
      assert u[i] == if i < k then s[i] else if i == k then p else s[i - 1];
      assert u[j] == if j < k then s[j] else if j == k then p else s[j - 1];
    }
  }

  // ----- the draw over a list -----

  /** pick_winner_task: the index of the first task that brings the running sum up to the lucky ticket, or -1. */
  function ListDraw(s: seq<Task>, sum: nat, lucky: nat, i: nat): (r: int)
    requires i <= |s|
    ensures -1 <= r < |s|
    decreases |s| - i
  {
    if i == |s| then -1
    else if sum + s[i].ticket >= lucky then i
    else ListDraw(s, sum + s[i].ticket, lucky, i + 1)
  }

  function Tickets(s: seq<Task>): (n: nat) {
    if s == [] then 0 else Tickets(s[..|s| - 1]) + s[|s| - 1].ticket
  }

  lemma TicketsTake(s: seq<Task>, i: nat)
    requires i < |s|
    ensures Tickets(s[..i + 1]) == Tickets(s[..i]) + s[i].ticket
  {
    assert s[..i + 1][..i] == s[..i];
  }

  /** Task i wins exactly the tickets above the sum of the tasks before it and up to its own end. */
  lemma {:induction false} DrawInterval(s: seq<Task>, lucky: nat, i: nat, w: nat)
    requires i <= w < |s| && Tickets(s[..i]) < lucky
    ensures ListDraw(s, Tickets(s[..i]), lucky, i) == w <==> Tickets(s[..w]) < lucky <= Tickets(s[..w + 1])
    decreases |s| - i
  {
    TicketsTake(s, i);
    if i < w {
      TicketsMono(s, i + 1, w);
      if Tickets(s[..i + 1]) < lucky {
        DrawInterval(s, lucky, i + 1, w);
      }
    } else if Tickets(s[..i + 1]) < lucky {
      DrawAfter(s, Tickets(s[..i + 1]), lucky, i + 1);
    }
  }

  lemma {:induction false} DrawAfter(s: seq<Task>, sum: nat, lucky: nat, i: nat)
    requires i <= |s|
    ensures ListDraw(s, sum, lucky, i) == -1 || ListDraw(s, sum, lucky, i) >= i
    decreases |s| - i
  {
    if i < |s| && sum + s[i].ticket < lucky {
      DrawAfter(s, sum + s[i].ticket, lucky, i + 1);
    }
  }

  lemma {:induction false} TicketsMono(s: seq<Task>, i: nat, j: nat)
    requires i <= j <= |s|
    ensures Tickets(s[..i]) <= Tickets(s[..j])
    decreases j - i
  {
    if i == j {
    } else {
      TicketsTake(s, i);
      TicketsMono(s, i + 1, j);
    }
  }

  /** Every lucky ticket up to the total has a winner. */
  lemma {:induction false} DrawWins(s: seq<Task>, lucky: nat, i: nat)
    requires i <= |s| && Tickets(s[..i]) < lucky <= Tickets(s)
    ensures ListDraw(s, Tickets(s[..i]), lucky, i) >= 0
    decreases |s| - i
  {
    assert s[..|s|] == s;
    if i == |s| {
    } else {
      TicketsTake(s, i);
      if Tickets(s[..i + 1]) < lucky {
        DrawWins(s, lucky, i + 1);
      }
    }
  }

  // ----- exact fairness -----

  ghost function Interval(a: nat, b: nat): (r: set<nat>)
    requires a <= b
    ensures |r| == b - a && forall x: nat :: x in r <==> a < x <= b
    decreases b - a
  {
    if a == b then {} else Interval(a, b - 1) + {b}
  }

  /** The lucky tickets from 1 to the total that make task w win. */
  ghost function WinningTickets(s: seq<Task>, w: nat): set<nat> {
    set lucky | lucky in Interval(0, Tickets(s)) && ListDraw(s, 0, lucky, 0) == w
  }

  /** Each task wins for exactly as many lucky tickets as it holds, whatever the order of the list. */
  lemma ListFair(s: seq<Task>, w: nat)
    requires w < |s|
    ensures |WinningTickets(s, w)| == s[w].ticket
    ensures forall lucky :: 1 <= lucky <= Tickets(s) ==> ListDraw(s, 0, lucky, 0) >= 0
  {
    assert s[..|s|] == s && s[..0] == [] && Tickets([]) == 0;
    hide ListDraw, Tickets;
    TicketsTake(s, w);
    TicketsMono(s, w + 1, |s|);
    var mine := Interval(Tickets(s[..w]), Tickets(s[..w + 1]));
    forall lucky: nat ensures lucky in WinningTickets(s, w) <==> lucky in mine {
      if 1 <= lucky <= Tickets(s) {
        DrawInterval(s, lucky, 0, w);
      }
    }
    assert WinningTickets(s, w) == mine;
    forall lucky | 1 <= lucky <= Tickets(s) ensures ListDraw(s, 0, lucky, 0) >= 0 {
      DrawWins(s, lucky, 0);
    }
  }

  // ----- the draw over the tree -----

  /** pick_winner_rb_task below a node, given the tickets to the left of its subtree. */
  function TreeDraw(t: Tree, leftTotal: nat, lucky: nat): (r: Option<Task>) {
    match t
    case Leaf => None
    case Node(l, p, _, r) =>
      if l.Node? && lucky <= l.accu + leftTotal then TreeDraw(l, leftTotal, lucky)
      else
        var soFar := AccuOf(l) + p.weight;
        if lucky <= soFar + leftTotal then Some(p)
        else TreeDraw(r, leftTotal + soFar, lucky)
  }

  /** The list draw as the task it picks, from a running sum. */
  function Picked(s: seq<Task>, sum: nat, lucky: nat): (r: Option<Task>) {
    var i := ListDraw(s, sum, lucky, 0);
    if i < 0 then None else Some(s[i])
  }

  lemma {:induction false} DrawShift(s: seq<Task>, p: Task, sum: nat, lucky: nat, i: nat)
    requires i <= |s|
    ensures var r := ListDraw(s, sum, lucky, i);
            ListDraw([p] + s, sum, lucky, i + 1) == if r < 0 then -1 else r + 1
    decreases |s| - i
  {
    if i < |s| && sum + s[i].ticket < lucky {
      DrawShift(s, p, sum + s[i].ticket, lucky, i + 1);
    }
  }

  lemma PickedCons(p: Task, s: seq<Task>, sum: nat, lucky: nat)
    ensures Picked([p] + s, sum, lucky) == if sum + p.ticket >= lucky then Some(p) else Picked(s, sum + p.ticket, lucky)
  {
    DrawShift(s, p, sum + p.ticket, lucky, 0);
  }

  lemma {:induction false} PickedAppend(a: seq<Task>, b: seq<Task>, sum: nat, lucky: nat)
    requires Agree(a)
    ensures Picked(a + b, sum, lucky) ==
            if a != [] && lucky <= sum + Weight(a) then Picked(a, sum, lucky) else Picked(b, sum + Weight(a), lucky)
  {
    if a == [] {
      assert a + b == b;
    } else {
      assert a == [a[0]] + a[1..] && a + b == [a[0]] + (a[1..] + b);
      PickedCons(a[0], a[1..], sum, lucky);
      PickedCons(a[0], a[1..] + b, sum, lucky);
      PickedAppend(a[1..], b, sum + a[0].ticket, lucky);
    }
  }

  /**
   For any tree shape with correct subtree sums and any lucky ticket, the tree draw picks
   the task that the list draw picks from the in-order sequence.
   */
  lemma {:induction false} TreeDrawIsListDraw(t: Tree, leftTotal: nat, lucky: nat)
    requires Accurate(t) && Agree(InOrder(t))
    ensures TreeDraw(t, leftTotal, lucky) == Picked(InOrder(t), leftTotal, lucky)
  {
    if t.Node? {
      hide ListDraw, Weight, Picked;
      var l, p, r := InOrder(t.left), t.task, InOrder(t.right);
      assert InOrder(t) == l + ([p] + r);
      AgreeParts(l, p, r);
      AccuIsWeight(t.left);
      TreeDrawIsListDraw(t.left, leftTotal, lucky);
      TreeDrawIsListDraw(t.right, leftTotal + Weight(l) + p.weight, lucky);
      PickedAppend(l, [p] + r, leftTotal, lucky);
      PickedCons(p, r, leftTotal + Weight(l), lucky);
      LeafEmpty(t.left);
    } else {
      assert Picked([], leftTotal, lucky) == None;
    }
  }

  lemma LeafEmpty(t: Tree)
    ensures t.Leaf? <==> InOrder(t) == []
    ensures t.Leaf? ==> Weight(InOrder(t)) == 0
  {
  }

  lemma AgreeParts(l: seq<Task>, p: Task, r: seq<Task>)
    requires Agree(l + ([p] + r))
    ensures Agree(l) && p.ticket == p.weight && Agree(r)
  {
    var s := l + ([p] + r);
    assert s[|l|] == p;
    assert forall i :: 0 <= i < |l| ==> l[i] == s[i];
    assert forall i :: 0 <= i < |r| ==> r[i] == s[|l| + 1 + i];
  }

  ghost predicate DistinctPids(s: seq<Task>) {
    forall i, j :: 0 <= i < j < |s| ==> s[i].pid != s[j].pid
  }

  lemma {:induction false} TicketsIsWeight(s: seq<Task>)
    requires Agree(s)
    ensures Tickets(s) == Weight(s)
  {
    if s == [] {
    } else {
      var n := |s| - 1;
      TicketsIsWeight(s[..n]);
      assert s == s[..n] + [s[n]];
      WeightAppend(s[..n], [s[n]]);
    }
  }

  ghost function TreeWinningTickets(t: Tree, p: Task): set<nat> {
    set lucky | lucky in Interval(0, AccuOf(t)) && TreeDraw(t, 0, lucky) == Some(p)
  }

  /** Over the lucky tickets 1..total the tree draw is exactly fair and always has a winner. */
  lemma TreeFair(t: Tree, w: nat)
    requires Accurate(t) && Agree(InOrder(t)) && DistinctPids(InOrder(t)) && w < |InOrder(t)|
    ensures |TreeWinningTickets(t, InOrder(t)[w])| == InOrder(t)[w].ticket
    ensures forall lucky :: 1 <= lucky <= AccuOf(t) ==> TreeDraw(t, 0, lucky).Some?
  {
    hide TreeDraw, ListDraw, Weight, InOrder, Tickets;
    var s := InOrder(t);
    TicketsIsWeight(s);
    ListFair(s, w);
    AccuIsWeight(t);
    forall lucky: nat ensures TreeDraw(t, 0, lucky) == Picked(s, 0, lucky) {
      TreeDrawIsListDraw(t, 0, lucky);
    }
    assert TreeWinningTickets(t, s[w]) == WinningTickets(s, w);
  }

  lemma AccuIsWeight(t: Tree)
    requires Accurate(t)
    ensures AccuOf(t) == Weight(InOrder(t))
  {
  }

  // ----- descending to the link position -----

  /** The subtree at the end of a path; true goes left. */
  function At(t: Tree, path: seq<bool>): (r: Tree) {
    if path == [] || t.Leaf? then t else At(if path[0] then t.left else t.right, path[1..])
  }

  /** t with the subtree at the end of the path replaced. */
  function Graft(t: Tree, path: seq<bool>, n: Tree): (r: Tree) {
    if path == [] then n
    else if t.Leaf? then Leaf
    else if path[0] then t.(left := Graft(t.left, path[1..], n)) else t.(right := Graft(t.right, path[1..], n))
  }

  lemma {:induction false} StepDown(t: Tree, path: seq<bool>, go: bool, n: Tree)
    requires At(t, path).Node?
    ensures At(t, path + [go]) == if go then At(t, path).left else At(t, path).right
    ensures Graft(t, path + [go], n) == Graft(t, path, if go then At(t, path).(left := n) else At(t, path).(right := n))
  {
    if path == [] {
      assert path + [go] == [go] && [go][1..] == [];
    } else {
      assert (path + [go])[1..] == path[1..] + [go];
      StepDown(if path[0] then t.left else t.right, path[1..], go, n);
    }
  }

  ghost function Height(t: Tree): nat {
    if t.Leaf? then 0 else 1 + Height(t.left) + Height(t.right)
  }

  /** The loop of insert_lottery_rb_task followed by rb_link_node. */
  method LinkNode(root: Tree, p: Task) returns (linked: Tree)
    ensures linked == Link(root, p)
  {
    var path, node := [], root;
    while node.Node?
      invariant node == At(root, path) && Graft(root, path, Link(node, p)) == Link(root, p)
      decreases Height(node)
    {
      var go := p.weight < node.task.weight;
      var next := if go then node.left else node.right;
      StepDown(root, path, go, Link(next, p));
      path, node := path + [go], next;
    }
    linked := Graft(root, path, Node(Leaf, p, 0, Leaf));
  }

  // ----- the two pick functions -----

  /** The lucky ticket made from a random number. */
  function Lucky(random: nat, total: nat): (r: nat)
    requires total > 0
    ensures 1 <= r <= total
  {
    random % total + 1
  }

  /** It counts up from 1 with the random number, and starts again after the total. */
  lemma LuckyCounts(random: nat, total: nat)
    requires total > 0
    ensures random < total ==> Lucky(random, total) == random + 1
    ensures Lucky(random + total, total) == Lucky(random, total)
  {
    if random < total {
      QuotientUnique(random, total, 0, random);
    }
    QuotientStep(random + total, total);
  }

  /** The answers of the two pick functions. */
  function ListPick(list: seq<Task>, total: nat, random: nat): (r: Option<Task>) {
    if total == 0 then None else Picked(list, 0, Lucky(random, total))
  }

  function TreePick(root: Tree, total: nat, random: nat): (r: Option<Task>) {
    if total == 0 then None else TreeDraw(root, 0, Lucky(random, total))
  }

  // ----- fairness over the random number -----

  /** Numbers less than a divisor apart have different remainders. */
  lemma RemaindersDiffer(r: nat, s: nat, total: nat)
    requires 0 < total && r < s < r + total
    ensures r % total != s % total
  {
    var p, q := r / total, s / total;
    assert r == total * p + r % total && s == total * q + s % total;
    if r % total == s % total {
      assert (q - p) * total == total * q - total * p;
      if q > p {
        MulAtLeast(q - p, total);
      } else if q < p {
        assert (p - q) * total == total * p - total * q;
        MulAtLeast(p - q, total);
      }
    }
  }

  /** Every remainder occurs in every window of as many numbers as the divisor. */
  lemma RemainderOccurs(lo: nat, total: nat, x: nat) returns (r: nat)
    requires x < total
    ensures lo <= r < lo + total && r % total == x
  {
    var q, m := (x - lo) / total, (x - lo) % total;
    assert x - lo == total * q + m;
    r := lo + m;
    assert r == (-q) * total + x;
    QuotientUnique(r, total, -q, x);
  }

  ghost function Window(lo: nat, n: nat): (r: set<nat>)
    ensures forall x: nat :: x in r <==> lo <= x < lo + n
    decreases n
  {
    if n == 0 then {} else Window(lo, n - 1) + {lo + n - 1}
  }

  /** The random numbers of a window for which task w wins. */
  ghost function WinningRandoms(s: seq<Task>, w: nat, lo: nat, n: nat): set<nat>
    requires Tickets(s) > 0
  {
    set r | r in Window(lo, n) && ListDraw(s, 0, Lucky(r, Tickets(s)), 0) == w
  }

  lemma {:induction false} LuckyCard(randoms: set<nat>, total: nat, tickets: set<nat>)
    requires total > 0 && forall r :: r in randoms ==> Lucky(r, total) in tickets
    requires forall l :: l in tickets ==> exists r :: r in randoms && Lucky(r, total) == l
    requires forall r, s :: r in randoms && s in randoms && r != s ==> Lucky(r, total) != Lucky(s, total)
    ensures |randoms| == |tickets|
    decreases |randoms|
  {
    hide Lucky;
    if randoms == {} {
      assert tickets == {};
    } else {
      var r :| r in randoms;
      var l := Lucky(r, total);
      forall k | k in tickets - {l} ensures exists s :: s in randoms - {r} && Lucky(s, total) == k {
        var s :| s in randoms && Lucky(s, total) == k;
        assert s in randoms - {r};
      }
      LuckyCard(randoms - {r}, total, tickets - {l});
    }
  }

  /** Of any `total` consecutive random numbers, each task wins for exactly as many as it holds tickets. */
  lemma WindowFair(s: seq<Task>, w: nat, lo: nat)
    requires w < |s| && Tickets(s) > 0
    ensures |WinningRandoms(s, w, lo, Tickets(s))| == s[w].ticket
  {
    var total := Tickets(s);
    var randoms, tickets := WinningRandoms(s, w, lo, total), WinningTickets(s, w);
    hide ListDraw, Tickets;
    forall r, q | r in randoms && q in randoms && r != q ensures Lucky(r, total) != Lucky(q, total) {
      if r < q {
        RemaindersDiffer(r, q, total);
      } else {
        RemaindersDiffer(q, r, total);
      }
    }
    forall l | l in tickets ensures exists r :: r in randoms && Lucky(r, total) == l {
      var r := RemainderOccurs(lo, total, l - 1);
      assert Lucky(r, total) == l && r in randoms;
    }
    LuckyCard(randoms, total, tickets);
    ListFair(s, w);
  }

  lemma RandomsSplit(s: seq<Task>, w: nat, lo: nat, n: nat, k: nat)
    requires Tickets(s) > 0
    ensures |WinningRandoms(s, w, lo, n + k)| == |WinningRandoms(s, w, lo, n)| + |WinningRandoms(s, w, lo + n, k)|
  {
    hide ListDraw, Tickets, Lucky;
    var a, b := WinningRandoms(s, w, lo, n), WinningRandoms(s, w, lo + n, k);
    assert WinningRandoms(s, w, lo, n + k) == a + b;
    assert a !! b;
  }

  lemma {:induction false} WindowsFair(s: seq<Task>, w: nat, k: nat)
    requires w < |s| && Tickets(s) > 0
    ensures |WinningRandoms(s, w, 0, k * Tickets(s))| == k * s[w].ticket
  {
    if k == 0 {
      assert WinningRandoms(s, w, 0, 0) == {};
    } else {
      var total, before := Tickets(s), (k - 1) * Tickets(s);
      WindowsFair(s, w, k - 1);
      assert k * total == before + total && k * s[w].ticket == (k - 1) * s[w].ticket + s[w].ticket;
      RandomsSplit(s, w, 0, before, total);
      WindowFair(s, w, before);
    }
  }

  /**
   Over all n values of the generator each task wins for its share, up to one count of its
   tickets: the bias of taking the remainder. There is none when total divides n.
   */
  lemma GeneratorFair(s: seq<Task>, w: nat, n: nat)
    requires w < |s| && Tickets(s) > 0
    ensures var k, wins := n / Tickets(s), |WinningRandoms(s, w, 0, n)|;
            && k * s[w].ticket <= wins <= (k + 1) * s[w].ticket
            && (n % Tickets(s) == 0 ==> wins == k * s[w].ticket)
  {
    var total := Tickets(s);
    hide Tickets, ListDraw, Lucky, WinningRandoms;
    var k, rest := n / total, n % total;
    assert n == k * total + rest && (k + 1) * total == k * total + total;
    WindowsFair(s, w, k);
    WindowsFair(s, w, k + 1);
    RandomsSplit(s, w, 0, k * total, rest);
    RandomsSplit(s, w, 0, n, total - rest);
    if rest == 0 {
      NoRandoms(s, w, k * total);
    }
  }

  lemma NoRandoms(s: seq<Task>, w: nat, lo: nat)
    requires Tickets(s) > 0
    ensures |WinningRandoms(s, w, lo, 0)| == 0
  {
    assert WinningRandoms(s, w, lo, 0) == {};
  }

  lemma PickedIndex(s: seq<Task>, w: nat, lucky: nat)
    requires DistinctPids(s) && w < |s|
    ensures Picked(s, 0, lucky) == Some(s[w]) <==> ListDraw(s, 0, lucky, 0) == w
  {
    var i := ListDraw(s, 0, lucky, 0);
    if i >= 0 && i != w {
      assert s[i].pid != s[w].pid;
    }
  }

  /** The same of what the list draw answers. */
  lemma ListPickFair(s: seq<Task>, w: nat, lo: nat)
    requires DistinctPids(s) && w < |s| && Tickets(s) > 0
    ensures |set r | r in Window(lo, Tickets(s)) && ListPick(s, Tickets(s), r) == Some(s[w])| == s[w].ticket
  {
    var total := Tickets(s);
    hide Tickets, ListDraw, Picked, Lucky;
    var wins := set r | r in Window(lo, total) && ListPick(s, total, r) == Some(s[w]);
    forall r: nat ensures r in wins <==> r in WinningRandoms(s, w, lo, total) {
      PickedIndex(s, w, Lucky(r, total));
    }
    assert wins == WinningRandoms(s, w, lo, total);
    WindowFair(s, w, lo);
  }

  /** And of what the tree draw answers, for every shape. */
  lemma TreePickFair(t: Tree, w: nat, lo: nat)
    requires Accurate(t) && Agree(InOrder(t)) && DistinctPids(InOrder(t)) && w < |InOrder(t)| && AccuOf(t) > 0
    ensures |set r | r in Window(lo, AccuOf(t)) && TreePick(t, AccuOf(t), r) == Some(InOrder(t)[w])| == InOrder(t)[w].ticket
  {
    hide TreeDraw, ListDraw, Weight, InOrder, Tickets, Picked, Lucky;
    var s, total := InOrder(t), AccuOf(t);
    AccuIsWeight(t);
    TicketsIsWeight(s);
    forall r: nat ensures TreePick(t, total, r) == ListPick(s, total, r) {
      TreeDrawIsListDraw(t, 0, Lucky(r, total));
    }
    var wins := set r | r in Window(lo, total) && TreePick(t, total, r) == Some(s[w]);
    assert wins == set r | r in Window(lo, total) && ListPick(s, total, r) == Some(s[w]);
    ListPickFair(s, w, lo);
  }

  method PickWinnerTask(list: seq<Task>, total: nat, random: nat) returns (winner: Option<Task>)
    ensures winner == ListPick(list, total, random)
    ensures total == Tickets(list) > 0 ==> winner.Some? && winner.value in list
  {
    if total == 0 {
      return None;
    }
    var lucky := Lucky(random, total);
    if total == Tickets(list) {
      assert list[..0] == [];
      DrawWins(list, lucky, 0);
    }
    var sum: nat := 0;
    for i := 0 to |list|
      invariant ListDraw(list, 0, lucky, 0) == ListDraw(list, sum, lucky, i)
    {
      sum := sum + list[i].ticket;
      if sum >= lucky {
        return Some(list[i]);
      }
    }
    return None;
  }

  method PickWinnerRb(root: Tree, total: nat, random: nat) returns (winner: Option<Task>)
    ensures winner == TreePick(root, total, random)
  {
    if total == 0 {
      return None;
    }
    var lucky, leftTotal: nat, node := Lucky(random, total), 0, root;
    while node.Node?
      invariant TreeDraw(root, 0, lucky) == TreeDraw(node, leftTotal, lucky)
      decreases Height(node)
    {
      var soFar := 0;
      if node.left.Node? {
        if lucky <= node.left.accu + leftTotal {
          node := node.left;
          continue;
        }
        soFar := soFar + node.left.accu;
      }
      soFar := soFar + node.task.weight;
      if lucky <= soFar + leftTotal {
        return Some(node.task);
      }
      if node.right.Node? {
        leftTotal := leftTotal + soFar;
        node := node.right;
      } else {
        return None;
      }
    }
    return None;
  }

  // ----- the run queue in the tree configuration -----

  lemma {:induction false} WeightRemove(s: seq<Task>, k: nat)
    requires k < |s|
    ensures Weight(s[..k] + s[k + 1..]) == Weight(s) - s[k].weight
    ensures multiset(s[..k] + s[k + 1..]) == multiset(s) - multiset{s[k]}
  {
    assert s == s[..k] + [s[k]] + s[k + 1..];
    WeightNode(s[..k], s[k], s[k + 1..]);
    WeightAppend(s[..k], s[k + 1..]);
  }

  lemma LinkWeight(t: Tree, p: Task)
    requires Sorted(InOrder(t))
    ensures Weight(InOrder(Link(t, p))) == Weight(InOrder(t)) + p.weight && |InOrder(Link(t, p))| == |InOrder(t)| + 1
  {
    var k := LinkInOrder(t, p);
    var s := InOrder(t);
    WeightNode(s[..k], p, s[k..]);
    WeightAppend(s[..k], s[k..]);
    assert s == s[..k] + s[k..];
  }

  ghost predicate Healthy(s: seq<Task>) {
    Sorted(s) && DistinctPids(s) && Agree(s) && forall i :: 0 <= i < |s| ==> s[i].weight >= 1
  }

  ghost predicate Absent(s: seq<Task>, pid: nat) {
    forall i :: 0 <= i < |s| ==> s[i].pid != pid
  }

  lemma HealthySorted(s: seq<Task>)
    requires Healthy(s)
    ensures Sorted(s)
  {
  }

  lemma InsertHealthy(s: seq<Task>, k: nat, p: Task)
    requires Healthy(s) && Absent(s, p.pid) && p.ticket == p.weight >= 1 && k <= |s|
    requires Sorted(Insert(s, k, p))
    ensures Healthy(Insert(s, k, p))
  {
    hide Sorted;
    var u := Insert(s, k, p);
    forall i | 0 <= i < |u| ensures u[i] == if i < k then s[i] else if i == k then p else s[i - 1] {
    }
  }

  lemma LinkHealthy(t: Tree, p: Task)
    requires Healthy(InOrder(t)) && Absent(InOrder(t), p.pid) && p.ticket == p.weight >= 1
    ensures Healthy(InOrder(Link(t, p)))
  {
    hide Insert, Link, InOrder;
    var k := LinkInOrder(t, p);
    LinkSorted(t, p);
    InsertHealthy(InOrder(t), k, p);
  }

  lemma RemoveHealthy(s: seq<Task>, k: nat)
    requires Healthy(s) && k < |s|
    ensures Healthy(s[..k] + s[k + 1..]) && Absent(s[..k] + s[k + 1..], s[k].pid)
  {
    var u := s[..k] + s[k + 1..];
    forall i | 0 <= i < |u| ensures u[i] == if i < k then s[i] else s[i + 1] {
    }
  }

  lemma {:induction false} WeightPositive(s: seq<Task>)
    requires s != [] && forall i :: 0 <= i < |s| ==> s[i].weight >= 1
    ensures Weight(s) >= 1
  {
  }

  // ----- the queue as a plain book of tickets -----

  type Book = map<nat, nat>

  ghost function BookOf(s: seq<Task>): Book {
    if s == [] then map[] else BookOf(s[..|s| - 1])[s[|s| - 1].pid := s[|s| - 1].ticket]
  }

  lemma {:induction false} BookKeys(s: seq<Task>)
    ensures forall pid :: pid in BookOf(s) <==> !Absent(s, pid)
  {
    if s == [] {
    } else {
      var n := |s| - 1;
      BookKeys(s[..n]);
      forall pid ensures pid in BookOf(s) <==> !Absent(s, pid) {
        assert Absent(s, pid) <==> Absent(s[..n], pid) && s[n].pid != pid;
      }
    }
  }

  lemma {:induction false} BookInsert(s: seq<Task>, k: nat, p: Task)
    requires k <= |s| && Absent(s, p.pid)
    ensures BookOf(Insert(s, k, p)) == BookOf(s)[p.pid := p.ticket]
  {
    var n, u := |s|, Insert(s, k, p);
    if k == n {
      assert u[..n] == s && u[n] == p;
    } else {
      BookInsert(s[..n - 1], k, p);
      assert u[..n] == Insert(s[..n - 1], k, p) && u[n] == s[n - 1];
    }
  }

  lemma {:induction false} BookRemove(s: seq<Task>, k: nat)
    requires k < |s| && DistinctPids(s)
    ensures BookOf(s[..k] + s[k + 1..]) == BookOf(s) - {s[k].pid}
  {
    var n, u := |s| - 1, s[..k] + s[k + 1..];
    if k == n {
      assert u == s[..n];
      BookKeys(s[..n]);
      assert Absent(s[..n], s[n].pid);
    } else {
      BookRemove(s[..n], k);
      assert u[..n - 1] == s[..n][..k] + s[..n][k + 1..] && u[n - 1] == s[n];
    }
  }

  /** One event of a run; the trees are whatever the red-black code makes of the linked or erased tree. */
  datatype Event =
    | Enqueued(p: Task, shape: Tree)
    | Dequeued(pid: nat, shape: Tree)
    | Changed(pid: nat, priority: nat, erased: Tree, shape: Tree)
    | Drawn(random: nat)

  ghost function BookStep(b: Book, e: Event): Book {
    match e
    case Enqueued(p, _) => if p.pid !in b && p.ticket == p.weight >= 1 then b[p.pid := p.ticket] else b
    case Dequeued(pid, _) => b - {pid}
    case Changed(pid, priority, _, _) => if pid in b && 1 <= priority <= 99 then b[pid := priority] else b
    case Drawn(_) => b
  }

  ghost function BookAfter(b: Book, events: seq<Event>): Book {
    if events == [] then b else BookStep(BookAfter(b, events[..|events| - 1]), events[|events| - 1])
  }

  /** Some tree with the given in-order sequence. */
  function Spine(s: seq<Task>): (t: Tree)
    ensures InOrder(t) == s
  {
    if s == [] then Leaf else Node(Leaf, s[0], 0, Spine(s[1..]))
  }

  method FindPid(s: seq<Task>, pid: nat) returns (k: int)
    ensures -1 <= k < |s| && (k == -1 <==> Absent(s, pid)) && (k >= 0 ==> s[k].pid == pid)
  {
    for i := 0 to |s|
      invariant forall j :: 0 <= j < i ==> s[j].pid != pid
    {
      if s[i].pid == pid {
        return i;
      }
    }
    return -1;
  }

  class RunQueue {
    var root: Tree
    var totalTicket: nat
    var nrRunning: nat

    ghost function Queue(): seq<Task>
      reads this
    {
      InOrder(root)
    }

    ghost predicate Valid()
      reads this
    {
      && Accurate(root) && Healthy(Queue())
      && totalTicket == AccuOf(root) == Weight(Queue())
      && nrRunning == |Queue()|
    }

    constructor ()
      ensures Valid() && Queue() == []
    {
      root, totalTicket, nrRunning := Leaf, 0, 0;
    }

    /** enqueue_task_lottery; `balanced` is whatever rb_insert_color makes of the linked tree. */
    method Enqueue(p: Task, balanced: Tree)
      requires Valid() && Absent(Queue(), p.pid) && p.ticket == p.weight >= 1
      requires InOrder(balanced) == InOrder(Link(root, p))
      modifies this
      ensures Valid() && totalTicket == old(totalTicket) + p.ticket && nrRunning == old(nrRunning) + 1
      ensures Queue() == InOrder(Link(old(root), p)) && BookOf(Queue()) == old(BookOf(Queue()))[p.pid := p.ticket]
      ensures multiset(Queue()) == old(multiset(Queue())) + multiset{p}
    {
      hide Link, InOrder, Weight, UpdatePostorder, Sorted;
      LinkHealthy(root, p);
      LinkSorted(root, p);
      LinkWeight(root, p);
      ghost var k := LinkInOrder(root, p);
      BookInsert(InOrder(root), k, p);
      UpdateAccurate(balanced);
      var linked := LinkNode(root, p);
      assert InOrder(balanced) == InOrder(linked);
      root := UpdatePostorder(balanced);
      totalTicket := totalTicket + p.ticket;
      nrRunning := nrRunning + 1;
    }

    /** dequeue_task_lottery of the task at in-order position k; `balanced` is whatever rb_erase leaves. */
    method Dequeue(ghost k: nat, p: Task, balanced: Tree)
      requires Valid() && k < |Queue()| && Queue()[k] == p
      requires InOrder(balanced) == Queue()[..k] + Queue()[k + 1..]
      modifies this
      ensures Valid() && totalTicket == old(totalTicket) - p.ticket && nrRunning == old(nrRunning) - 1
      ensures Queue() == old(Queue()[..k] + Queue()[k + 1..]) && Absent(Queue(), p.pid)
      ensures BookOf(Queue()) == old(BookOf(Queue())) - {p.pid}
      ensures multiset(Queue()) == old(multiset(Queue())) - multiset{p}
    {
      hide InOrder, Weight, UpdatePostorder;
      RemoveHealthy(Queue(), k);
      WeightRemove(Queue(), k);
      BookRemove(Queue(), k);
      UpdateAccurate(balanced);
      root := UpdatePostorder(balanced);
      totalTicket := totalTicket - p.ticket;
      nrRunning := nrRunning - 1;
    }

    /**
     The lottery part of __sched_setscheduler for a queued task: take it out under its old
     count, set both copies of the count, put it back; prio_changed_lottery then stores the
     same priority once more.
     */
    method SetScheduler(ghost k: nat, p: Task, priority: nat, erased: Tree, balanced: Tree) returns (q: Task)
      requires Valid() && k < |Queue()| && Queue()[k] == p && 1 <= priority <= 99
      requires InOrder(erased) == Queue()[..k] + Queue()[k + 1..]
      requires InOrder(balanced) == InOrder(Link(UpdatePostorder(erased), Task(p.pid, priority, priority)))
      modifies this
      ensures Valid() && q == Task(p.pid, priority, priority)
      ensures totalTicket == old(totalTicket) - p.ticket + priority && nrRunning == old(nrRunning)
      ensures multiset(Queue()) == old(multiset(Queue())) - multiset{p} + multiset{q}
      ensures BookOf(Queue()) == old(BookOf(Queue())) - {p.pid} + map[p.pid := priority]
    {
      hide Link, InOrder, Weight, UpdatePostorder, Sorted, Accurate, BookOf, Healthy, Absent;
      ghost var book := BookOf(Queue());
      Dequeue(k, p, erased);
      HealthySorted(Queue());
      q := p.(ticket := priority, weight := priority);
      assert InOrder(Link(root, q)) == InOrder(Link(UpdatePostorder(erased), q)) by {
        LinkDepends(root, UpdatePostorder(erased), q);
      }
      Enqueue(q, balanced);
      assert (book - {p.pid})[p.pid := priority] == book - {p.pid} + map[p.pid := priority];
      q := q.(ticket := priority);
    }

    /** pick_next_task_lottery: a queue with tasks always has a winner, drawn fairly from it. */
    method Draw(random: nat) returns (winner: Option<Task>)
      requires Valid()
      ensures winner.Some? <==> Queue() != []
      ensures winner == ListPick(Queue(), totalTicket, random) && (winner.Some? ==> winner.value in Queue())
    {
      winner := PickWinnerRb(root, totalTicket, random);
      var s := Queue();
      if s != [] {
        WeightPositive(s);
        var lucky := Lucky(random, totalTicket);
        TreeDrawIsListDraw(root, 0, lucky);
        TicketsIsWeight(s);
        assert s[..0] == [];
        DrawWins(s, lucky, 0);
      }
    }

    /** One event; events that do not apply are ignored. */
    method Step(e: Event) returns (winner: Option<Task>)
      requires Valid()
      modifies this
      ensures Valid() && BookOf(Queue()) == BookStep(old(BookOf(Queue())), e)
      ensures e.Drawn? ==> (winner.None? <==> old(BookOf(Queue())) == map[])
      ensures e.Drawn? ==> Queue() == old(Queue()) && winner == ListPick(Queue(), totalTicket, e.random)
    {
      hide InOrder, Link, Accurate, Weight, UpdatePostorder, Healthy, Absent, BookOf, Sorted;
      winner := None;
      BookKeys(Queue());
      match e
      case Enqueued(p, shape) =>
        var k := FindPid(InOrder(root), p.pid);
        if k == -1 && p.ticket == p.weight >= 1 {
          var linked := LinkNode(root, p);
          Enqueue(p, if InOrder(shape) == InOrder(linked) then shape else linked);
        }
      case Dequeued(pid, shape) =>
        var s := InOrder(root);
        var k := FindPid(s, pid);
        assert k == -1 ==> BookOf(s) - {pid} == BookOf(s);
        if k >= 0 {
          var rest := s[..k] + s[k + 1..];
          Dequeue(k, s[k], if InOrder(shape) == rest then shape else Spine(rest));
        }
      case Changed(pid, priority, erased, shape) =>
        var s := InOrder(root);
        var k := FindPid(s, pid);
        if k >= 0 && 1 <= priority <= 99 {
          var rest := s[..k] + s[k + 1..];
          var out := if InOrder(erased) == rest then erased else Spine(rest);
          var linked := LinkNode(UpdatePostorder(out), Task(pid, priority, priority));
          ghost var book := BookOf(s);
          assert book - {pid} + map[pid := priority] == book[pid := priority];
          var _ := SetScheduler(k, s[k], priority, out, if InOrder(shape) == InOrder(linked) then shape else linked);
        }
      case Drawn(random) =>
        winner := Draw(random);
        EmptyBook(Queue());
    }

    /** Every run: the tree is always the sorted, correctly summed form of the plain book of tickets. */
    method Run(events: seq<Event>)
      requires Valid()
      modifies this
      ensures Valid() && BookOf(Queue()) == BookAfter(old(BookOf(Queue())), events)
    {
      hide Accurate, Healthy, BookOf, BookStep;
      for i := 0 to |events|
        invariant Valid() && BookOf(Queue()) == BookAfter(old(BookOf(Queue())), events[..i])
      {
        assert events[..i + 1][..i] == events[..i];
        var _ := Step(events[i]);
      }
      assert events[..|events|] == events;
    }
  }

  lemma EmptyBook(s: seq<Task>)
    ensures BookOf(s) == map[] <==> s == []
  {
    if s != [] {
      assert s[|s| - 1].pid in BookOf(s);
    }
  }

  /** Where a task is linked in order depends on the in-order sequence alone. */
  lemma LinkDepends(t: Tree, u: Tree, p: Task)
    requires Sorted(InOrder(t)) && InOrder(t) == InOrder(u)
    ensures InOrder(Link(t, p)) == InOrder(Link(u, p))
  {
    var k := LinkInOrder(t, p);
    var k' := LinkInOrder(u, p);
    var s := InOrder(t);
    assert k < |s| ==> p.weight < s[k].weight;
    assert k' < |s| ==> p.weight < s[k'].weight;
    assert k == k';
  }
}

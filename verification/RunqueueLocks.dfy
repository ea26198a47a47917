/**
 Run-queue locks. Any number of CPUs lock one queue, lock two with double_rq_lock, or
 lock a second one while holding the first with either variant of _double_lock_balance.
 Locks are numbered by the address order of their run queues.
 */
module RunqueueLocks {
  import opened Wrappers

  /** The locks a CPU holds, the one it spins on, and the one it will ask for right after that. */
  datatype Cpu = Cpu(held: set<nat>, want: Option<nat>, next: Option<nat>)

  type State = seq<Cpu>

  predicate Free(s: State, l: nat) {
    forall c :: 0 <= c < |s| ==> l !in s[c].held
  }

  datatype Event =
    | LockOne(c: nat, l: nat)
    | DoubleRqLock(c: nat, rq1: nat, rq2: nat)
    | BalanceFair(c: nat, thisRq: nat, busiest: nat)
    | BalanceUnfair(c: nat, thisRq: nat, busiest: nat)
    | Acquire(c: nat)
    | Unlock(c: nat, l: nat)

  /** double_rq_lock by a CPU that holds nothing: the lower lock first, then the higher one. */
  function Ordered(rq1: nat, rq2: nat): (r: Cpu) {
    if rq1 == rq2 then Cpu({}, Some(rq1), None)
    else if rq1 < rq2 then Cpu({}, Some(rq1), Some(rq2))
    else Cpu({}, Some(rq2), Some(rq1))
  }

  /** One step of one CPU; an event that is not possible in the state changes nothing. */
  function Step(s: State, e: Event): (r: State)
    ensures |r| == |s|
  {
    if e.c >= |s| then s
    else
      var cpu := s[e.c];
      match e
      case LockOne(c, l) =>
        if cpu.held == {} && cpu.want.None? then s[c := Cpu({}, Some(l), None)] else s
      case DoubleRqLock(c, rq1, rq2) =>
        if cpu.held == {} && cpu.want.None? then s[c := Ordered(rq1, rq2)] else s
      case BalanceFair(c, thisRq, busiest) =>
        // unlock thisRq, then double_rq_lock
        if cpu.held == {thisRq} && cpu.want.None? && thisRq != busiest then s[c := Ordered(thisRq, busiest)] else s
      case BalanceUnfair(c, thisRq, busiest) =>
        if !(cpu.held == {thisRq} && cpu.want.None? && thisRq != busiest) then s
        else if Free(s, busiest) then s[c := cpu.(held := {thisRq, busiest})]
        else if busiest < thisRq then s[c := Cpu({}, Some(busiest), Some(thisRq))]
        else s[c := cpu.(want := Some(busiest), next := None)]
      case Acquire(c) =>
        if cpu.want.Some? && Free(s, cpu.want.value)
        then s[c := Cpu(cpu.held + {cpu.want.value}, cpu.next, None)] else s
      case Unlock(c, l) =>
        if cpu.want.None? && l in cpu.held then s[c := cpu.(held := cpu.held - {l})] else s
  }

  function Run(s: State, events: seq<Event>): (r: State)
    ensures |r| == |s|
  {
    if events == [] then s else Step(Run(s, events[..|events| - 1]), events[|events| - 1])
  }

  ghost predicate Initial(s: State) {
    forall c :: 0 <= c < |s| ==> s[c] == Cpu({}, None, None)
  }

  // ----- the invariant -----

  /** A CPU that spins on a lock holds only lower-ordered ones, and will go on upwards. */
  ghost predicate Upward(cpu: Cpu) {
    && (cpu.want.Some? ==> forall h :: h in cpu.held ==> h < cpu.want.value)
    && (cpu.next.Some? ==> cpu.want.Some? && cpu.held == {} && cpu.want.value < cpu.next.value)
  }

  ghost predicate Inv(s: State) {
    && (forall c :: 0 <= c < |s| ==> Upward(s[c]))
    && (forall c, d, l :: 0 <= c < d < |s| && l in s[c].held ==> l !in s[d].held)
  }

  lemma StepInv(s: State, e: Event)
    requires Inv(s)
    ensures Inv(Step(s, e))
  {
  }

  lemma {:induction false} RunInv(s: State, events: seq<Event>)
    requires Initial(s)
    ensures Inv(Run(s, events))
  {
    if events == [] {
    } else {
      RunInv(s, events[..|events| - 1]);
      StepInv(Run(s, events[..|events| - 1]), events[|events| - 1]);
    }
  }

  // ----- what the locking functions end with -----

  /** The locks that a CPU holds, waits for or will ask for: what it will have when it goes on. */
  function Goal(cpu: Cpu): (locks: set<nat>) {
    cpu.held + (if cpu.want.Some? then {cpu.want.value} else {}) + (if cpu.next.Some? then {cpu.next.value} else {})
  }

  /** A step of one CPU leaves all others as they are. */
  lemma StepLocal(s: State, e: Event, d: nat)
    requires d < |s| && d != e.c
    ensures Step(s, e)[d] == s[d]
  {
  }

  /** A CPU that waits can do nothing but take the lock it waits for, when that is free; its goal stays. */
  lemma WaitingKeepsGoal(s: State, e: Event, c: nat)
    requires c < |s| && s[c].want.Some?
    ensures Goal(Step(s, e)[c]) == Goal(s[c])
    ensures e == Acquire(c) && Free(s, s[c].want.value) ==>
              Step(s, e)[c].held == s[c].held + {s[c].want.value} && Step(s, e)[c].want == s[c].next
    ensures !(e == Acquire(c) && Free(s, s[c].want.value)) ==> Step(s, e)[c] == s[c]
  {
  }

  /** Whatever the others do, a CPU that keeps waiting keeps its goal. */
  lemma {:induction false} GoalStays(s: State, events: seq<Event>, c: nat)
    requires c < |s| && forall k :: 0 <= k < |events| ==> Run(s, events[..k])[c].want.Some?
    ensures Goal(Run(s, events)[c]) == Goal(s[c])
  {
    if events == [] {
    } else {
      var n := |events| - 1;
      assert forall k :: 0 <= k < n ==> events[..n][..k] == events[..k];
      GoalStays(s, events[..n], c);
      WaitingKeepsGoal(Run(s, events[..n]), events[n], c);
    }
  }

  /** The locks a locking call is for, and whether the CPU is in a position to make it. */
  function Asked(e: Event): (locks: set<nat>) {
    match e
    case LockOne(_, l) => {l}
    case DoubleRqLock(_, rq1, rq2) => {rq1, rq2}
    case BalanceFair(_, thisRq, busiest) => {thisRq, busiest}
    case BalanceUnfair(_, thisRq, busiest) => {thisRq, busiest}
    case _ => {}
  }

  predicate MayCall(s: State, e: Event) {
    && e.c < |s| && s[e.c].want.None?
    && match e
       case LockOne(_, _) => s[e.c].held == {}
       case DoubleRqLock(_, _, _) => s[e.c].held == {}
       case BalanceFair(_, thisRq, busiest) => s[e.c].held == {thisRq} && thisRq != busiest
       case BalanceUnfair(_, thisRq, busiest) => s[e.c].held == {thisRq} && thisRq != busiest
       case _ => false
  }

  lemma CallSetsGoal(s: State, e: Event)
    requires Inv(s) && MayCall(s, e)
    ensures Goal(Step(s, e)[e.c]) == Asked(e)
  {
    assert Upward(s[e.c]);
  }

  /**
   From any reachable state: a CPU that calls double_rq_lock, either balance variant or a plain
   lock holds exactly the locks of that call as soon as it goes on, whatever the others do meanwhile.
   */
  lemma LocksAcquired(s: State, before: seq<Event>, e: Event, after: seq<Event>)
    requires Initial(s) && MayCall(Run(s, before), e)
    requires forall k :: 0 <= k < |after| ==> Run(Step(Run(s, before), e), after[..k])[e.c].want.Some?
    ensures var r := Run(Step(Run(s, before), e), after)[e.c];
            r.want.None? ==> r.held == Asked(e)
  {
    var s0 := Run(s, before);
    RunInv(s, before);
    CallSetsGoal(s0, e);
    StepInv(s0, e);
    GoalStays(Step(s0, e), after, e.c);
    RunKeepsInv(Step(s0, e), after);
    assert Upward(Run(Step(s0, e), after)[e.c]);
  }

  lemma {:induction false} RunKeepsInv(s: State, events: seq<Event>)
    requires Inv(s)
    ensures Inv(Run(s, events))
  {
    if events == [] {
    } else {
      RunKeepsInv(s, events[..|events| - 1]);
      StepInv(Run(s, events[..|events| - 1]), events[|events| - 1]);
    }
  }

  /** The unfair variant takes a free lock at once; else it keeps its own lock iff that is the lower one. */
  lemma UnfairKeeps(s: State, c: nat, thisRq: nat, busiest: nat)
    requires MayCall(s, BalanceUnfair(c, thisRq, busiest))
    ensures var r := Step(s, BalanceUnfair(c, thisRq, busiest))[c];
            if Free(s, busiest) then r.want.None? && r.held == {thisRq, busiest}
            else r.want == Some(busiest) && (thisRq in r.held <==> thisRq < busiest)
  {
  }

  /** Undisturbed, two acquisitions are enough, in either order of the arguments. */
  lemma BothLocked(a: nat, b: nat)
    requires a < b
    ensures var idle: State := [Cpu({}, None, None)];
            && Run(idle, [DoubleRqLock(0, a, b), Acquire(0), Acquire(0)]) == [Cpu({a, b}, None, None)]
            && Run(idle, [DoubleRqLock(0, b, a), Acquire(0), Acquire(0)]) == [Cpu({a, b}, None, None)]
  {
    var idle: State := [Cpu({}, None, None)];
    var first: State, second: State := [Cpu({}, Some(a), Some(b))], [Cpu({a}, Some(b), None)];
    ThreeSteps(idle, DoubleRqLock(0, a, b), Acquire(0), Acquire(0));
    ThreeSteps(idle, DoubleRqLock(0, b, a), Acquire(0), Acquire(0));
    assert Step(idle, DoubleRqLock(0, a, b)) == first == Step(idle, DoubleRqLock(0, b, a));
    assert Free(first, a) && {} + {a} == {a};
    assert Step(first, Acquire(0)) == second;
    assert Free(second, b) && {a} + {b} == {a, b};
  }

  lemma ThreeSteps(s: State, a: Event, b: Event, d: Event)
    ensures Run(s, [a, b, d]) == Step(Step(Step(s, a), b), d)
  {
    hide Step;
    assert [a, b, d][..2] == [a, b] && [a, b][..1] == [a] && [a][..0] == [];
    assert Run(s, [a]) == Step(s, a);
    assert Run(s, [a, b]) == Step(Step(s, a), b);
  }

  /** Unlocking gives up exactly that lock. */
  lemma UnlockGives(s: State, c: nat, l: nat)
    requires c < |s| && s[c].want.None? && l in s[c].held
    ensures Step(s, Unlock(c, l))[c].held == s[c].held - {l} && Step(s, Unlock(c, l))[c].want.None?
  {
  }

  // ----- no deadlock -----

  /** CPU c spins on a lock that CPU d holds. */
  ghost predicate WaitsFor(s: State, c: nat, d: nat) {
    c < |s| && d < |s| && s[c].want.Some? && s[c].want.value in s[d].held
  }

  /** Each CPU of the sequence waits for the next one. */
  ghost predicate Chain(s: State, cpus: seq<nat>) {
    forall i :: 0 <= i < |cpus| - 1 ==> WaitsFor(s, cpus[i], cpus[i + 1])
  }

  /** Along a chain of waiters the wanted locks rise strictly. */
  lemma {:induction false} ChainRises(s: State, cpus: seq<nat>, last: nat)
    requires Inv(s) && |cpus| >= 1 && Chain(s, cpus) && WaitsFor(s, cpus[|cpus| - 1], last)
    ensures WaitsFor(s, cpus[0], if |cpus| == 1 then last else cpus[1])
    ensures s[cpus[0]].want.value <= s[cpus[|cpus| - 1]].want.value
    ensures |cpus| > 1 ==> s[cpus[0]].want.value < s[cpus[|cpus| - 1]].want.value
  {
    if |cpus| == 1 {
    } else {
      assert WaitsFor(s, cpus[0], cpus[1]);
      ChainRises(s, cpus[1..], last);
      assert Upward(s[cpus[1]]);
    }
  }

  /** In no reachable state does a chain of waiters close to a cycle. */
  lemma NoCycle(s: State, events: seq<Event>, cpus: seq<nat>)
    requires Initial(s) && |cpus| >= 1
    ensures var r := Run(s, events);
            !(Chain(r, cpus) && WaitsFor(r, cpus[|cpus| - 1], cpus[0]))
  {
    var r := Run(s, events);
    RunInv(s, events);
    if Chain(r, cpus) && WaitsFor(r, cpus[|cpus| - 1], cpus[0]) {
      assert Upward(r[cpus[0]]);
      ChainRises(r, cpus, cpus[0]);
    }
  }

  /** A waiting CPU whose lock is the highest of all wanted ones. */
  lemma {:induction false} HighestWaiter(s: State, n: nat) returns (c: nat)
    requires n <= |s| && exists d :: 0 <= d < n && s[d].want.Some?
    ensures c < n && s[c].want.Some?
    ensures forall d :: 0 <= d < n && s[d].want.Some? ==> s[d].want.value <= s[c].want.value
    decreases n
  {
    if exists d :: 0 <= d < n - 1 && s[d].want.Some? {
      c := HighestWaiter(s, n - 1);
      if s[n - 1].want.Some? && s[n - 1].want.value > s[c].want.value {
        c := n - 1;
      }
    } else {
      c := n - 1;
    }
  }

  /** As long as some CPU waits, some CPU can go on: it can take its lock, or it runs and holds one. */
  lemma AlwaysProgress(s: State, events: seq<Event>)
    requires Initial(s)
    ensures var r := Run(s, events);
            (exists d :: 0 <= d < |r| && r[d].want.Some?) ==>
              exists c :: 0 <= c < |r| &&
                ((r[c].want.Some? && Free(r, r[c].want.value)) || (r[c].want.None? && r[c].held != {}))
  {
    var r := Run(s, events);
    RunInv(s, events);
    if exists d :: 0 <= d < |r| && r[d].want.Some? {
      var c := HighestWaiter(r, |r|);
      if !Free(r, r[c].want.value) {
        var owner :| 0 <= owner < |r| && r[c].want.value in r[owner].held;
        assert Upward(r[owner]);
        assert r[owner].want.None?;
      }
    }
  }
}

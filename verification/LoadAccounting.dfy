/**
 Two pieces of load accounting: the per-CPU counters of uninterruptible sleepers, which
 are only meaningful as a sum, and the decaying averages cpu_load[].
 */
module LoadAccounting {
  import opened Arithmetic

  // ----- nr_uninterruptible -----

  /** A task: its CPU, whether it is on that CPU's run queue, and whether its state contributes to load. */
  datatype Task = Task(cpu: nat, onRq: bool, contributes: bool)

  /** The counters are unsigned longs and wrap around below zero. */
  datatype State = State(counters: seq<nat>, tasks: seq<Task>)

  function Inc(x: nat): (r: nat) { (x + 1) % U64 }

  function Dec(x: nat): (r: nat) { (x - 1) % U64 }

  datatype Event =
    | SetOwnState(t: nat, contributes: bool)
    | Sleep(t: nat)
    | WakeFromSleep(t: nat, online: bool, thisCpu: nat, dest: nat)
    | FinishWake(t: nat)
    | WakeStillRunning(t: nat)
    | Pull(t: nat, dest: nat)
    | MoveSleeper(t: nat, dest: nat)
    | MergeOffline(src: nat, dest: nat)

  /** deactivate_task */
  function Deactivate(s: State, t: nat): (r: State)
    requires t < |s.tasks| && s.tasks[t].cpu < |s.counters|
  {
    var p := s.tasks[t];
    State(if p.contributes then s.counters[p.cpu := Inc(s.counters[p.cpu])] else s.counters,
          s.tasks[t := p.(onRq := false)])
  }

  /** activate_task */
  function Activate(s: State, t: nat): (r: State)
    requires t < |s.tasks| && s.tasks[t].cpu < |s.counters|
  {
    var p := s.tasks[t];
    State(if p.contributes then s.counters[p.cpu := Dec(s.counters[p.cpu])] else s.counters,
          s.tasks[t := p.(onRq := true)])
  }

  ghost predicate WellFormed(s: State) {
    && (forall c :: 0 <= c < |s.counters| ==> s.counters[c] < U64)
    && (forall t :: 0 <= t < |s.tasks| ==> s.tasks[t].cpu < |s.counters|)
  }

  /** One step; an event that is not possible in the state changes nothing. */
  function Step(s: State, e: Event): (r: State)
    requires WellFormed(s)
  {
    match e
    case SetOwnState(t, contributes) =>
      // a task changes its state while it is on its run queue
      if t < |s.tasks| && s.tasks[t].onRq then s.(tasks := s.tasks[t := s.tasks[t].(contributes := contributes)]) else s
    case Sleep(t) =>
      if t < |s.tasks| && s.tasks[t].onRq then Deactivate(s, t) else s
    case WakeFromSleep(t, online, thisCpu, dest) =>
      // try_to_wake_up up to set_task_cpu: fix the count, then the state is TASK_WAKING
      if t < |s.tasks| && !s.tasks[t].onRq && thisCpu < |s.counters| && dest < |s.counters| then
        var p := s.tasks[t];
        var c := if online then p.cpu else thisCpu;
        State(if p.contributes then s.counters[c := Dec(s.counters[c])] else s.counters,
              s.tasks[t := Task(dest, false, false)])
      else s
    case FinishWake(t) =>
      // the second half of try_to_wake_up, on the new CPU
      if t < |s.tasks| && !s.tasks[t].onRq && !s.tasks[t].contributes then Activate(s, t) else s
    case WakeStillRunning(t) =>
      // out_activate: the task has not left its CPU yet
      if t < |s.tasks| && !s.tasks[t].onRq then
        var a := Activate(s, t);
        a.(tasks := a.tasks[t := a.tasks[t].(contributes := false)])
      else s
    case Pull(t, dest) =>
      if t < |s.tasks| && s.tasks[t].onRq && dest < |s.counters| then
        var d := Deactivate(s, t);
        Activate(d.(tasks := d.tasks[t := d.tasks[t].(cpu := dest)]), t)
      else s
    case MoveSleeper(t, dest) =>
      if t < |s.tasks| && !s.tasks[t].onRq && dest < |s.counters| then s.(tasks := s.tasks[t := s.tasks[t].(cpu := dest)]) else s
    case MergeOffline(src, dest) =>
      // migrate_nr_uninterruptible: the dead CPU is not among the active ones
      if src < |s.counters| && dest < |s.counters| && src != dest then
        s.(counters := s.counters[dest := (s.counters[dest] + s.counters[src]) % U64][src := 0])
      else s
  }

  /** The task that an event is about, and whether the event is possible. */
  predicate Possible(s: State, e: Event) {
    match e
    case SetOwnState(t, _) => t < |s.tasks| && s.tasks[t].onRq
    case Sleep(t) => t < |s.tasks| && s.tasks[t].onRq
    case WakeFromSleep(t, _, thisCpu, dest) => t < |s.tasks| && !s.tasks[t].onRq && thisCpu < |s.counters| && dest < |s.counters|
    case FinishWake(t) => t < |s.tasks| && !s.tasks[t].onRq && !s.tasks[t].contributes
    case WakeStillRunning(t) => t < |s.tasks| && !s.tasks[t].onRq
    case Pull(t, dest) => t < |s.tasks| && s.tasks[t].onRq && dest < |s.counters|
    case MoveSleeper(t, dest) => t < |s.tasks| && !s.tasks[t].onRq && dest < |s.counters|
    case MergeOffline(src, dest) => src < |s.counters| && dest < |s.counters| && src != dest
  }

  /** Who runs where after an event: only the task it is about changes, and as the event says. */
  lemma StepTasks(s: State, e: Event)
    requires WellFormed(s) && Possible(s, e)
    ensures var r := Step(s, e);
            && |r.tasks| == |s.tasks|
            && (e.MergeOffline? ==> r.tasks == s.tasks && r.counters[e.src] == 0)
            && (!e.MergeOffline? ==>
                  && (forall u :: 0 <= u < |s.tasks| && u != e.t ==> r.tasks[u] == s.tasks[u])
                  && var p, q := s.tasks[e.t], r.tasks[e.t];
                  && (q.onRq <==> e.SetOwnState? || e.FinishWake? || e.WakeStillRunning? || e.Pull?)
                  && q.cpu == (if e.WakeFromSleep? || e.Pull? || e.MoveSleeper? then e.dest else p.cpu)
                  && (q.contributes <==>
                        if e.SetOwnState? then e.contributes else p.contributes && !e.WakeFromSleep? && !e.WakeStillRunning?))
  {
  }

  /** By how much an event changes the counter of CPU c, before wrapping. */
  function Change(s: State, e: Event, c: nat): (d: int)
    requires WellFormed(s) && Possible(s, e) && c < |s.counters|
  {
    match e
    case Sleep(t) => if s.tasks[t].contributes && s.tasks[t].cpu == c then 1 else 0
    case WakeFromSleep(t, online, thisCpu, _) =>
      if s.tasks[t].contributes && c == (if online then s.tasks[t].cpu else thisCpu) then -1 else 0
    case WakeStillRunning(t) => if s.tasks[t].contributes && s.tasks[t].cpu == c then -1 else 0
    case Pull(t, dest) =>
      var up: int, down: int := if s.tasks[t].cpu == c then 1 else 0, if dest == c then 1 else 0;
      if s.tasks[t].contributes then up - down else 0
    case MergeOffline(src, dest) =>
      var moved: int := s.counters[src];
      if c == dest then moved else if c == src then -moved else 0
    case _ => 0
  }

  lemma StepCounters(s: State, e: Event, c: nat)
    requires WellFormed(s) && Possible(s, e) && c < |s.counters|
    ensures |Step(s, e).counters| == |s.counters| && Step(s, e).counters[c] == (s.counters[c] + Change(s, e, c)) % U64
  {
  }

  function Sum(counters: seq<nat>): (n: nat) {
    if counters == [] then 0 else Sum(counters[..|counters| - 1]) + counters[|counters| - 1]
  }

  /** A task that is off its run queue in a state that contributes to load. */
  predicate Sleeper(p: Task) {
    !p.onRq && p.contributes
  }

  function Sleepers(tasks: seq<Task>): (n: nat)
    ensures n <= |tasks|
  {
    if tasks == [] then 0 else Sleepers(tasks[..|tasks| - 1]) + (if Sleeper(tasks[|tasks| - 1]) then 1 else 0)
  }

  lemma {:induction false} SumSet(counters: seq<nat>, c: nat, v: nat)
    requires c < |counters|
    ensures Sum(counters[c := v]) == Sum(counters) - counters[c] + v
  {
    var n := |counters| - 1;
    if c < n {
      assert counters[c := v][..n] == counters[..n][c := v];
      SumSet(counters[..n], c, v);
    } else {
      assert counters[c := v][..n] == counters[..n];
    }
  }

  lemma {:induction false} SleepersSet(tasks: seq<Task>, t: nat, p: Task)
    requires t < |tasks|
    ensures Sleepers(tasks[t := p]) ==
            Sleepers(tasks) - (if Sleeper(tasks[t]) then 1 else 0) + (if Sleeper(p) then 1 else 0)
  {
    var n := |tasks| - 1;
    if t < n {
      assert tasks[t := p][..n] == tasks[..n][t := p];
      SleepersSet(tasks[..n], t, p);
    } else {
      assert tasks[t := p][..n] == tasks[..n];
    }
  }

  /** Single counters may be anything; their sum, as an unsigned long, is the number of sleepers. */
  ghost predicate Balanced(s: State) {
    WellFormed(s) && (Sum(s.counters) - Sleepers(s.tasks)) % U64 == 0
  }

  /** The books change alike on both sides. */
  ghost predicate SameBooks(s: State, r: State) {
    WellFormed(r) && (Sum(r.counters) - Sleepers(r.tasks) - Sum(s.counters) + Sleepers(s.tasks)) % U64 == 0
  }

  lemma SameBooksBalanced(s: State, r: State)
    requires Balanced(s) && SameBooks(s, r)
    ensures Balanced(r)
  {
  }

  /** One counter and one task change; the counter by as much as the number of sleepers, modulo 2^64. */
  lemma OneChange(s: State, r: State, c: nat, v: nat, t: nat, p: Task)
    requires WellFormed(s) && c < |s.counters| && t < |s.tasks| && v < U64 && p.cpu < |s.counters|
    requires r == State(s.counters[c := v], s.tasks[t := p])
    requires (v - s.counters[c] - (if Sleeper(p) then 1 else 0) + (if Sleeper(s.tasks[t]) then 1 else 0)) % U64 == 0
    ensures SameBooks(s, r)
  {
    hide Sum, Sleepers;
    SumSet(s.counters, c, v);
    SleepersSet(s.tasks, t, p);
  }

  lemma DeactivateBalanced(s: State, t: nat)
    requires WellFormed(s) && t < |s.tasks| && s.tasks[t].onRq
    ensures SameBooks(s, Deactivate(s, t))
  {
    var p := s.tasks[t];
    var v := if p.contributes then Inc(s.counters[p.cpu]) else s.counters[p.cpu];
    assert s.counters[p.cpu := s.counters[p.cpu]] == s.counters;
    OneChange(s, Deactivate(s, t), p.cpu, v, t, p.(onRq := false));
  }

  lemma ActivateBalanced(s: State, t: nat)
    requires WellFormed(s) && t < |s.tasks| && !s.tasks[t].onRq
    ensures SameBooks(s, Activate(s, t))
  {
    var p := s.tasks[t];
    var v := if p.contributes then Dec(s.counters[p.cpu]) else s.counters[p.cpu];
    assert s.counters[p.cpu := s.counters[p.cpu]] == s.counters;
    OneChange(s, Activate(s, t), p.cpu, v, t, p.(onRq := true));
  }

  lemma TaskOnly(s: State, t: nat, p: Task)
    requires WellFormed(s) && t < |s.tasks| && p.cpu < |s.counters| && Sleeper(p) == Sleeper(s.tasks[t])
    ensures SameBooks(s, s.(tasks := s.tasks[t := p]))
  {
    hide Sum, Sleepers;
    SleepersSet(s.tasks, t, p);
  }

  lemma SameBooksTrans(s: State, r: State, u: State)
    requires SameBooks(s, r) && SameBooks(r, u)
    ensures SameBooks(s, u)
  {
    hide Sum, Sleepers, WellFormed;
  }

  lemma MergeBalanced(s: State, src: nat, dest: nat)
    requires WellFormed(s) && src < |s.counters| && dest < |s.counters| && src != dest
    ensures SameBooks(s, Step(s, MergeOffline(src, dest)))
  {
    hide Sum, Sleepers;
    var merged := (s.counters[dest] + s.counters[src]) % U64;
    SumSet(s.counters, dest, merged);
    SumSet(s.counters[dest := merged], src, 0);
  }

  /** Every step keeps the difference between the counters' sum and the number of sleepers. */
  lemma StepSameBooks(s: State, e: Event)
    requires WellFormed(s)
    ensures SameBooks(s, Step(s, e))
  {
    hide SameBooks, Deactivate, Activate, Inc, Dec;
    SelfBooks(s);
    match e
    case SetOwnState(t, contributes) =>
      if t < |s.tasks| && s.tasks[t].onRq {
        TaskOnly(s, t, s.tasks[t].(contributes := contributes));
      }
    case Sleep(t) =>
      if t < |s.tasks| && s.tasks[t].onRq {
        DeactivateBalanced(s, t);
      }
    case WakeFromSleep(t, online, thisCpu, dest) =>
      WakeBalanced(s, t, online, thisCpu, dest);
    case FinishWake(t) =>
      if t < |s.tasks| && !s.tasks[t].onRq {
        ActivateBalanced(s, t);
      }
    case WakeStillRunning(t) =>
      if t < |s.tasks| && !s.tasks[t].onRq {
        StillRunningBalanced(s, t);
      }
    case Pull(t, dest) =>
      if t < |s.tasks| && s.tasks[t].onRq && dest < |s.counters| {
        PullBalanced(s, t, dest);
      }
    case MoveSleeper(t, dest) =>
      if t < |s.tasks| && dest < |s.counters| {
        TaskOnly(s, t, s.tasks[t].(cpu := dest));
      }
    case MergeOffline(src, dest) =>
      if src < |s.counters| && dest < |s.counters| && src != dest {
        MergeBalanced(s, src, dest);
      }
  }

  lemma SelfBooks(s: State)
    requires WellFormed(s)
    ensures SameBooks(s, s)
  {
  }

  lemma WakeBalanced(s: State, t: nat, online: bool, thisCpu: nat, dest: nat)
    requires WellFormed(s)
    ensures SameBooks(s, Step(s, WakeFromSleep(t, online, thisCpu, dest)))
  {
    SelfBooks(s);
    if t < |s.tasks| && !s.tasks[t].onRq && thisCpu < |s.counters| && dest < |s.counters| {
      var p := s.tasks[t];
      var c := if online then p.cpu else thisCpu;
      var v := if p.contributes then Dec(s.counters[c]) else s.counters[c];
      assert s.counters[c := s.counters[c]] == s.counters;
      OneChange(s, Step(s, WakeFromSleep(t, online, thisCpu, dest)), c, v, t, Task(dest, false, false));
    }
  }

  lemma StillRunningBalanced(s: State, t: nat)
    requires WellFormed(s) && t < |s.tasks| && !s.tasks[t].onRq
    ensures SameBooks(s, Step(s, WakeStillRunning(t)))
  {
    hide Inc, Dec, Sum, Sleepers;
    ActivateBalanced(s, t);
    var a := Activate(s, t);
    TaskOnly(a, t, a.tasks[t].(contributes := false));
    SameBooksTrans(s, a, a.(tasks := a.tasks[t := a.tasks[t].(contributes := false)]));
  }

  lemma PullBalanced(s: State, t: nat, dest: nat)
    requires WellFormed(s) && t < |s.tasks| && s.tasks[t].onRq && dest < |s.counters|
    ensures SameBooks(s, Step(s, Pull(t, dest)))
  {
    hide Inc, Dec, Sum, Sleepers;
    DeactivateBalanced(s, t);
    var d := Deactivate(s, t);
    TaskOnly(d, t, d.tasks[t].(cpu := dest));
    var moved := d.(tasks := d.tasks[t := d.tasks[t].(cpu := dest)]);
    ActivateBalanced(moved, t);
    SameBooksTrans(s, d, moved);
    SameBooksTrans(s, moved, Activate(moved, t));
  }

  /** Every prefix of a run from idle counters. */
  ghost predicate IsRun(states: seq<State>, events: seq<Event>) {
    && |states| == |events| + 1
    && WellFormed(states[0])
    && (forall c :: 0 <= c < |states[0].counters| ==> states[0].counters[c] == 0)
    && (forall t :: 0 <= t < |states[0].tasks| ==> !Sleeper(states[0].tasks[t]))
    && forall i :: 0 <= i < |events| ==> WellFormed(states[i]) && states[i + 1] == Step(states[i], events[i])
  }

  lemma {:induction false} ZeroSum(counters: seq<nat>)
    requires forall c :: 0 <= c < |counters| ==> counters[c] == 0
    ensures Sum(counters) == 0
  {
    if counters == [] {
    } else {
      ZeroSum(counters[..|counters| - 1]);
    }
  }

  lemma {:induction false} ZeroSleepers(tasks: seq<Task>)
    requires forall t :: 0 <= t < |tasks| ==> !Sleeper(tasks[t])
    ensures Sleepers(tasks) == 0
  {
    if tasks == [] {
    } else {
      ZeroSleepers(tasks[..|tasks| - 1]);
    }
  }

  /** Over every run of sleeps, wake-ups, migrations and CPU-offline merges the books balance. */
  lemma {:induction false} RunBalanced(states: seq<State>, events: seq<Event>, n: nat)
    requires IsRun(states, events) && n <= |events|
    ensures Balanced(states[n])
  {
    if n == 0 {
      ZeroSum(states[0].counters);
      ZeroSleepers(states[0].tasks);
    } else {
      RunBalanced(states, events, n - 1);
      assert states[n - 1 + 1] == Step(states[n - 1], events[n - 1]);
      StepSameBooks(states[n - 1], events[n - 1]);
      SameBooksBalanced(states[n - 1], states[n]);
    }
  }

  /** nr_uninterruptible: the wrapped sum, clamped when it looks negative, is exactly the number of sleepers. */
  method NrUninterruptible(s: State) returns (n: int)
    requires Balanced(s) && |s.tasks| < 0x8000_0000_0000_0000
    ensures n == Sleepers(s.tasks)
  {
    hide Sum, Sleepers, WellFormed;
    assert Sum([]) == 0 by {
      ZeroSum([]);
    }
    assert s.counters[..0] == [];
    var sum := 0;
    for i := 0 to |s.counters|
      invariant sum == Sum(s.counters[..i]) % U64
    {
      SumTake(s.counters, i);
      sum := (sum + s.counters[i]) % U64;
    }
    assert s.counters[..|s.counters|] == s.counters;
    n := if sum >= 0x8000_0000_0000_0000 then 0 else sum;
  }

  lemma SumTake(counters: seq<nat>, i: nat)
    requires i < |counters|
    ensures Sum(counters[..i + 1]) == Sum(counters[..i]) + counters[i]
  {
    assert counters[..i + 1][..i] == counters[..i];
  }

  // ----- update_cpu_load -----

  function Scale(i: nat): (s: nat) {
    if i == 0 then 1 else 2 * Scale(i - 1)
  }

  /** The new average: rounded up while the load is rising. */
  function NextLoad(old': nat, load: nat, scale: nat): (r: nat)
    requires scale >= 1
  {
    Quotient(Product(old', scale - 1) + load + (if load > old' then scale - 1 else 0), scale)
  }

  function Product(a: nat, b: nat): (r: nat) {
    a * b
  }

  function Quotient(n: nat, d: nat): (r: nat)
    requires d > 0
  {
    n / d
  }

  method Average(oldLoad: nat, thisLoad: nat, scale: nat) returns (r: nat)
    requires scale >= 1
    ensures r == NextLoad(oldLoad, thisLoad, scale)
  {
    hide Quotient, Product;
    var newLoad := thisLoad;
    if newLoad > oldLoad {
      newLoad := newLoad + (scale - 1);
    }
    r := Quotient(Product(oldLoad, scale - 1) + newLoad, scale);
  }

  method UpdateCpuLoad(cpuLoad: array<nat>, thisLoad: nat)
    requires cpuLoad.Length == 5
    modifies cpuLoad
    ensures forall i :: 0 <= i < 5 ==> Scale(i) >= 1 && cpuLoad[i] == NextLoad(old(cpuLoad[i]), thisLoad, Scale(i))
    ensures Scale(0) == 1 && Scale(1) == 2 && Scale(2) == 4 && Scale(3) == 8 && Scale(4) == 16
  {
    hide NextLoad;
    assert Scale(1) == 2 * Scale(0) && Scale(2) == 2 * Scale(1) && Scale(3) == 2 * Scale(2) && Scale(4) == 2 * Scale(3);
    var scale := 1;
    for i := 0 to 5
      invariant scale == Scale(i) >= 1
      invariant forall j :: 0 <= j < i ==> Scale(j) >= 1 && cpuLoad[j] == NextLoad(old(cpuLoad[j]), thisLoad, Scale(j))
      invariant forall j :: i <= j < 5 ==> cpuLoad[j] == old(cpuLoad[j])
    {
      cpuLoad[i] := Average(cpuLoad[i], thisLoad, scale);
      scale := scale + scale;
    }
  }

  function Gap(a: nat, b: nat): (g: nat) {
    if a <= b then b - a else a - b
  }

  lemma {:induction false} ScalePositive(i: nat)
    ensures Scale(i) >= 1
  {
    if i == 0 {
    } else {
      ScalePositive(i - 1);
    }
  }

  /** g / s rounded up, with what is missing to the next multiple. */
  lemma RoundUp(g: nat, s: nat) returns (c: nat, missing: nat)
    requires s >= 1
    ensures s * c == g + missing && 0 <= missing < s && c <= g && (g > 0 ==> c > 0)
  {
    var q, r := g / s, g % s;
    assert g == s * q + r;
    if r == 0 {
      c, missing := q, 0;
    } else {
      c, missing := q + 1, s - r;
      assert s * (q + 1) == s * q + s;
    }
    RoundUpBound(g, s, c, missing);
  }

  lemma RoundUpBound(g: nat, s: nat, c: nat, missing: nat)
    requires s >= 1 && s * c == g + missing && missing < s
    ensures c <= g && (g > 0 ==> c > 0)
  {
    if c > g {
      MulAtLeast(c - g, s);
      assert (c - g) * s == s * c - s * g;
      if g > 0 {
        MulAtLeast(s, g);
      }
      assert false;
    }
    if c == 0 {
      assert s * c == 0;
    }
  }

  lemma ShrunkGap(g: nat, s: nat, c: nat, missing: nat)
    requires s >= 1 && s * c == g + missing && missing < s
    ensures g * (s - 1) / s == g - c
  {
    assert g * (s - 1) == g * s - g;
    assert (g - c) * s == g * s - s * c;
    QuotientUnique(g * (s - 1), s, g - c, missing);
  }

  lemma RisingTick(a: nat, g: nat, s: nat, c: nat, missing: nat)
    requires s >= 1 && s * c == g + missing && missing < s
    ensures (a * (s - 1) + (a + g) + (s - 1)) / s == a + c
  {
    assert a * (s - 1) == a * s - a;
    assert (a + c) * s == a * s + s * c;
    QuotientUnique(a * (s - 1) + (a + g) + (s - 1), s, a + c, s - 1 - missing);
  }

  lemma FallingTick(a: nat, g: nat, s: nat, c: nat, missing: nat)
    requires s >= 1 && s * c == g + missing && missing < s && g <= a
    ensures (a * (s - 1) + (a - g)) / s == a - c
  {
    assert a * (s - 1) == a * s - a;
    assert (a - c) * s == a * s - s * c;
    QuotientUnique(a * (s - 1) + (a - g), s, a - c, missing);
  }

  /**
   One tick at any scale: the distance to the load shrinks to exactly (scale - 1)/scale of
   itself, rounded down, and the average stays on its side.
   */
  lemma TickShrinksGap(old': nat, load: nat, s: nat)
    requires s >= 1
    ensures var new' := NextLoad(old', load, s);
            && Gap(new', load) == Gap(old', load) * (s - 1) / s
            && (old' <= load ==> old' <= new' <= load) && (old' >= load ==> load <= new' <= old')
            && (old' != load ==> Gap(new', load) < Gap(old', load))
  {
    var g := Gap(old', load);
    var c, missing := RoundUp(g, s);
    ShrunkGap(g, s, c, missing);
    if old' < load {
      RisingTick(old', g, s, c, missing);
    } else {
      FallingTick(old', g, s, c, missing);
    }
  }

  /** The average after n ticks under a constant load. */
  function AfterTicks(old': nat, load: nat, i: nat, n: nat): (r: nat)
    requires Scale(i) >= 1
    decreases n
  {
    if n == 0 then old' else AfterTicks(NextLoad(old', load, Scale(i)), load, i, n - 1)
  }

  /** It reaches the load exactly, after at most as many ticks as the distance was, and stays there. */
  lemma {:induction false} LoadConverges(old': nat, load: nat, i: nat, n: nat)
    requires n >= Gap(old', load)
    ensures Scale(i) >= 1 && AfterTicks(old', load, i, n) == load
    decreases n
  {
    hide NextLoad;
    ScalePositive(i);
    TickShrinksGap(old', load, Scale(i));
    if n == 0 {
    } else {
      LoadConverges(NextLoad(old', load, Scale(i)), load, i, n - 1);
    }
  }

  /** Without the rounding up, an average below the load would stay put iff it is closer than the scale. */
  lemma StuckWithoutRounding(old': nat, load: nat, s: nat)
    requires s >= 1 && old' <= load
    ensures (old' * (s - 1) + load) / s == old' <==> load - old' < s
  {
    var g := load - old';
    var q, r := g / s, g % s;
    assert g == s * q + r;
    assert old' * (s - 1) + load == (old' + q) * s + r;
    QuotientUnique(old' * (s - 1) + load, s, old' + q, r);
    if q == 0 {
      assert s * q == 0;
    } else {
      MulAtLeast(q, s);
    }
  }
}

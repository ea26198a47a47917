/**
 Completions: a counter of tokens and a FIFO of waiters. Every critical section under
 the wait-queue lock is one atomic step; between them the waiters go to sleep, wake up
 by timeouts and signals, and race with late arrivals for the tokens.
 */
module Completion {
  import opened Arithmetic

  const HALF := 0x7FFF_FFFF

  /**
   A queued waiter: Prepared has set its task state but is still on its run queue, Asleep is
   off the run queue, Awake runs (or will) and has yet to take the lock.
   */
  datatype Waiter = Prepared | Asleep | Awake

  datatype Completion = Completion(done: nat, queue: seq<Waiter>)

  // ----- __wake_up_common -----

  /** try_to_wake_up: the waiter runs afterwards; only one that was off the run queue counts as woken. */
  predicate Woken(w: Waiter) {
    w == Asleep
  }

  /** The scan from waiter i on; nr is the number of successful wake-ups left, 0 for all. */
  function WakeFrom(queue: seq<Waiter>, nr: int, i: nat): (r: seq<Waiter>)
    requires i <= |queue|
    ensures |r| == |queue|
    decreases |queue| - i
  {
    if i == |queue| then queue
    else if Woken(queue[i]) then
      if nr - 1 == 0 then queue[i := Awake] else WakeFrom(queue[i := Awake], nr - 1, i + 1)
    else WakeFrom(queue[i := Awake], nr, i + 1)
  }

  method WakeUpCommon(queue: seq<Waiter>, nrExclusive: int) returns (r: seq<Waiter>)
    ensures r == WakeFrom(queue, nrExclusive, 0)
  {
    r := queue;
    var nr := nrExclusive;
    for i := 0 to |queue|
      invariant |r| == |queue| && WakeFrom(r, nr, i) == WakeFrom(queue, nrExclusive, 0)
    {
      var success := Woken(r[i]);
      r := r[i := Awake];
      if success {
        nr := nr - 1;
        if nr == 0 {
          return;
        }
      }
    }
  }

  function Min(a: nat, b: nat): (m: nat) {
    if a <= b then a else b
  }

  function AwakeCount(queue: seq<Waiter>): (n: nat)
    ensures n <= |queue|
  {
    if queue == [] then 0 else AwakeCount(queue[..|queue| - 1]) + (if queue[|queue| - 1] == Awake then 1 else 0)
  }

  lemma {:induction false} AwakeSet(queue: seq<Waiter>, i: nat, w: Waiter)
    requires i < |queue|
    ensures AwakeCount(queue[i := w]) == AwakeCount(queue) - (if queue[i] == Awake then 1 else 0) + (if w == Awake then 1 else 0)
  {
    var n := |queue| - 1;
    if i < n {
      assert queue[i := w][..n] == queue[..n][i := w];
      AwakeSet(queue[..n], i, w);
    } else {
      assert queue[i := w][..n] == queue[..n];
    }
  }

  lemma AwakeAppend(queue: seq<Waiter>, w: Waiter)
    ensures AwakeCount(queue + [w]) == AwakeCount(queue) + (if w == Awake then 1 else 0)
  {
    assert (queue + [w])[..|queue|] == queue;
  }

  lemma {:induction false} AwakeRemove(queue: seq<Waiter>, i: nat)
    requires i < |queue|
    ensures AwakeCount(queue[..i] + queue[i + 1..]) == AwakeCount(queue) - (if queue[i] == Awake then 1 else 0)
  {
    var n, rest := |queue| - 1, queue[..i] + queue[i + 1..];
    if i < n {
      var shorter := queue[..n][..i] + queue[..n][i + 1..];
      assert rest == shorter + [queue[n]];
      AwakeRemove(queue[..n], i);
      AwakeAppend(shorter, queue[n]);
    } else {
      assert rest == queue[..n];
    }
  }

  lemma {:induction false} AllAwakeCount(queue: seq<Waiter>)
    requires forall i :: 0 <= i < |queue| ==> queue[i] == Awake
    ensures AwakeCount(queue) == |queue|
  {
    if queue == [] {
    } else {
      AllAwakeCount(queue[..|queue| - 1]);
    }
  }

  /** One wake-up: one more waiter is awake afterwards, unless all were. */
  lemma {:induction false} WakeOne(queue: seq<Waiter>, i: nat)
    requires i <= |queue| && forall j :: 0 <= j < i ==> queue[j] == Awake
    ensures AwakeCount(WakeFrom(queue, 1, i)) >= Min(AwakeCount(queue) + 1, |queue|)
    decreases |queue| - i
  {
    hide AwakeCount;
    if i == |queue| {
      AllAwakeCount(queue);
    } else {
      AwakeSet(queue, i, Awake);
      if !Woken(queue[i]) {
        WakeOne(queue[i := Awake], i + 1);
      }
    }
  }

  /** It is the first sleeper in queue order that is woken, and nobody behind it is touched. */
  lemma {:induction false} WakeFirst(queue: seq<Waiter>, i: nat, f: nat)
    requires i <= f < |queue| && queue[f] == Asleep && forall j :: i <= j < f ==> queue[j] != Asleep
    requires forall j :: 0 <= j < i ==> queue[j] == Awake
    ensures var r := WakeFrom(queue, 1, i);
            (forall j :: 0 <= j <= f ==> r[j] == Awake) && r[f + 1..] == queue[f + 1..]
    decreases |queue| - i
  {
    if i == f {
    } else {
      WakeFirst(queue[i := Awake], i + 1, f);
      assert queue[i := Awake][f + 1..] == queue[f + 1..];
    }
  }

  /** nr_exclusive == 0 never reaches zero when counted down, so everybody is woken. */
  lemma {:induction false} WakeAll(queue: seq<Waiter>, nr: int, i: nat)
    requires i <= |queue| && nr <= 0 && forall j :: 0 <= j < i ==> queue[j] == Awake
    ensures forall j :: 0 <= j < |queue| ==> WakeFrom(queue, nr, i)[j] == Awake
    decreases |queue| - i
  {
    if i == |queue| {
    } else {
      WakeAll(queue[i := Awake], if Woken(queue[i]) then nr - 1 else nr, i + 1);
    }
  }

  // ----- the steps -----

  /** What a waiter sees when it has the lock again. */
  datatype Event =
    | Complete
    | CompleteAll
    | TryWait
    | Arrive(signalPending: bool)
    | FallAsleep(i: nat)
    | Stir(i: nat)
    | Resume(i: nat, timeLeft: bool, signalPending: bool)

  function Take(c: Completion): (r: Completion)
    requires c.done > 0
  {
    c.(done := c.done - 1)
  }

  function Leave(c: Completion, i: nat): (r: Completion)
    requires i < |c.queue|
  {
    c.(queue := c.queue[..i] + c.queue[i + 1..])
  }

  /** One step; an event that is not possible in the state changes nothing. */
  function Step(c: Completion, e: Event): (r: Completion) {
    match e
    case Complete => Completion((c.done + 1) % U32, WakeFrom(c.queue, 1, 0))
    case CompleteAll => Completion((c.done + HALF) % U32, WakeFrom(c.queue, 0, 0))
    case TryWait => if c.done == 0 then c else Take(c)
    case Arrive(signalPending) =>
      // do_wait_for_common up to the first schedule_timeout
      if c.done > 0 then Take(c)
      else if signalPending then c
      else c.(queue := c.queue + [Prepared])
    case FallAsleep(i) =>
      if i < |c.queue| && c.queue[i] == Prepared then c.(queue := c.queue[i := Asleep]) else c
    case Stir(i) =>
      // a timeout or a signal makes the waiter run again
      if i < |c.queue| then c.(queue := c.queue[i := Awake]) else c
    case Resume(i, timeLeft, signalPending) =>
      // the rest of the loop of do_wait_for_common, once the waiter has the lock back
      if i >= |c.queue| || c.queue[i] != Awake then c
      else if c.done > 0 then Take(Leave(c, i))
      else if !timeLeft || signalPending then Leave(c, i)
      else c.(queue := c.queue[i := Prepared])
  }

  function Run(events: seq<Event>): (r: Completion) {
    if events == [] then Completion(0, []) else Step(Run(events[..|events| - 1]), events[|events| - 1])
  }

  // ----- what happened, counted from the events -----

  /** The event is a wait that gets a token. */
  predicate Succeeds(c: Completion, e: Event) {
    c.done > 0 && (e.TryWait? || e.Arrive? || (e.Resume? && e.i < |c.queue| && c.queue[e.i] == Awake))
  }

  /** The event is a waiter that joins the queue. */
  predicate Joins(c: Completion, e: Event) {
    e.Arrive? && c.done == 0 && !e.signalPending
  }

  /** The event is a waiter that leaves the queue, with a token or without. */
  predicate Leaves(c: Completion, e: Event) {
    e.Resume? && e.i < |c.queue| && c.queue[e.i] == Awake && (c.done > 0 || !e.timeLeft || e.signalPending)
  }

  function Completes(events: seq<Event>): (n: nat) {
    if events == [] then 0
    else Completes(events[..|events| - 1]) + if events[|events| - 1] == Complete then 1 else 0
  }

  function CompleteAlls(events: seq<Event>): (n: nat) {
    if events == [] then 0
    else CompleteAlls(events[..|events| - 1]) + if events[|events| - 1] == CompleteAll then 1 else 0
  }

  function Successes(events: seq<Event>): (n: nat) {
    if events == [] then 0
    else
      var before := events[..|events| - 1];
      Successes(before) + if Succeeds(Run(before), events[|events| - 1]) then 1 else 0
  }

  /** All tokens given so far. */
  function Given(events: seq<Event>): (n: nat) {
    Completes(events) + CompleteAlls(events) * HALF
  }

  /** The tokens that one event gives. */
  function Gift(e: Event): (n: nat) {
    if e == Complete then 1 else if e == CompleteAll then HALF else 0
  }

  function Taken(c: Completion, e: Event): (n: nat) {
    if Succeeds(c, e) then 1 else 0
  }

  lemma GivenNext(events: seq<Event>)
    requires events != []
    ensures Given(events) == Given(events[..|events| - 1]) + Gift(events[|events| - 1])
  {
    var n := CompleteAlls(events[..|events| - 1]);
    assert (n + 1) * HALF == n * HALF + HALF;
  }

  /** Waiters that have joined, less those that have left. */
  function Waiting(events: seq<Event>): (n: int) {
    if events == [] then 0
    else
      var before, e := events[..|events| - 1], events[|events| - 1];
      Waiting(before) + (if Joins(Run(before), e) then 1 else 0) - (if Leaves(Run(before), e) then 1 else 0)
  }

  // ----- what every step does to the queue -----

  /** f is the first sleeper. */
  ghost predicate FirstAsleep(queue: seq<Waiter>, f: nat) {
    f < |queue| && queue[f] == Asleep && forall j :: 0 <= j < f ==> queue[j] != Asleep
  }

  /** complete wakes the first sleeper, and everybody before it; nobody behind it is touched. Without a sleeper all are awake. */
  lemma CompleteWakes(c: Completion)
    ensures var r := Step(c, Complete).queue;
            && |r| == |c.queue|
            && (forall f :: FirstAsleep(c.queue, f) ==> (forall j :: 0 <= j <= f ==> r[j] == Awake) && r[f + 1..] == c.queue[f + 1..])
            && ((forall j :: 0 <= j < |c.queue| ==> c.queue[j] != Asleep) ==> forall j :: 0 <= j < |r| ==> r[j] == Awake)
    ensures Step(c, Complete).done == (c.done + 1) % 0x1_0000_0000
  {
    hide WakeFrom;
    forall f | FirstAsleep(c.queue, f)
      ensures var r := WakeFrom(c.queue, 1, 0);
              (forall j :: 0 <= j <= f ==> r[j] == Awake) && r[f + 1..] == c.queue[f + 1..]
    {
      WakeFirst(c.queue, 0, f);
    }
    if forall j :: 0 <= j < |c.queue| ==> c.queue[j] != Asleep {
      WakeNoSleeper(c.queue, 0);
    }
  }

  lemma {:induction false} WakeNoSleeper(queue: seq<Waiter>, i: nat)
    requires i <= |queue| && (forall j :: 0 <= j < i ==> queue[j] == Awake) && forall j :: 0 <= j < |queue| ==> queue[j] != Asleep
    ensures forall j :: 0 <= j < |queue| ==> WakeFrom(queue, 1, i)[j] == Awake
    decreases |queue| - i
  {
    if i == |queue| {
    } else {
      WakeNoSleeper(queue[i := Awake], i + 1);
    }
  }

  /** complete_all wakes everybody. */
  lemma CompleteAllWakes(c: Completion)
    ensures var r := Step(c, CompleteAll).queue;
            |r| == |c.queue| && forall j :: 0 <= j < |r| ==> r[j] == Awake
    ensures Step(c, CompleteAll).done == (c.done + 0x7FFF_FFFF) % 0x1_0000_0000
  {
    WakeAll(c.queue, 0, 0);
  }

  /** What becomes of a waiter that stays in its place. */
  function Moved(e: Event, j: nat, w: Waiter): (r: Waiter) {
    if e.FallAsleep? && j == e.i && w == Prepared then Asleep
    else if e.Stir? && j == e.i then Awake
    else if e.Resume? && j == e.i && w == Awake then Prepared
    else w
  }

  /** Every other event: the waiter it is about moves on as it must, and the order of the others stays. */
  lemma OthersMove(c: Completion, e: Event)
    requires !e.Complete? && !e.CompleteAll?
    ensures var q, r := c.queue, Step(c, e).queue;
            && (Joins(c, e) ==> |r| == |q| + 1 && r[..|q|] == q && r[|q|] == Prepared)
            && (Leaves(c, e) ==> |r| == |q| - 1 && r[..e.i] == q[..e.i] && r[e.i..] == q[e.i + 1..])
            && (!Joins(c, e) && !Leaves(c, e) ==>
                  && |r| == |q|
                  && forall j :: 0 <= j < |q| ==> r[j] == Moved(e, j, q[j]))
  {
  }

  // ----- what every step keeps -----

  /** No token is without an awake waiter to take it, as long as there are waiters. */
  ghost predicate NoLostWakeUp(c: Completion) {
    AwakeCount(c.queue) >= Min(c.done, |c.queue|)
  }

  /** Tokens are neither lost nor made up, modulo the width of the counter, and nobody is lost from the queue. */
  ghost predicate Conserved(events: seq<Event>) {
    var c := Run(events);
    && c.done < U32 && |c.queue| == Waiting(events)
    && Given(events) % U32 == (c.done + Successes(events)) % U32
  }

  lemma StepNoLost(c: Completion, e: Event)
    requires NoLostWakeUp(c)
    ensures NoLostWakeUp(Step(c, e))
  {
    hide WakeFrom, AwakeCount;
    match e
    case Complete =>
      WakeOne(c.queue, 0);
    case CompleteAll =>
      WakeAll(c.queue, 0, 0);
      AllAwakeCount(WakeFrom(c.queue, 0, 0));
    case TryWait =>
    case Arrive(_) =>
      AwakeAppend(c.queue, Prepared);
    case FallAsleep(i) =>
      if i < |c.queue| {
        AwakeSet(c.queue, i, Asleep);
      }
    case Stir(i) =>
      if i < |c.queue| {
        AwakeSet(c.queue, i, Awake);
      }
    case Resume(i, _, _) =>
      if i < |c.queue| {
        AwakeRemove(c.queue, i);
        AwakeSet(c.queue, i, Prepared);
      }
  }

  /** What one step does to the counter and to the length of the queue. */
  lemma StepCounts(c: Completion, e: Event)
    requires c.done < U32
    ensures var r := Step(c, e);
            && r.done == (c.done + Gift(e) - Taken(c, e)) % U32
            && |r.queue| == |c.queue| + (if Joins(c, e) then 1 else 0) - (if Leaves(c, e) then 1 else 0)
  {
    hide WakeFrom;
  }

  lemma {:induction false} AllConserved(events: seq<Event>)
    ensures Conserved(events)
  {
    if events == [] {
    } else {
      hide Step, Succeeds, Joins, Leaves, Given, Gift;
      var n := |events| - 1;
      var before, e := events[..n], events[n];
      AllConserved(before);
      StepCounts(Run(before), e);
      GivenNext(events);
      ModStep(Given(before), Run(before).done, Successes(before), Gift(e), Taken(Run(before), e));
    }
  }

  lemma ModStep(a: nat, done: nat, taken: nat, k: nat, t: nat)
    requires a % U32 == (done + taken) % U32
    ensures (a + k) % U32 == ((done + k - t) % U32 + taken + t) % U32
  {
  }

  /**
   In every interleaving of complete, complete_all, waiters, late arrivals, timeouts and
   signals: enough waiters are awake for the tokens there are, and tokens and waiters are conserved.
   */
  lemma {:induction false} RunKeeps(events: seq<Event>)
    ensures NoLostWakeUp(Run(events)) && Conserved(events)
  {
    hide Step, NoLostWakeUp, Conserved;
    AllConserved(events);
    if events == [] {
      EmptyNoLost();
    } else {
      RunKeeps(events[..|events| - 1]);
      StepNoLost(Run(events[..|events| - 1]), events[|events| - 1]);
    }
  }

  lemma EmptyNoLost()
    ensures NoLostWakeUp(Completion(0, []))
  {
  }

  /** Below the width of the counter nothing wraps. */
  lemma NoWrap(given: nat, done: nat, taken: nat, gift: nat, take: nat)
    requires given == done + taken && given + gift < U32 && take <= done + gift
    ensures (done + gift - take) % U32 == done + gift - take
  {
  }

  lemma SucceedsNeedsToken(c: Completion, e: Event)
    ensures Taken(c, e) <= c.done && (Taken(c, e) > 0 ==> Gift(e) == 0)
  {
  }

  /** Below 2^32 tokens given, they are exactly the tokens there are plus the successful waits. */
  lemma {:induction false} GivenBalance(events: seq<Event>)
    requires Given(events) < U32
    ensures Given(events) == Run(events).done + Successes(events)
  {
    if events == [] {
    } else {
      hide Step, Succeeds, Given, Gift;
      var n := |events| - 1;
      var before, e := events[..n], events[n];
      GivenNext(events);
      GivenBalance(before);
      AllConserved(before);
      StepCounts(Run(before), e);
      SucceedsNeedsToken(Run(before), e);
      NoWrap(Given(before), Run(before).done, Successes(before), Gift(e), Taken(Run(before), e));
    }
  }

  /** Without complete_all and below 2^32 completions, completions are exactly tokens plus successful waits. */
  lemma ExactBalance(events: seq<Event>)
    requires CompleteAlls(events) == 0 && Completes(events) < U32
    ensures Completes(events) == Run(events).done + Successes(events)
  {
    GivenBalance(events);
  }

  /** A token and a waiter never sit idle together: somebody awake will come for the token. */
  lemma SomebodyComes(events: seq<Event>)
    ensures var c := Run(events);
            c.done > 0 && c.queue != [] ==> exists i :: 0 <= i < |c.queue| && c.queue[i] == Awake
  {
    RunKeeps(events);
    var c := Run(events);
    if c.done > 0 && c.queue != [] {
      AwakeExists(c.queue);
    }
  }

  /** And when it comes it gets the token and leaves, whether its time is up or not. */
  lemma ComerGets(c: Completion, i: nat, timeLeft: bool, signalPending: bool)
    requires i < |c.queue| && c.queue[i] == Awake && 0 < c.done < U32
    ensures var e := Resume(i, timeLeft, signalPending);
            Succeeds(c, e) && Leaves(c, e) && Step(c, e).done == c.done - 1
  {
  }

  lemma {:induction false} AwakeExists(queue: seq<Waiter>)
    requires AwakeCount(queue) > 0
    ensures exists i :: 0 <= i < |queue| && queue[i] == Awake
  {
    var n := |queue| - 1;
    if queue[n] != Awake {
      AwakeExists(queue[..n]);
      var i :| 0 <= i < n && queue[..n][i] == Awake;
      assert queue[i] == Awake;
    }
  }
}

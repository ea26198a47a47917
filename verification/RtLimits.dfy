/**
 The global real-time limit and the task groups under it, step by step.

 sched_rt_handler stores a new limit, then checks it, then keeps it or takes it back, all
 under a mutex of its own. tg_set_bandwidth holds another mutex, rt_constraints_mutex, from
 its walk over the tree until the new values are installed; the check of the handler takes
 that one for its walk only. So group changes can fall between the steps of the handler.
 */
module RtLimits {
  import opened Wrappers
  import opened Arithmetic
  import opened GroupWalk
  import opened RtBandwidth

  // ----- the limit -----

  /** The two sysctl variables, in microseconds: an unsigned int and an int. */
  datatype RawKnobs = Knobs(periodUs: nat, runtimeUs: int)

  type Limits = k: RawKnobs | k.periodUs < U32 && k.runtimeUs < 0x8000_0000 witness Knobs(0, 0)

  /** global_rt_period and global_rt_runtime. */
  function GlobalBw(k: Limits): (bw: Bandwidth)
    requires k.periodUs > 0
  {
    Bw(k.periodUs * NSEC_PER_USEC, if k.runtimeUs < 0 then RUNTIME_INF else k.runtimeUs * NSEC_PER_USEC)
  }

  /** The ratio of the global limit; none when to_ratio would divide by zero. */
  function LimitOf(k: Limits): (limit: Option<nat>)
    ensures limit.None? <==> k.periodUs == 0 && k.runtimeUs >= 0
  {
    if k.runtimeUs < 0 then Some(0x10_0000)
    else if k.periodUs == 0 then None
    else Some(ToRatio(GlobalBw(k)))
  }

  /** A sane limit is the quotient of runtime and period, rounded down; a negative runtime is the whole. */
  lemma LimitValue(k: Limits)
    requires Sane(k)
    ensures k.runtimeUs < 0 ==> LimitOf(k) == Some(0x10_0000)
    ensures k.runtimeUs >= 0 ==>
              LimitOf(k).Some? && LimitOf(k).value * k.periodUs <= k.runtimeUs * 0x10_0000 < (LimitOf(k).value + 1) * k.periodUs
  {
    if k.runtimeUs >= 0 {
      var bw, r := GlobalBw(k), LimitOf(k).value;
      ToRatioValue(bw);
      assert bw.runtime * 0x10_0000 % U64 == bw.runtime * 0x10_0000;
      assert r * bw.period == r * k.periodUs * NSEC_PER_USEC;
      assert (r + 1) * bw.period == (r + 1) * k.periodUs * NSEC_PER_USEC;
      assert bw.runtime * 0x10_0000 == k.runtimeUs * 0x10_0000 * NSEC_PER_USEC;
    }
  }

  ghost predicate Within(ratio: nat, k: Limits) {
    LimitOf(k).Some? && ratio <= LimitOf(k).value
  }

  /** The tests of sched_rt_global_constraints before its walk. */
  predicate Sane(k: Limits) {
    0 < k.periodUs && k.runtimeUs <= k.periodUs
  }

  /** The walk of the limit's own check, with no group changed. */
  function Checking(k: Limits, hasRtTasks: Path -> bool): (d: Trial) {
    Trial(None, Bw(1, 0), LimitOf(k), k.runtimeUs >= 0, hasRtTasks)
  }

  /** A limit that is sane and that the tree fits without starving anybody. */
  ghost predicate Admissible(root: Tg, k: Limits, hasRtTasks: Path -> bool) {
    && Sane(k)
    && Fits(root, LimitOf(k).value)
    && NoStarving(root, [], Checking(k, hasRtTasks))
  }

  function Asking(path: Path, asked: Bandwidth, k: Limits, hasRtTasks: Path -> bool): (d: Trial) {
    Trial(Some(path), asked, LimitOf(k), k.runtimeUs >= 0, hasRtTasks)
  }

  /** A group may be given new values: the changed tree fits the limit and starves nobody. */
  ghost predicate Admits(root: Tg, path: Path, asked: Bandwidth, k: Limits, hasRtTasks: Path -> bool)
    requires IsPath(root, path)
  {
    && LimitOf(k).Some?
    && Fits(Update(root, path, asked), LimitOf(k).value)
    && NoStarving(Update(root, path, asked), [], Asking(path, asked, k, hasRtTasks))
  }

  /** A runtime of -1 is not admitted while the limit in the sysctl variables, or a group above, has less than the whole. */
  lemma UnlimitedNotAdmitted(root: Tg, path: Path, period: nat, k: Limits, hasRtTasks: Path -> bool, n: nat)
    requires IsPath(root, path) && 0 < period < U64 && n <= |path|
    requires (LimitOf(k).Some? && LimitOf(k).value < 0x10_0000)
             || (n < |path| && IsPath(root, path[..n]) && ToRatio(At(root, path[..n]).data) < 0x10_0000)
    ensures !Admits(root, path, Bw(period, RUNTIME_INF), k, hasRtTasks)
  {
    if LimitOf(k).Some? {
      UnlimitedRefused(root, path, period, LimitOf(k).value, n);
    }
  }

  // ----- the state and its steps -----

  /** Where sched_rt_handler is: not running, or past storing, or past checking; `former` is what it would restore. */
  datatype Handler = Idle | Published(former: Limits) | Checked(former: Limits, ok: bool)

  /** A change that tg_set_bandwidth has admitted and not installed yet; quiet if the handler was idle at its walk. */
  datatype Pending = Pending(path: Path, asked: Bandwidth, quiet: bool)

  datatype State = State(root: Tg, knobs: Limits, defPeriod: nat, handler: Handler, pending: Option<Pending>, trapped: bool)

  datatype Op =
    | Ask(path: Path, asked: Bandwidth, has: Path -> bool)
    | Install
    | Create(path: Path)
    | Publish(knobs: Limits)
    | Validate(has: Path -> bool)
    | Finish

  /** An admitted change is of a group, not of a place: a new sibling before it moves its path. */
  function Moved(pending: Option<Pending>, path: Path): (r: Option<Pending>)
    ensures r.Some? <==> pending.Some?
  {
    if pending.None? then None else Some(pending.value.(path := Shifted(pending.value.path, path)))
  }

  /** The limit in force as far as the administrator is concerned. */
  function InForce(s: State): (k: Limits) {
    if s.handler.Idle? then s.knobs else s.handler.former
  }

  ghost predicate WellFormed(s: State) {
    && Sane(InForce(s)) && 0 < s.defPeriod < U64
    && (s.handler.Checked? && s.handler.ok ==> Sane(s.knobs))
    && (s.pending.Some? ==> IsPath(s.root, s.pending.value.path))
  }

  /** One step; a step that is not possible in the state, or that has to wait for a mutex, changes nothing. */
  ghost function Next(s: State, op: Op): (r: State)
    requires WellFormed(s)
    ensures WellFormed(r)
  {
    if s.trapped then s
    else
      match op
      case Ask(path, asked, has) =>
        if s.pending.Some? || !IsPath(s.root, path) then s
        else if LimitOf(s.knobs).None? then
          s.(trapped := RootDivides(s.root, Asking(path, asked, s.knobs, has)))
        else if Admits(s.root, path, asked, s.knobs, has) then
          s.(pending := Some(Pending(path, asked, s.handler.Idle?)))
        else s
      case Install =>
        if s.pending.None? then s
        else s.(root := Update(s.root, s.pending.value.path, s.pending.value.asked), pending := None)
      case Create(path) =>
        // sched_create_group takes neither mutex
        if !IsPath(s.root, path) then s
        else
          var kid := Group(Bw(s.defPeriod, 0), []);
          assert s.pending.Some? ==> IsPath(AddKid(s.root, path, kid), Shifted(s.pending.value.path, path)) by {
            if s.pending.Some? {
              CreateCommutes(s.root, path, kid, s.pending.value.path, s.pending.value.asked);
            }
          }
          s.(root := AddKid(s.root, path, kid), pending := Moved(s.pending, path))
      case Publish(knobs) =>
        if !s.handler.Idle? then s else s.(handler := Published(s.knobs), knobs := knobs)
      case Validate(has) =>
        if !s.handler.Published? then s
        else if !Sane(s.knobs) then s.(handler := Checked(s.handler.former, false))
        else if s.pending.Some? then s
        else s.(handler := Checked(s.handler.former, Admissible(s.root, s.knobs, has)))
      case Finish =>
        if !s.handler.Checked? then s
        else if s.handler.ok then s.(handler := Idle, defPeriod := s.knobs.periodUs * NSEC_PER_USEC)
        else s.(handler := Idle, knobs := s.handler.former)
  }

  ghost function After(s: State, ops: seq<Op>): (r: State)
    requires WellFormed(s)
    ensures WellFormed(r)
  {
    if ops == [] then s else Next(After(s, ops[..|ops| - 1]), ops[|ops| - 1])
  }

  /** Between operations, with the tree within the limit in force. */
  ghost predicate Settled(s: State) {
    && WellFormed(s) && s.handler.Idle? && s.pending.None? && !s.trapped
    && Fits(s.root, LimitOf(s.knobs).value)
  }

  // ----- what a change in the handler's window leaves behind -----

  /**
   What the root group was last given by a change that was admitted while the handler was
   not idle; nothing if a change admitted under a quiet limit, or a committed limit, came after it.
   */
  ghost function Suspect(s: State, ops: seq<Op>): (r: Option<Bandwidth>)
    requires WellFormed(s)
  {
    if ops == [] then None
    else
      var before, rest := After(s, ops[..|ops| - 1]), Suspect(s, ops[..|ops| - 1]);
      if before.trapped then rest
      else
        match ops[|ops| - 1]
        case Install =>
          if before.pending.None? || before.pending.value.path != [] then rest
          else if before.pending.value.quiet then None
          else Some(before.pending.value.asked)
        case Finish => if before.handler.Checked? && before.handler.ok then None else rest
        case _ => rest
  }

  ghost function RootRatio(s: State): nat {
    ToRatio(s.root.data)
  }

  /** The invariant of every run. */
  ghost predicate Inv(s: State, suspect: Option<Bandwidth>) {
    && WellFormed(s) && Nested(s.root)
    && (suspect.Some? ==> s.root.data == suspect.value)
    && (suspect.None? ==> Within(RootRatio(s), InForce(s)))
    && (s.handler.Checked? && s.handler.ok ==> Within(RootRatio(s), s.knobs))
    && (s.pending.Some? ==>
          && Nested(Update(s.root, s.pending.value.path, s.pending.value.asked))
          && (s.pending.value.quiet && s.pending.value.path == [] ==> Within(ToRatio(s.pending.value.asked), InForce(s)))
          && (s.pending.value.quiet ==> !s.handler.Checked? || !s.handler.ok)
          && (s.handler.Checked? && s.handler.ok && s.pending.value.path == [] ==> Within(ToRatio(s.pending.value.asked), s.knobs)))
  }

  lemma UpdateRoot(t: Tg, path: Path, bw: Bandwidth)
    requires IsPath(t, path)
    ensures Update(t, path, bw).data == if path == [] then bw else t.data
  {
  }

  lemma AskKeeps(s: State, suspect: Option<Bandwidth>, op: Op)
    requires Inv(s, suspect) && op.Ask?
    ensures Inv(Next(s, op), suspect)
  {
    hide Nested, Fits, ToRatio, NoStarving, Update, LimitOf;
    if IsPath(s.root, op.path) && LimitOf(s.knobs).Some? {
      var u := Update(s.root, op.path, op.asked);
      FitsIff(u, LimitOf(s.knobs).value);
      UpdateRoot(s.root, op.path, op.asked);
    }
  }

  lemma InstallKeeps(s: State, suspect: Option<Bandwidth>)
    requires Inv(s, suspect) && !s.trapped && s.pending.Some?
    ensures var p := s.pending.value;
            Inv(Next(s, Install), if p.path != [] then suspect else if p.quiet then None else Some(p.asked))
  {
    hide Nested, ToRatio, Update, LimitOf;
    UpdateRoot(s.root, s.pending.value.path, s.pending.value.asked);
  }

  lemma CreateKeeps(s: State, suspect: Option<Bandwidth>, op: Op)
    requires Inv(s, suspect) && op.Create?
    ensures Inv(Next(s, op), suspect)
  {
    hide Nested, ToRatio, LimitOf, Update;
    if IsPath(s.root, op.path) {
      AddKidNested(s.root, op.path, s.defPeriod);
      if s.pending.Some? {
        var p, kid := s.pending.value, Group(Bw(s.defPeriod, 0), []);
        CreateCommutes(s.root, op.path, kid, p.path, p.asked);
        AddKidNested(Update(s.root, p.path, p.asked), op.path, s.defPeriod);
      }
    }
  }

  lemma HandlerKeeps(s: State, suspect: Option<Bandwidth>, op: Op)
    requires Inv(s, suspect) && !s.trapped && (op.Publish? || op.Validate? || op.Finish?)
    ensures Inv(Next(s, op), if op.Finish? && s.handler.Checked? && s.handler.ok then None else suspect)
  {
    hide Nested, Fits, ToRatio, NoStarving, Update, LimitOf;
    if LimitOf(s.knobs).Some? {
      FitsIff(s.root, LimitOf(s.knobs).value);
    }
  }

  lemma {:induction false} RunKeeps(s: State, ops: seq<Op>)
    requires Settled(s)
    ensures Inv(After(s, ops), Suspect(s, ops))
  {
    hide Nested, Fits, Next, ToRatio, LimitOf, Inv;
    if ops == [] {
      StartInv(s);
    } else {
      var n := |ops| - 1;
      RunKeeps(s, ops[..n]);
      StepKeeps(After(s, ops[..n]), Suspect(s, ops[..n]), ops[n]);
    }
  }

  lemma StartInv(s: State)
    requires Settled(s)
    ensures Inv(s, None)
  {
    hide Nested, Fits, ToRatio;
    FitsIff(s.root, LimitOf(s.knobs).value);
  }

  lemma StepKeeps(s: State, suspect: Option<Bandwidth>, op: Op)
    requires Inv(s, suspect)
    ensures Inv(Next(s, op),
                if s.trapped then suspect
                else if op.Install? && s.pending.Some? && s.pending.value.path == [] then
                  (if s.pending.value.quiet then None else Some(s.pending.value.asked))
                else if op.Finish? && s.handler.Checked? && s.handler.ok then None else suspect)
  {
    hide Nested, Fits, ToRatio, LimitOf, Inv, Update;
    if !s.trapped {
      match op
      case Ask(_, _, _) => AskKeeps(s, suspect, op);
      case Install =>
        if s.pending.Some? {
          InstallKeeps(s, suspect);
        }
      case Create(_) => CreateKeeps(s, suspect, op);
      case _ => HandlerKeeps(s, suspect, op);
    }
  }

  /**
   Over every run of group creations, group changes and handler steps in any interleaving:
   children never have more than their parent, and whenever the handler is idle the whole
   tree is within the limit in force iff what the root group was last given inside a window
   of the handler, if anything, is.
   */
  lemma LimitHoldsIff(s: State, ops: seq<Op>)
    requires Settled(s)
    ensures var r, suspect := After(s, ops), Suspect(s, ops);
            && Nested(r.root) && SumLeaves(r.root) <= RootRatio(r)
            && (r.handler.Idle? ==>
                  (Fits(r.root, LimitOf(r.knobs).value) <==>
                   suspect.None? || ToRatio(suspect.value) <= LimitOf(r.knobs).value))
  {
    hide Nested, Fits, ToRatio, Next, SumLeaves;
    RunKeeps(s, ops);
    var r := After(s, ops);
    LeavesWithinRoot(r.root);
    if r.handler.Idle? {
      FitsIff(r.root, LimitOf(r.knobs).value);
    }
  }

  /** No root change was admitted while the handler was at work. */
  ghost predicate QuietRoot(s: State, ops: seq<Op>)
    requires WellFormed(s)
  {
    forall i :: 0 <= i < |ops| && ops[i] == Install ==>
      var before := After(s, ops[..i]);
      before.pending.Some? && before.pending.value.path == [] ==> before.pending.value.quiet
  }

  lemma {:induction false} QuietSuspect(s: State, ops: seq<Op>)
    requires WellFormed(s) && QuietRoot(s, ops)
    ensures Suspect(s, ops).None?
  {
    if ops == [] {
    } else {
      var n := |ops| - 1;
      assert forall i :: 0 <= i < n ==> ops[..n][..i] == ops[..i];
      QuietSuspect(s, ops[..n]);
    }
  }

  /** In particular changes of any other group do no harm, at whatever moment they are admitted. */
  lemma QuietRunFits(s: State, ops: seq<Op>)
    requires Settled(s) && QuietRoot(s, ops)
    ensures var r := After(s, ops);
            r.handler.Idle? ==> Fits(r.root, LimitOf(r.knobs).value) && SumLeaves(r.root) <= LimitOf(r.knobs).value
  {
    hide Nested, Fits, ToRatio, Next, SumLeaves, Suspect, QuietRoot;
    LimitHoldsIff(s, ops);
    QuietSuspect(s, ops);
    var r := After(s, ops);
    if r.handler.Idle? {
      FitsIff(r.root, LimitOf(r.knobs).value);
    }
  }

  // ----- the leak -----

  function Nobody(): Path -> bool {
    (p: Path) => false
  }

  /** The default limit: 950 ms of every second. */
  function Boot(): (s: State) {
    State(Group(Bw(1000000000, 950000000), []), Knobs(1000000, 950000), 1000000000, Idle, None, false)
  }

  /** A limit of 2 s per second is stored; the root asks for its whole period; the limit is refused and taken back. */
  function LeakyRun(): (ops: seq<Op>) {
    [Publish(Knobs(1000000, 2000000)), Ask([], Bw(1000000000, 1000000000), Nobody()), Install, Validate(Nobody()), Finish]
  }

  /** A run that ends with the old limit in force and the root above it. */
  lemma TransientLimitLeaks()
    ensures Settled(Boot())
    ensures var r := After(Boot(), LeakyRun());
            && r.handler.Idle? && r.knobs == Boot().knobs && r.pending.None? && !r.trapped
            && !Fits(r.root, LimitOf(r.knobs).value) && RootRatio(r) > LimitOf(r.knobs).value
  {
    var s0, ops := Boot(), LeakyRun();
    var u: Tg := Group(Bw(1000000000, 1000000000), []);
    var s1 := s0.(handler := Published(s0.knobs), knobs := Knobs(1000000, 2000000));
    var s2 := s1.(pending := Some(Pending([], Bw(1000000000, 1000000000), false)));
    assert Next(s0, ops[0]) == s1;
    assert Update(s0.root, [], Bw(1000000000, 1000000000)) == u;
    assert Next(s1, ops[1]) == s2;
    var s3 := s2.(root := u, pending := None);
    assert Next(s2, ops[2]) == s3;
    var s4 := s3.(handler := Checked(s0.knobs, false));
    assert Next(s3, ops[3]) == s4;
    var s5 := s4.(handler := Idle, knobs := s0.knobs);
    assert Next(s4, ops[4]) == s5;
    FiveSteps(s0, ops, s1, s2, s3, s4, s5);
  }

  /** A run that traps: a period of 0 is stored, and a group asks for something before it is refused. */
  lemma ZeroPeriodTraps()
    ensures After(Boot(), [Publish(Knobs(0, 1)), Ask([], Bw(1000000000, 900000000), Nobody())]).trapped
  {
    var s0 := Boot();
    var ops := [Publish(Knobs(0, 1)), Ask([], Bw(1000000000, 900000000), Nobody())];
    var s1 := s0.(handler := Published(s0.knobs), knobs := Knobs(0, 1));
    assert ops[..1][..0] == [] && ops[..1][0] == ops[0];
    assert Next(s0, ops[0]) == s1;
    assert After(s0, ops[..1]) == s1;
    assert Next(s1, ops[1]).trapped;
  }

  lemma FiveSteps(s0: State, ops: seq<Op>, s1: State, s2: State, s3: State, s4: State, s5: State)
    requires |ops| == 5 && WellFormed(s0) && Next(s0, ops[0]) == s1 && Next(s1, ops[1]) == s2 && Next(s2, ops[2]) == s3
    requires Next(s3, ops[3]) == s4 && Next(s4, ops[4]) == s5
    ensures After(s0, ops) == s5
  {
    hide Next;
    assert ops[..4][..3] == ops[..3] && ops[..3][..2] == ops[..2] && ops[..2][..1] == ops[..1] && ops[..1][..0] == [];
    assert After(s0, ops[..1]) == s1;
    assert After(s0, ops[..2]) == s2;
    assert After(s0, ops[..3]) == s3;
    assert After(s0, ops[..4]) == s4;
  }

  // ----- the code -----

  class RtGroups {
    var root: Tg
    var knobs: Limits
    var defPeriod: nat
    var handler: Handler
    var pending: Option<Pending>
    var trapped: bool

    ghost function Now(): State
      reads this
    {
      State(root, knobs, defPeriod, handler, pending, trapped)
    }

    constructor (k: Limits)
      requires Sane(k)
      ensures Settled(Now()) && root == Group(GlobalBw(k), []) && knobs == k
    {
      root := Group(GlobalBw(k), []);
      knobs, defPeriod := k, k.periodUs * NSEC_PER_USEC;
      handler, pending, trapped := Idle, None, false;
    }

    /** __rt_schedulable: one walk over the tree. */
    method RtSchedulable(target: Option<Path>, asked: Bandwidth, hasRtTasks: Path -> bool) returns (err: int)
      requires target.Some? ==> IsPath(root, target.value)
      ensures var d := Trial(target, asked, LimitOf(knobs), knobs.runtimeUs >= 0, hasRtTasks);
              var u := if target.Some? then Update(root, target.value, asked) else root;
              && (err == 0 <==> d.limit.Some? && Fits(u, d.limit.value) && NoStarving(u, [], d))
              && (err == TRAP <==> d.limit.None? && RootDivides(root, d))
              && err == WalkError(root, d)
    {
      var d := Trial(target, asked, LimitOf(knobs), knobs.runtimeUs >= 0, hasRtTasks);
      AdmitIff(root, d);
      TrapIff(root, d);
      var _, ret := WalkTgTree(root, Check(Checker(root, d)), Nop(), ());
      err := ret;
    }

    /** tg_set_bandwidth up to the end of its walk. */
    method Decide(path: Path, asked: Bandwidth, hasRtTasks: Path -> bool) returns (err: int)
      requires WellFormed(Now()) && !trapped && pending.None? && IsPath(root, path)
      modifies this`pending, this`trapped
      ensures Now() == Next(old(Now()), Ask(path, asked, hasRtTasks))
      ensures err == 0 <==> Admits(root, path, asked, knobs, hasRtTasks)
      ensures err == WalkError(root, Asking(path, asked, knobs, hasRtTasks))
      ensures err == 0 ==> pending == Some(Pending(path, asked, handler.Idle?)) && !trapped
      ensures err != 0 ==> pending.None? && trapped == (err == TRAP)
    {
      hide Fits, NoStarving, Update, WalkError;
      err := RtSchedulable(Some(path), asked, hasRtTasks);
      if err == TRAP {
        trapped := true;
      } else if err == 0 {
        pending := Some(Pending(path, asked, handler.Idle?));
      }
    }

    /** The rest of tg_set_bandwidth. */
    method InstallPending()
      requires WellFormed(Now()) && !trapped && pending.Some?
      modifies this`root, this`pending
      ensures Now() == Next(old(Now()), Install)
    {
      root := Update(root, pending.value.path, pending.value.asked);
      pending := None;
    }

    /** tg_set_bandwidth undisturbed: the change is made iff the changed tree fits and starves nobody. */
    method TgSetBandwidth(path: Path, asked: Bandwidth, hasRtTasks: Path -> bool) returns (err: int)
      requires Settled(Now()) && IsPath(root, path)
      modifies this`root, this`pending, this`trapped
      ensures Settled(Now())
      ensures err == 0 <==> Admits(old(root), path, asked, knobs, hasRtTasks)
      ensures err == WalkError(old(root), Asking(path, asked, knobs, hasRtTasks))
      ensures root == if err == 0 then Update(old(root), path, asked) else old(root)
    {
      err := Decide(path, asked, hasRtTasks);
      if err != 0 {
        return;
      }
      InstallPending();
    }

    method SetRtRuntime(path: Path, us: int, hasRtTasks: Path -> bool) returns (err: int)
      requires Settled(Now()) && IsPath(root, path)
      modifies this`root, this`pending, this`trapped
      ensures Settled(Now())
      ensures var asked := Bw(At(old(root), path).data.period, if us < 0 then RUNTIME_INF else us * 1000 % U64);
              && (err == 0 <==> Admits(old(root), path, asked, knobs, hasRtTasks))
              && err == WalkError(old(root), Asking(path, asked, knobs, hasRtTasks))
              && root == if err == 0 then Update(old(root), path, asked) else old(root)
    {
      var runtime := if us < 0 then RUNTIME_INF else us * NSEC_PER_USEC % U64;
      err := TgSetBandwidth(path, Bw(At(root, path).data.period, runtime), hasRtTasks);
    }

    method SetRtPeriod(path: Path, us: int, hasRtTasks: Path -> bool) returns (err: int)
      requires Settled(Now()) && IsPath(root, path)
      modifies this`root, this`pending, this`trapped
      ensures Settled(Now())
      ensures us * 1000 % U64 == 0 ==> err == -22 && root == old(root)
      ensures us * 1000 % U64 > 0 ==>
                var asked := Bw(us * 1000 % U64, At(old(root), path).data.runtime);
                && (err == 0 <==> Admits(old(root), path, asked, knobs, hasRtTasks))
                && err == WalkError(old(root), Asking(path, asked, knobs, hasRtTasks))
                && root == if err == 0 then Update(old(root), path, asked) else old(root)
    {
      var period := us * NSEC_PER_USEC % U64;
      if period == 0 {
        return -EINVAL;
      }
      err := TgSetBandwidth(path, Bw(period, At(root, path).data.runtime), hasRtTasks);
    }

    method CreateGroup(path: Path)
      requires WellFormed(Now()) && !trapped && IsPath(root, path)
      modifies this`root, this`pending
      ensures Now() == Next(old(Now()), Create(path))
      ensures IsPath(root, path + [0]) && At(root, path + [0]).data == Bw(defPeriod, 0) && At(root, path + [0]).kids == []
    {
      AddKidAt(root, path, Group(Bw(defPeriod, 0), []));
      root := AddKid(root, path, Group(Bw(defPeriod, 0), []));
      pending := Moved(pending, path);
    }

    /** sched_rt_global_constraints. */
    method GlobalConstraints(hasRtTasks: Path -> bool) returns (err: int)
      ensures err == 0 <==> Admissible(root, knobs, hasRtTasks)
      ensures err == if Sane(knobs) then WalkError(root, Checking(knobs, hasRtTasks)) else -22
    {
      if knobs.periodUs <= 0 {
        return -EINVAL;
      }
      var bw := GlobalBw(knobs);
      if bw.runtime > bw.period && bw.runtime != RUNTIME_INF {
        return -EINVAL;
      }
      err := RtSchedulable(None, Bw(1, 0), hasRtTasks);
    }

    /** The first step of sched_rt_handler: remember the old values and store the new ones. */
    method Store(k: Limits)
      requires WellFormed(Now()) && !trapped && handler.Idle?
      modifies this`knobs, this`handler
      ensures Now() == Next(old(Now()), Publish(k))
    {
      handler := Published(knobs);
      knobs := k;
    }

    method CheckStored(hasRtTasks: Path -> bool) returns (err: int)
      requires WellFormed(Now()) && !trapped && handler.Published? && (pending.None? || !Sane(knobs))
      modifies this`handler
      ensures Now() == Next(old(Now()), Validate(hasRtTasks)) && handler == Checked(old(handler).former, err == 0)
      ensures err == if Sane(knobs) then WalkError(root, Checking(knobs, hasRtTasks)) else -22
    {
      hide Fits, NoStarving;
      err := GlobalConstraints(hasRtTasks);
      handler := Checked(handler.former, err == 0);
    }

    /** The last step: keep the new limit, or take it back. */
    method Conclude()
      requires WellFormed(Now()) && !trapped && handler.Checked?
      modifies this`knobs, this`handler, this`defPeriod
      ensures Now() == Next(old(Now()), Finish)
    {
      if !handler.ok {
        knobs := handler.former;
      } else {
        defPeriod := knobs.periodUs * NSEC_PER_USEC;
      }
      handler := Idle;
    }

    /** sched_rt_handler undisturbed: the new limit is kept iff it is admissible; else everything is as before. */
    method SchedRtHandler(k: Limits, hasRtTasks: Path -> bool) returns (err: int)
      requires Settled(Now())
      modifies this`knobs, this`handler, this`defPeriod
      ensures Settled(Now()) && root == old(root)
      ensures err == 0 <==> Admissible(root, k, hasRtTasks)
      ensures err == if Sane(k) then WalkError(root, Checking(k, hasRtTasks)) else -22
      ensures err == 0 ==> knobs == k && defPeriod == k.periodUs * 1000
      ensures err != 0 ==> Now() == old(Now())
    {
      hide Fits, NoStarving, WalkError;
      Store(k);
      err := CheckStored(hasRtTasks);
      Conclude();
    }

    method Step(op: Op)
      requires WellFormed(Now())
      modifies this
      ensures Now() == Next(old(Now()), op)
    {
      hide Admits, Admissible, Update, AddKid, LimitOf, RootDivides;
      if trapped {
        return;
      }
      match op
      case Ask(path, asked, has) =>
        if pending.None? && IsPath(root, path) {
          var _ := Decide(path, asked, has);
        }
      case Install =>
        if pending.Some? {
          InstallPending();
        }
      case Create(path) =>
        if IsPath(root, path) {
          CreateGroup(path);
        }
      case Publish(k) =>
        if handler.Idle? {
          Store(k);
        }
      case Validate(has) =>
        if handler.Published? && (pending.None? || !Sane(knobs)) {
          var _ := CheckStored(has);
        }
      case Finish =>
        if handler.Checked? {
          Conclude();
        }
    }

    /** Every interleaving: the code makes exactly the steps of Next, and so the exact condition of LimitHoldsIff. */
    method Run(ops: seq<Op>)
      requires Settled(Now())
      modifies this
      ensures Now() == After(old(Now()), ops)
      ensures Nested(root) && SumLeaves(root) <= ToRatio(root.data)
      ensures handler.Idle? ==>
                (Fits(root, LimitOf(knobs).value) <==>
                 Suspect(old(Now()), ops).None? || ToRatio(Suspect(old(Now()), ops).value) <= LimitOf(knobs).value)
    {
      hide Nested, Fits, Next, Suspect, SumLeaves, ToRatio, LimitOf;
      ghost var start := Now();
      for i := 0 to |ops|
        invariant WellFormed(Now()) && Now() == After(start, ops[..i])
      {
        assert ops[..i + 1][..i] == ops[..i];
        Step(ops[i]);
      }
      assert ops[..|ops|] == ops;
      LimitHoldsIff(start, ops);
    }
  }
}

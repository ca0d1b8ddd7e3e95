/** The prelaunch barrier: every interleaving of preflights, operation workers and callers. */
module Prelaunch {

  // ----- Threads -----

  /** The preflight thread, between two of its atomic actions. */
  datatype PreflightPc =
    | Idle
    | Opened             // permission is stored
    | RestoreLocked      // the guard is held for a queued restore
    | RestorePermitted   // and permission was found
    | Spawning           // the restore, if any, is over
    | NotStarted         // another operation is active
    | Waiting            // its own operation is started
    | Barred             // the guard is held to withdraw permission
    | Withdrawn          // permission is withdrawn under the guard
    | Returned(started: bool)

  /** A worker runs one operation and replaces saves only between its check and its release. */
  datatype WorkerPc = Working | Locked | Permitted | Denied

  datatype Owner = Free | Preflight | Worker(id: nat)

  datatype State = State(
    allowed: bool,
    active: bool,
    guard: Owner,
    pre: PreflightPc,
    workers: map<nat, WorkerPc>)

  datatype Action =
    | Open | SkipRestore | LockRestore | CheckRestore | Restore | EndRestore
    | Spawn(own: nat) | ClearUnguarded | StopWaiting | Withdraw | Return
    | Call(caller: nat)
    | Lock(id: nat) | Check(id: nat) | Replace(id: nat) | Release(id: nat) | Finish(id: nat)

  ghost predicate Initial(s: State) {
    s == State(false, false, Free, Idle, map[])
  }

  predicate At(s: State, id: nat, pc: WorkerPc) {
    id in s.workers && s.workers[id] == pc
  }

  predicate Enabled(s: State, a: Action) {
    match a
    case Open => s.pre.Idle? || s.pre.Returned?
    case SkipRestore => s.pre.Opened?
    case LockRestore => s.pre.Opened? && s.guard.Free?
    case CheckRestore => s.pre.RestoreLocked?
    case Restore => s.pre.RestorePermitted?
    case EndRestore => s.pre.RestoreLocked? || s.pre.RestorePermitted?
    case Spawn(own) => s.pre.Spawning? && own !in s.workers
    case ClearUnguarded => s.pre.NotStarted?
    case StopWaiting => s.pre.Waiting? && s.guard.Free?
    case Withdraw => s.pre.Barred?
    case Return => s.pre.Withdrawn?
    case Call(caller) => caller !in s.workers
    case Lock(id) => At(s, id, Working) && s.guard.Free?
    case Check(id) => At(s, id, Locked)
    case Replace(id) => At(s, id, Permitted)
    case Release(id) => At(s, id, Permitted) || At(s, id, Denied)
    case Finish(id) => At(s, id, Working)
  }

  /** The compare-exchange on the operation flag: only one caller can win. */
  function Started(s: State, id: nat): State {
    if s.active then s else s.(active := true, workers := s.workers[id := Working])
  }

  function Apply(s: State, a: Action): State
    requires Enabled(s, a)
  {
    match a
    case Open => s.(allowed := true, pre := Opened)
    case SkipRestore => s.(pre := Spawning)
    case LockRestore => s.(guard := Preflight, pre := RestoreLocked)
    case CheckRestore =>
      if s.allowed then s.(pre := RestorePermitted) else s.(guard := Free, pre := Spawning)
    case Restore => s
    case EndRestore => s.(guard := Free, pre := Spawning)
    case Spawn(own) => Started(s, own).(pre := if s.active then NotStarted else Waiting)
    case ClearUnguarded => s.(allowed := false, pre := Returned(false))
    case StopWaiting => s.(guard := Preflight, pre := Barred)
    case Withdraw => s.(allowed := false, pre := Withdrawn)
    case Return => s.(guard := Free, pre := Returned(true))
    case Call(caller) => Started(s, caller)
    case Lock(id) => s.(guard := Worker(id), workers := s.workers[id := Locked])
    case Check(id) => s.(workers := s.workers[id := if s.allowed then Permitted else Denied])
    case Replace(id) => s
    case Release(id) => s.(guard := Free, workers := s.workers[id := Working])
    case Finish(id) => s.(active := false, workers := map k | k in s.workers && k != id :: s.workers[k])
  }

  /** The actions that replace a live save. */
  predicate Replaces(a: Action) {
    a.Replace? || a.Restore?
  }

  // ----- The invariant -----

  ghost predicate OneOperation(s: State) {
    && s.active == (s.workers != map[])
    && forall a, b :: a in s.workers && b in s.workers ==> a == b
  }

  ghost predicate GuardOk(s: State) {
    && (forall id :: id in s.workers ==> (s.workers[id] != Working <==> s.guard == Worker(id)))
    && (s.guard.Worker? ==> s.guard.id in s.workers)
    && (s.guard.Preflight? <==> s.pre in {RestoreLocked, RestorePermitted, Barred, Withdrawn})
  }

  /** Permission is open exactly while a preflight runs. */
  ghost predicate WindowOk(s: State) {
    && (s.allowed <==> s.pre !in {Idle, Withdrawn, Returned(false), Returned(true)})
    && (s.pre in {Idle, Returned(true)} ==> forall id :: !At(s, id, Permitted))
  }

  ghost predicate Inv(s: State) {
    OneOperation(s) && GuardOk(s) && WindowOk(s)
  }

  lemma StepKeepsInv(s: State, a: Action)
    requires Inv(s) && Enabled(s, a)
    ensures Inv(Apply(s, a))
  {
    var s' := Apply(s, a);
    match a
    case Call(caller) =>
      assert !s.active ==> caller in s'.workers;
    case Spawn(own) =>
      assert !s.active ==> own in s'.workers;
    case Lock(id) => assert id in s'.workers;
    case Check(id) => assert id in s'.workers;
    case Release(id) => assert id in s'.workers;
    case Finish(id) =>
      assert s'.workers == map[];
    case _ =>
  }

  // ----- Runs -----

  ghost predicate IsRun(ss: seq<State>, acts: seq<Action>) {
    && |ss| == |acts| + 1
    && forall i :: 0 <= i < |acts| ==> Enabled(ss[i], acts[i]) && ss[i + 1] == Apply(ss[i], acts[i])
  }

  lemma {:induction false} RunKeepsInv(ss: seq<State>, acts: seq<Action>, i: nat)
    requires IsRun(ss, acts) && Initial(ss[0]) && i < |ss|
    ensures Inv(ss[i])
  {
    if i == 0 {
    } else {
      RunKeepsInv(ss, acts, i - 1);
      StepKeepsInv(ss[i - 1], acts[i - 1]);
    }
  }

  /** In every interleaving at most one operation is active, and the flag says whether one is. */
  lemma OneActiveOperation(ss: seq<State>, acts: seq<Action>, i: nat)
    requires IsRun(ss, acts) && Initial(ss[0]) && i < |ss|
    ensures |ss[i].workers| <= 1 && (ss[i].active <==> |ss[i].workers| == 1)
  {
    RunKeepsInv(ss, acts, i);
    var w := ss[i].workers;
    if id :| id in w {
      assert w.Keys == {id};
      assert |w| == |w.Keys|;
    }
  }

  /** The barrier: once a preflight that started its own operation has returned, no live save is
      replaced until the next preflight begins. */
  lemma PrelaunchBarrier(ss: seq<State>, acts: seq<Action>, i: nat)
    requires IsRun(ss, acts) && Initial(ss[0]) && i < |acts| && Replaces(acts[i])
    ensures ss[i].pre != Returned(true) && ss[i].pre != Idle
  {
    RunKeepsInv(ss, acts, i);
  }

  // ----- Exactly when the barrier holds -----

  /** A continuation in which the preflight returns and then, before the next one begins, a live save is
      replaced. */
  ghost predicate Breaches(ss: seq<State>, acts: seq<Action>) {
    && IsRun(ss, acts) && acts != []
    && (forall k :: 0 <= k < |acts| ==> acts[k] != Open)
    && ss[|acts| - 1].pre.Returned? && Replaces(acts[|acts| - 1])
  }

  ghost predicate CanBreach(s: State) {
    exists ss, acts :: Breaches(ss, acts) && ss[0] == s
  }

  /** One action before a continuation that breaches. */
  lemma BreachEarlier(s: State, a: Action)
    requires Enabled(s, a) && a != Open && CanBreach(Apply(s, a))
    ensures CanBreach(s)
  {
    hide Enabled, Apply, Replaces;
    var ss, acts :| Breaches(ss, acts) && ss[0] == Apply(s, a);
    var ss', acts' := [s] + ss, [a] + acts;
    forall i | 0 <= i < |acts'|
      ensures Enabled(ss'[i], acts'[i]) && ss'[i + 1] == Apply(ss'[i], acts'[i])
    {
      if i > 0 {
        assert Enabled(ss[i - 1], acts[i - 1]) && ss[i] == Apply(ss[i - 1], acts[i - 1]);
      }
    }
    assert Breaches(ss', acts');
  }

  lemma BreachNow(s: State, id: nat)
    requires s.pre == Returned(false) && At(s, id, Permitted)
    ensures CanBreach(s)
  {
    var ss, acts := [s, s], [Replace(id)];
    assert Breaches(ss, acts);
  }

  lemma PermittedBreaches(s: State, id: nat)
    requires s.pre == NotStarted && At(s, id, Permitted)
    ensures CanBreach(s)
  {
    BreachNow(Apply(s, ClearUnguarded), id);
    hide CanBreach;
    BreachEarlier(s, ClearUnguarded);
  }

  lemma LockedBreaches(s: State, id: nat)
    requires s.pre == NotStarted && s.allowed && At(s, id, Locked)
    ensures CanBreach(s)
  {
    var s' := Apply(s, Check(id));
    assert At(s', id, Permitted);
    hide CanBreach;
    PermittedBreaches(s', id);
    BreachEarlier(s, Check(id));
  }

  lemma WorkingBreaches(s: State, id: nat)
    requires s.pre == NotStarted && s.allowed && s.guard.Free? && At(s, id, Working)
    ensures CanBreach(s)
  {
    var s' := Apply(s, Lock(id));
    assert At(s', id, Locked);
    hide CanBreach;
    LockedBreaches(s', id);
    BreachEarlier(s, Lock(id));
  }

  /** As long as a preflight that could not start its operation has not withdrawn permission, some
      continuation replaces a save after it returns, whatever the other operation is doing, even if it
      has meanwhile ended. */
  lemma NotStartedBreaches(s: State)
    requires Inv(s) && s.pre == NotStarted
    ensures CanBreach(s)
  {
    hide CanBreach;
    if id :| id in s.workers {
      match s.workers[id]
      case Working => WorkingBreaches(s, id);
      case Locked => LockedBreaches(s, id);
      case Permitted => PermittedBreaches(s, id);
      case Denied =>
        var s' := Apply(s, Release(id));
        assert At(s', id, Working);
        WorkingBreaches(s', id);
        BreachEarlier(s, Release(id));
    } else {
      assert s.workers == map[];
      var s' := Apply(s, Call(0));
      assert At(s', 0, Working);
      WorkingBreaches(s', 0);
      BreachEarlier(s, Call(0));
    }
  }

  /** What a preflight that started its operation can still go through. */
  ghost predicate OnTheWay(s: State) {
    s.pre in {Waiting, Barred, Withdrawn, Returned(true)}
  }

  lemma StaysOnTheWay(s: State, a: Action)
    requires Inv(s) && Enabled(s, a) && a != Open && OnTheWay(s)
    ensures OnTheWay(Apply(s, a))
  {
  }

  lemma {:induction false} StartedStays(ss: seq<State>, acts: seq<Action>, k: nat)
    requires IsRun(ss, acts) && Inv(ss[0]) && OnTheWay(ss[0]) && k < |ss|
    requires forall i :: 0 <= i < |acts| ==> acts[i] != Open
    ensures Inv(ss[k]) && OnTheWay(ss[k])
  {
    hide Inv, Enabled, Apply, OnTheWay;
    if k == 0 {
    } else {
      StartedStays(ss, acts, k - 1);
      StepKeepsInv(ss[k - 1], acts[k - 1]);
      StaysOnTheWay(ss[k - 1], acts[k - 1]);
    }
  }

  lemma NothingReplaced(s: State, a: Action)
    requires Inv(s) && OnTheWay(s) && s.pre.Returned? && Enabled(s, a)
    ensures !Replaces(a)
  {
  }

  /** The barrier fails exactly when the preflight finds the operation flag set: if it starts its own
      operation, no continuation replaces a save after it returns and before the next preflight begins;
      if it does not, some continuation does. */
  lemma BarrierIffStarted(ss: seq<State>, acts: seq<Action>, i: nat)
    requires IsRun(ss, acts) && Initial(ss[0]) && i < |acts| && acts[i].Spawn?
    ensures CanBreach(ss[i + 1]) <==> ss[i].active
  {
    RunKeepsInv(ss, acts, i);
    RunKeepsInv(ss, acts, i + 1);
    var s := ss[i + 1];
    if ss[i].active {
      NotStartedBreaches(s);
    } else if CanBreach(s) {
      var after: seq<State>, more: seq<Action> :| Breaches(after, more) && after[0] == s;
      hide Inv, Enabled, Apply, Replaces;
      StartedStays(after, more, |more| - 1);
      NothingReplaced(after[|more| - 1], more[|more| - 1]);
    }
  }

  // ----- The branch that is not a barrier -----

  function LateAction(k: nat): Action {
    match k
    case 0 => Call(0) case 1 => Open case 2 => Lock(0) case 3 => Check(0)
    case 4 => SkipRestore case 5 => Spawn(1) case 6 => ClearUnguarded case _ => Replace(0)
  }

  function LateState(k: nat): State {
    match k
    case 0 => State(false, false, Free, Idle, map[])
    case 1 => State(false, true, Free, Idle, map[0 := Working])
    case 2 => State(true, true, Free, Opened, map[0 := Working])
    case 3 => State(true, true, Worker(0), Opened, map[0 := Locked])
    case 4 => State(true, true, Worker(0), Opened, map[0 := Permitted])
    case 5 => State(true, true, Worker(0), Spawning, map[0 := Permitted])
    case 6 => State(true, true, Worker(0), NotStarted, map[0 := Permitted])
    case _ => State(false, true, Worker(0), Returned(false), map[0 := Permitted])
  }

  lemma LateStep(k: nat)
    requires k < 8
    ensures Enabled(LateState(k), LateAction(k)) && LateState(k + 1) == Apply(LateState(k), LateAction(k))
  {
    match k
    case 0 => assert map[][0 := Working] == map[0 := Working];
    case 2 => assert map[0 := Working][0 := Locked] == map[0 := Locked];
    case 3 => assert map[0 := Locked][0 := Permitted] == map[0 := Permitted];
    case _ =>
  }

  /** A preflight that found another operation active may return while that operation is replacing. */
  lemma NotStartedCanReplace() returns (ss: seq<State>, acts: seq<Action>)
    ensures IsRun(ss, acts) && Initial(ss[0]) && |acts| == 8
    ensures ss[7].pre == Returned(false) && Replaces(acts[7])
  {
    ss := seq(9, k requires 0 <= k < 9 => LateState(k));
    acts := seq(8, k requires 0 <= k < 8 => LateAction(k));
    assert Initial(LateState(0)) && LateState(7).pre == Returned(false) && Replaces(LateAction(7));
    hide LateState, LateAction, Apply, Enabled, Initial, Replaces;
    forall i | 0 <= i < 8
      ensures Enabled(ss[i], acts[i]) && ss[i + 1] == Apply(ss[i], acts[i])
    {
      LateStep(i);
    }
  }
}

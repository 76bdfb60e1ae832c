/** `_ModuleLock`: recursive module locks with deadlock detection, as the atomic
    steps that any number of threads take on any number of locks. */
module ModuleLock {
  import opened Basics
  import opened WaitGraph

  /** `wakeup` tells whether the lock of that name is held. */
  datatype Lock = Lock(owner: Option<nat>, count: nat, waiters: nat, wakeup: bool)

  /** Where a thread is: outside `acquire`, blocked on `wakeup.acquire()`, between
      that and `wakeup.release()`, or back at the head of the loop. */
  datatype Pc = Running | Waiting(lock: nat) | Passing(lock: nat) | Rechecking(lock: nat)

  datatype State = State(locks: map<nat, Lock>, pcs: map<nat, Pc>, blockingOn: map<nat, nat>)

  datatype Result = Acquired | DeadlockError | MustWait

  datatype ReleaseResult = Released | NotOwner | AssertionError | WakeupNotHeld

  /** Each blocked thread waits for the owner of the lock it is blocking on. */
  function Edges(s: State): Graph {
    map t | t in s.blockingOn && s.blockingOn[t] in s.locks && s.locks[s.blockingOn[t]].owner.Some?
      :: s.locks[s.blockingOn[t]].owner.value
  }

  /** What `has_deadlock` decides: the owner leads to the caller. */
  ghost predicate Deadlock(s: State, me: nat, l: nat)
    requires l in s.locks
  {
    s.locks[l].owner.Some? && HasPath(Edges(s) - {me}, s.locks[l].owner.value, me)
  }

  function Unblock(s: State, t: nat): State {
    s.(blockingOn := s.blockingOn - {t}, pcs := s.pcs[t := Running])
  }

  /** The body of `with self.lock` in `acquire`. */
  ghost function TryLock(s: State, t: nat, l: nat): (State, Result)
    requires l in s.locks
  {
    var k := s.locks[l];
    if k.count == 0 || k.owner == Some(t) then
      (Unblock(s.(locks := s.locks[l := k.(owner := Some(t), count := k.count + 1)]), t), Acquired)
    else if Deadlock(s, t, l) then (Unblock(s, t), DeadlockError)
    else (s.(locks := s.locks[l := CloseGate(k)], pcs := s.pcs[t := Waiting(l)]), MustWait)
  }

  /** `if self.wakeup.acquire(False): self.waiters += 1` */
  function CloseGate(k: Lock): Lock {
    if k.wakeup then k else k.(wakeup := true, waiters := k.waiters + 1)
  }

  /** The body of `release`. */
  function ReleaseBody(s: State, t: nat, l: nat): (State, ReleaseResult)
    requires l in s.locks
  {
    var k := s.locks[l];
    if k.owner != Some(t) then (s, NotOwner)
    else if k.count == 0 then (s, AssertionError)
    else if k.count > 1 then (s.(locks := s.locks[l := k.(count := k.count - 1)]), Released)
    else
      var freed := k.(count := 0, owner := None);
      if k.waiters == 0 then (s.(locks := s.locks[l := freed]), Released)
      else if !k.wakeup then (s, WakeupNotHeld)
      else (s.(locks := s.locks[l := freed.(waiters := k.waiters - 1, wakeup := false)]), Released)
  }

  datatype Step = Begin(t: nat, l: nat) | Pass(t: nat) | Leave(t: nat) | Recheck(t: nat) | Release(t: nat, l: nat)

  predicate Enabled(s: State, step: Step) {
    match step
    case Begin(t, l) => t in s.pcs && s.pcs[t].Running? && l in s.locks
    case Pass(t) => t in s.pcs && s.pcs[t].Waiting? && s.pcs[t].lock in s.locks && !s.locks[s.pcs[t].lock].wakeup
    case Leave(t) => t in s.pcs && s.pcs[t].Passing? && s.pcs[t].lock in s.locks
    case Recheck(t) => t in s.pcs && s.pcs[t].Rechecking? && s.pcs[t].lock in s.locks
    case Release(t, l) => t in s.pcs && s.pcs[t].Running? && l in s.locks
  }

  function SetWakeup(s: State, l: nat, held: bool): State
    requires l in s.locks
  {
    s.(locks := s.locks[l := s.locks[l].(wakeup := held)])
  }

  ghost function Apply(s: State, step: Step): State
    requires Enabled(s, step)
  {
    match step
    case Begin(t, l) => TryLock(s.(blockingOn := s.blockingOn[t := l]), t, l).0
    case Pass(t) =>
      var l := s.pcs[t].lock;
      SetWakeup(s, l, true).(pcs := s.pcs[t := Passing(l)])
    case Leave(t) =>
      var l := s.pcs[t].lock;
      SetWakeup(s, l, false).(pcs := s.pcs[t := Rechecking(l)])
    case Recheck(t) => TryLock(s, t, s.pcs[t].lock).0
    case Release(t, l) => ReleaseBody(s, t, l).0
  }

  // ----- the invariant -----

  /** The threads between acquiring and releasing the wake-up lock of `l`. */
  function Passers(s: State, l: nat): set<nat> {
    set t | t in s.pcs && s.pcs[t] == Passing(l)
  }

  /** A thread blocks on a lock exactly while it is inside `acquire`. */
  ghost predicate GoodThread(s: State, t: nat) {
    if t in s.pcs && !s.pcs[t].Running? then
      t in s.blockingOn && s.blockingOn[t] == s.pcs[t].lock && s.pcs[t].lock in s.locks
    else t !in s.blockingOn
  }

  ghost predicate GoodThreads(s: State) {
    forall t :: GoodThread(s, t)
  }

  /** An owner exactly while the count is positive; at most one waiter, and only on
      a held lock; the wake-up lock is held by the closed gate or by one passing
      thread, never by both. */
  ghost predicate GoodLock(s: State, l: nat)
    requires l in s.locks
  {
    var k := s.locks[l];
    && (k.count > 0 <==> k.owner.Some?)
    && (k.owner.Some? ==> k.owner.value in s.pcs)
    && (k.waiters > 0 ==> k.count > 0)
    && k.waiters + |Passers(s, l)| == if k.wakeup then 1 else 0
  }

  ghost predicate Inv(s: State) {
    && GoodThreads(s)
    && (forall l :: l in s.locks ==> GoodLock(s, l))
    && Acyclic(Edges(s))
  }

  ghost predicate Initial(s: State) {
    && s.blockingOn == map[]
    && (forall t :: t in s.pcs ==> s.pcs[t] == Running)
    && (forall l :: l in s.locks ==> s.locks[l] == Lock(None, 0, 0, false))
  }

  lemma InitialInv(s: State)
    requires Initial(s)
    ensures Inv(s)
  {
    forall l | l in s.locks ensures GoodLock(s, l) {
      assert Passers(s, l) == {};
    }
    assert Edges(s) == map[];
    forall a: nat, n: nat | n > 0 ensures !Reaches(Edges(s), a, a, n) {
    }
  }

  // ----- has_deadlock -----

  /** The chain from the owner has been followed to `at` without meeting `me`. */
  ghost predicate Followed(g: Graph, first: nat, at: nat, n: nat, me: nat) {
    Reaches(g, first, at, n) && forall m: nat :: m <= n ==> !Reaches(g, first, me, m)
  }

  lemma FollowOn(g: Graph, first: nat, at: nat, n: nat, me: nat)
    requires Followed(g, first, at, n, me) && at in g && g[at] != me
    ensures Followed(g, first, g[at], n + 1, me)
  {
    assert Reaches(g, g[at], g[at], 0);
    assert Reaches(g, at, g[at], 1);
    ReachesTrans(g, first, at, g[at], n, 1);
    if Reaches(g, first, me, n + 1) { SameStep(g, first, g[at], me, n + 1); }
  }

  lemma ChainMissesMe(g: Graph, first: nat, at: nat, n: nat, me: nat)
    requires Followed(g, first, at, n, me) && at !in g
    ensures !HasPath(g, first, me)
  {
    if m: nat :| Reaches(g, first, me, m) {
      NothingBeyond(g, first, at, n, me, m);
    }
  }

  /** `has_deadlock` on any table whose other threads wait for each other without a
      cycle: it ends, and decides whether the owner leads to the caller. */
  method HasDeadlock(s: State, me: nat, l: nat) returns (r: bool)
    requires l in s.locks && s.locks[l].owner.Some? && s.locks[l].owner != Some(me)
    requires Acyclic(Edges(s) - {me}) && forall t :: t in s.blockingOn ==> s.blockingOn[t] in s.locks
    ensures r <==> Deadlock(s, me, l)
  {
    ghost var g := Edges(s) - {me};
    ghost var first := s.locks[l].owner.value;
    var tid := s.locks[l].owner;
    ghost var at, n, seen: set<nat> := first, 0, {};
    assert forall m: nat :: m <= 0 ==> !Reaches(g, first, me, m);
    while true
      invariant Followed(g, first, at, n, me) && LedHere(g, seen, at) && at != me
      invariant if tid.Some? then at == tid.value else at !in g
      decreases g.Keys - seen, tid.Some?
    {
      if tid.None? || tid.value !in s.blockingOn {
        ChainMissesMe(g, first, at, n, me);
        return false;
      }
      var lock := s.blockingOn[tid.value];
      tid := s.locks[lock].owner;
      if tid == Some(me) {
        assert at in g && g[at] == me;
        assert Reaches(g, me, me, 0);
        assert Reaches(g, at, me, 1);
        ReachesTrans(g, first, at, me, n, 1);
        return true;
      }
      if tid.Some? {
        assert at in g && g[at] == tid.value;
        NewThread(g, seen, at);
        LedFurther(g, seen, at);
        FollowOn(g, first, at, n, me);
        seen, at, n := seen + {at}, g[at], n + 1;
      }
    }
  }

  // ----- every step keeps the invariant -----

  /** Thread `t` is about to run the body of `acquire` for `l`. */
  ghost predicate Trying(s: State, t: nat, l: nat) {
    && t in s.pcs && l in s.locks && (s.pcs[t] == Running || s.pcs[t] == Rechecking(l))
    && t in s.blockingOn && s.blockingOn[t] == l
    && (forall u :: u != t ==> GoodThread(s, u))
    && (forall x :: x in s.locks ==> GoodLock(s, x))
    && Acyclic(Edges(s) - {t})
  }

  /** A thread that neither was nor is passing does not change who is. */
  lemma SamePassers(s: State, s': State, t: nat, l: nat)
    requires t in s.pcs && t in s'.pcs && s'.pcs == s.pcs[t := s'.pcs[t]]
    requires s.pcs[t] != Passing(l) && s'.pcs[t] != Passing(l)
    ensures Passers(s', l) == Passers(s, l)
  {
  }

  lemma TryLockKeepsLocks(s: State, t: nat, l: nat)
    requires Trying(s, t, l)
    ensures var s' := TryLock(s, t, l).0;
      GoodThreads(s') && s'.locks.Keys == s.locks.Keys && forall x :: x in s'.locks ==> GoodLock(s', x)
  {
    var s' := TryLock(s, t, l).0;
    TryLockKeepsThreads(s, t, l);
    forall x | x in s'.locks ensures GoodLock(s', x) {
      assert GoodLock(s, x);
      SamePassers(s, s', t, x);
    }
  }

  lemma TryLockKeepsThreads(s: State, t: nat, l: nat)
    requires Trying(s, t, l)
    ensures var s' := TryLock(s, t, l).0;
      GoodThreads(s') && s'.locks.Keys == s.locks.Keys
  {
    hide GoodLock;
    var s' := TryLock(s, t, l).0;
    forall u ensures GoodThread(s', u) {
      assert u != t ==> GoodThread(s, u);
    }
  }

  /** After an acquisition the threads blocking on the lock wait for its new owner. */
  lemma AcquiredEdges(s: State, t: nat, l: nat)
    requires Trying(s, t, l) && TryLock(s, t, l).1 == Acquired
    ensures var (g, h) := (Edges(s) - {t}, Edges(TryLock(s, t, l).0));
      t !in h && forall x :: x in h ==> (x in g && g[x] == h[x]) || h[x] == t
  {
  }

  lemma MustWaitEdges(s: State, t: nat, l: nat)
    requires Trying(s, t, l) && TryLock(s, t, l).1 == MustWait
    ensures s.locks[l].owner.Some? && Edges(TryLock(s, t, l).0) == (Edges(s) - {t})[t := s.locks[l].owner.value]
  {
    hide GoodThread; hide Deadlock; hide Passers;
    assert GoodLock(s, l);
  }

  lemma DeadlockEdges(s: State, t: nat, l: nat)
    requires Trying(s, t, l) && TryLock(s, t, l).1 == DeadlockError
    ensures Edges(TryLock(s, t, l).0) == Edges(s) - {t}
  {
  }

  lemma WaitingOpensNoCycle(s: State, t: nat, l: nat)
    requires Trying(s, t, l) && TryLock(s, t, l).1 == MustWait && s.locks[l].owner.Some?
    ensures !HasPath(Edges(s) - {t}, s.locks[l].owner.value, t)
  {
  }

  lemma TryLockKeepsAcyclic(s: State, t: nat, l: nat)
    requires Trying(s, t, l)
    ensures Acyclic(Edges(TryLock(s, t, l).0))
  {
    hide GoodLock; hide GoodThread; hide Edges; hide TryLock;
    var (s', r) := TryLock(s, t, l);
    var g := Edges(s) - {t};
    match r
    case Acquired => AcquiredEdges(s, t, l); EdgesToSink(g, Edges(s'), t);
    case DeadlockError => DeadlockEdges(s, t, l);
    case MustWait =>
      MustWaitEdges(s, t, l);
      WaitingOpensNoCycle(s, t, l);
      EdgeClosesCycle(g, t, s.locks[l].owner.value);
  }

  lemma BeginIsTrying(s: State, t: nat, l: nat)
    requires Inv(s) && Enabled(s, Begin(t, l))
    ensures Trying(s.(blockingOn := s.blockingOn[t := l]), t, l)
  {
    var s1 := s.(blockingOn := s.blockingOn[t := l]);
    assert GoodThread(s, t);
    forall u | u != t ensures GoodThread(s1, u) { assert GoodThread(s, u); }
    assert Edges(s1) - {t} == Edges(s);
    forall x | x in s1.locks ensures GoodLock(s1, x) {
      assert GoodLock(s, x);
      assert Passers(s1, x) == Passers(s, x);
    }
  }

  lemma RecheckIsTrying(s: State, t: nat)
    requires Inv(s) && Enabled(s, Recheck(t))
    ensures Trying(s, t, s.pcs[t].lock)
  {
    assert GoodThread(s, t);
    SubgraphAcyclic(Edges(s) - {t}, Edges(s));
  }

  /** Passing the gate or leaving it only moves the wake-up lock from hand to hand. */
  lemma PassKeepsLock(s: State, t: nat, x: nat)
    requires Inv(s) && Enabled(s, Pass(t)) && x in s.locks
    ensures GoodLock(Apply(s, Pass(t)), x)
  {
    var l, s' := s.pcs[t].lock, Apply(s, Pass(t));
    assert GoodLock(s, x);
    if x == l {
      assert Passers(s, l) == {};
      assert Passers(s', l) == {t};
    } else {
      SamePassers(s, s', t, x);
    }
  }

  lemma LeaveKeepsLock(s: State, t: nat, x: nat)
    requires Inv(s) && Enabled(s, Leave(t)) && x in s.locks
    ensures GoodLock(Apply(s, Leave(t)), x)
  {
    var l, s' := s.pcs[t].lock, Apply(s, Leave(t));
    assert GoodLock(s, x);
    if x == l {
      assert t in Passers(s, l);
      assert Passers(s', l) == Passers(s, l) - {t};
    } else {
      SamePassers(s, s', t, x);
    }
  }

  lemma ReleaseKeepsLock(s: State, t: nat, l: nat, x: nat)
    requires Inv(s) && Enabled(s, Release(t, l)) && x in s.locks
    ensures GoodLock(Apply(s, Release(t, l)), x)
  {
    assert GoodLock(s, l) && GoodLock(s, x);
    assert Passers(Apply(s, Release(t, l)), x) == Passers(s, x);
  }

  /** These steps change no owner, except that a release may set one to None. */
  lemma QuietStepKeepsRest(s: State, step: Step)
    requires Inv(s) && Enabled(s, step) && (step.Pass? || step.Leave? || step.Release?)
    ensures var s' := Apply(s, step);
      GoodThreads(s') && s'.locks.Keys == s.locks.Keys && Acyclic(Edges(s'))
  {
    var s' := Apply(s, step);
    QuietStepKeepsThreads(s, step);
    forall t | t in Edges(s') ensures t in Edges(s) && Edges(s)[t] == Edges(s')[t] {
      assert GoodThread(s, t);
    }
    SubgraphAcyclic(Edges(s'), Edges(s));
  }

  lemma QuietStepKeepsThreads(s: State, step: Step)
    requires Inv(s) && Enabled(s, step) && (step.Pass? || step.Leave? || step.Release?)
    ensures var s' := Apply(s, step);
      GoodThreads(s') && s'.locks.Keys == s.locks.Keys
  {
    hide Acyclic; hide Edges; hide GoodLock;
    var s' := Apply(s, step);
    forall u ensures GoodThread(s', u) { assert GoodThread(s, u); }
  }

  lemma StepKeepsInv(s: State, step: Step)
    requires Inv(s) && Enabled(s, step)
    ensures Inv(Apply(s, step))
  {
    match step
    case Begin(t, l) =>
      BeginIsTrying(s, t, l);
      var s1 := s.(blockingOn := s.blockingOn[t := l]);
      TryLockKeepsLocks(s1, t, l);
      TryLockKeepsAcyclic(s1, t, l);
    case Pass(t) =>
      QuietStepKeepsRest(s, step);
      forall x | x in s.locks ensures GoodLock(Apply(s, step), x) { PassKeepsLock(s, t, x); }
    case Leave(t) =>
      QuietStepKeepsRest(s, step);
      forall x | x in s.locks ensures GoodLock(Apply(s, step), x) { LeaveKeepsLock(s, t, x); }
    case Recheck(t) =>
      RecheckIsTrying(s, t);
      TryLockKeepsLocks(s, t, s.pcs[t].lock);
      TryLockKeepsAcyclic(s, t, s.pcs[t].lock);
    case Release(t, l) =>
      QuietStepKeepsRest(s, step);
      forall x | x in s.locks ensures GoodLock(Apply(s, step), x) { ReleaseKeepsLock(s, t, l, x); }
  }

  // ----- runs -----

  /** `run` is a sequence of states, each the result of some thread's step. */
  ghost predicate IsRun(run: seq<State>) {
    && |run| > 0 && Initial(run[0])
    && forall i :: 0 < i < |run| ==> IsNext(run[i - 1], run[i])
  }

  ghost predicate IsNext(s: State, s': State) {
    exists step: Step :: Enabled(s, step) && Apply(s, step) == s'
  }

  ghost predicate Reachable(s: State) {
    exists run: seq<State> :: IsRun(run) && run[|run| - 1] == s
  }

  lemma {:induction false} RunKeepsInv(run: seq<State>, i: nat)
    requires IsRun(run) && i < |run|
    ensures Inv(run[i])
    decreases i
  {
    if i == 0 {
      InitialInv(run[0]);
    } else {
      RunKeepsInv(run, i - 1);
      assert IsNext(run[i - 1], run[i]);
      var step: Step :| Enabled(run[i - 1], step) && Apply(run[i - 1], step) == run[i];
      StepKeepsInv(run[i - 1], step);
    }
  }

  lemma ReachableInv(s: State)
    requires Reachable(s)
    ensures Inv(s)
  {
    var run: seq<State> :| IsRun(run) && run[|run| - 1] == s;
    RunKeepsInv(run, |run| - 1);
  }

  // ----- the bodies as the source runs them -----

  /** `acquire` from its `with self.lock` to the end of that block. */
  method AcquireBody(s: State, t: nat, l: nat) returns (s': State, r: Result)
    requires Trying(s, t, l)
    ensures (s', r) == TryLock(s, t, l)
  {
    var k := s.locks[l];
    assert GoodLock(s, l);
    if k.count == 0 || k.owner == Some(t) {
      var locks := s.locks[l := k.(owner := Some(t), count := k.count + 1)];
      return s.(locks := locks, blockingOn := s.blockingOn - {t}, pcs := s.pcs[t := Running]), Acquired;
    }
    TargetsExist(s, t, l);
    var deadlock := HasDeadlock(s, t, l);
    if deadlock {
      return s.(blockingOn := s.blockingOn - {t}, pcs := s.pcs[t := Running]), DeadlockError;
    }
    if !k.wakeup {
      k := k.(wakeup := true, waiters := k.waiters + 1);
    }
    return s.(locks := s.locks[l := k], pcs := s.pcs[t := Waiting(l)]), MustWait;
  }

  lemma TargetsExist(s: State, t: nat, l: nat)
    requires Trying(s, t, l)
    ensures forall u :: u in s.blockingOn ==> s.blockingOn[u] in s.locks
  {
    forall u | u in s.blockingOn ensures s.blockingOn[u] in s.locks {
      if u != t { assert GoodThread(s, u); }
    }
  }

  // ----- what the protocol promises -----

  /** A thread is refused exactly when waiting would close a cycle of waiting threads. */
  lemma RefusedIffCycle(s: State, t: nat, l: nat, owner: nat)
    requires Reachable(s) && Enabled(s, Begin(t, l))
    requires s.locks[l].owner == Some(owner) && owner != t
    ensures TryLock(s.(blockingOn := s.blockingOn[t := l]), t, l).1 == DeadlockError
            <==> !Acyclic(Edges(s)[t := owner])
  {
    ReachableInv(s);
    BeginIsTrying(s, t, l);
    assert GoodThread(s, t) && GoodLock(s, l);
    var s1 := s.(blockingOn := s.blockingOn[t := l]);
    assert Edges(s1) - {t} == Edges(s);
    EdgeClosesCycle(Edges(s), t, owner);
  }

  /** Once a thread waits it is never refused: a recheck acquires or waits on. */
  lemma RecheckNeverRefused(s: State, t: nat)
    requires Reachable(s) && Enabled(s, Recheck(t))
    ensures TryLock(s, t, s.pcs[t].lock).1 != DeadlockError
  {
    ReachableInv(s);
    var l := s.pcs[t].lock;
    var g := Edges(s);
    assert GoodThread(s, t) && GoodLock(s, l);
    if s.locks[l].owner.Some? && s.locks[l].owner != Some(t) {
      var owner := s.locks[l].owner.value;
      assert (g - {t})[t := owner] == g;
      SubgraphAcyclic(g - {t}, g);
      EdgeClosesCycle(g - {t}, t, owner);
    }
  }

  /** `release` never trips its assertion or releases a wake-up lock nobody holds. */
  lemma ReleaseIsSafe(s: State, t: nat, l: nat)
    requires Reachable(s) && Enabled(s, Release(t, l))
    ensures ReleaseBody(s, t, l).1 == if s.locks[l].owner == Some(t) then Released else NotOwner
  {
    ReachableInv(s);
    assert GoodLock(s, l);
  }

  /** An owner exactly while the count is positive, at most one waiter, an open gate
      on a free lock, and at most one holder of the wake-up lock. */
  lemma LockDiscipline(s: State, l: nat)
    requires Reachable(s) && l in s.locks
    ensures var k := s.locks[l];
      && (k.count > 0 <==> k.owner.Some?)
      && k.waiters <= 1
      && (k.count == 0 ==> k.waiters == 0)
      && (k.wakeup <==> k.waiters == 1 || Passers(s, l) != {})
      && (k.waiters == 1 ==> Passers(s, l) == {})
      && forall t, u :: t in Passers(s, l) && u in Passers(s, l) ==> t == u
  {
    ReachableInv(s);
    assert GoodLock(s, l);
    var p := Passers(s, l);
    forall t, u | t in p && u in p ensures t == u {
      if t != u { TwoElements(p, t, u); }
    }
  }

  lemma TwoElements(p: set<nat>, t: nat, u: nat)
    requires t in p && u in p && t != u
    ensures |p| >= 2
  {
    assert |{t, u}| == 2;
    assert p == {t, u} + (p - {t, u});
  }

  /** No wake-up is lost: on a free lock a waiting thread can pass at once, or as
      soon as the one thread that is passing has left. */
  lemma FreeLockWakes(s: State, t: nat)
    requires Reachable(s) && t in s.pcs && s.pcs[t].Waiting?
    ensures s.pcs[t].lock in s.locks
    ensures s.locks[s.pcs[t].lock].count == 0 ==>
      Enabled(s, Pass(t)) || exists u :: Enabled(s, Leave(u)) && Enabled(Apply(s, Leave(u)), Pass(t))
  {
    ReachableInv(s);
    assert GoodThread(s, t);
    var l := s.pcs[t].lock;
    LockDiscipline(s, l);
    if s.locks[l].count == 0 && s.locks[l].wakeup {
      var u :| u in Passers(s, l);
      assert Enabled(s, Leave(u)) && Enabled(Apply(s, Leave(u)), Pass(t));
    }
  }

  /** Thread `u` can go on: it runs user code, or has a step of its own. */
  predicate CanGoOn(s: State, u: nat) {
    u in s.pcs && (s.pcs[u].Running? || Enabled(s, Pass(u)) || Enabled(s, Leave(u)) || Enabled(s, Recheck(u)))
  }

  /** The system never deadlocks: every blocked thread waits, directly or through
      others, for a thread that can go on, or for one that can pass the gate of a
      free lock as soon as a passing thread, which can go on, has left it. */
  lemma NeverStuck(s: State, t: nat) returns (u: nat, n: nat, v: nat)
    requires Reachable(s) && t in s.pcs
    ensures Reaches(Edges(s), t, u, n) && CanGoOn(s, v)
    ensures v == u || (u in s.pcs && s.pcs[u].Waiting? && s.pcs[v] == Passing(s.pcs[u].lock))
  {
    ReachableInv(s);
    u, n := PathEnds(Edges(s), t);
    v := u;
    OnPathIsThread(s, t, u, n);
    assert GoodThread(s, u);
    if s.pcs[u].Waiting? && !Enabled(s, Pass(u)) {
      var l := s.pcs[u].lock;
      LockDiscipline(s, l);
      FreeLockWakes(s, u);
      v :| v in Passers(s, l);
    }
  }

  lemma {:induction false} OnPathIsThread(s: State, t: nat, u: nat, n: nat)
    requires Inv(s) && t in s.pcs && Reaches(Edges(s), t, u, n)
    ensures u in s.pcs
    decreases n
  {
    if n > 0 {
      assert GoodLock(s, s.blockingOn[t]);
      OnPathIsThread(s, Edges(s)[t], u, n - 1);
    }
  }
}

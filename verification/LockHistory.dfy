/** What the count of a module lock counts, and that it excludes other threads, over runs
    with their steps. */
module LockHistory {
  import opened Basics
  import opened ModuleLock
  import opened WaitGraph

  /** `run` with the step between each two states. */
  ghost predicate IsHistory(run: seq<State>, steps: seq<Step>) {
    && |run| == |steps| + 1 && Initial(run[0])
    && forall i :: 0 <= i < |steps| ==> Enabled(run[i], steps[i]) && run[i + 1] == Apply(run[i], steps[i])
  }

  /** In this step `acquire` of `l` returns True to `t`. */
  ghost predicate AcquiredBy(s: State, step: Step, t: nat, l: nat)
    requires Enabled(s, step)
  {
    match step
    case Begin(u, k) => u == t && k == l && TryLock(s.(blockingOn := s.blockingOn[t := l]), t, l).1 == Acquired
    case Recheck(u) => u == t && s.pcs[t].lock == l && TryLock(s, t, l).1 == Acquired
    case _ => false
  }

  /** In this step `release` of `l` returns to `t` without raising. */
  ghost predicate ReleasedBy(s: State, step: Step, t: nat, l: nat)
    requires Enabled(s, step)
  {
    step == Release(t, l) && ReleaseBody(s, t, l).1 == Released
  }

  /** How often `t` acquired `l` in the first `n` steps. */
  ghost function Acquires(run: seq<State>, steps: seq<Step>, n: nat, t: nat, l: nat): nat
    requires IsHistory(run, steps) && n <= |steps|
  {
    if n == 0 then 0
    else Acquires(run, steps, n - 1, t, l) + if AcquiredBy(run[n - 1], steps[n - 1], t, l) then 1 else 0
  }

  ghost function Releases(run: seq<State>, steps: seq<Step>, n: nat, t: nat, l: nat): nat
    requires IsHistory(run, steps) && n <= |steps|
  {
    if n == 0 then 0
    else Releases(run, steps, n - 1, t, l) + if ReleasedBy(run[n - 1], steps[n - 1], t, l) then 1 else 0
  }

  /** How deep `t` is in `l`. */
  function Depth(s: State, t: nat, l: nat): nat
    requires l in s.locks
  {
    if s.locks[l].owner == Some(t) then s.locks[l].count else 0
  }

  lemma {:induction false} HistoryKeepsInv(run: seq<State>, steps: seq<Step>, n: nat)
    requires IsHistory(run, steps) && n <= |steps|
    ensures Inv(run[n]) && run[n].locks.Keys == run[0].locks.Keys
    decreases n
  {
    if n == 0 {
      InitialInv(run[0]);
    } else {
      HistoryKeepsInv(run, steps, n - 1);
      StepKeepsInv(run[n - 1], steps[n - 1]);
      StepKeepsNames(run[n - 1], steps[n - 1]);
    }
  }

  lemma StepKeepsNames(s: State, step: Step)
    requires Inv(s) && Enabled(s, step)
    ensures Apply(s, step).locks.Keys == s.locks.Keys
  {
    hide Deadlock;
    match step
    case Begin(t, l) => assert l in s.locks;
    case Recheck(t) => assert s.pcs[t].lock in s.locks;
    case _ =>
  }

  /** One step moves the depth of a thread in a lock by what it acquired or released. */
  lemma StepMovesDepth(s: State, step: Step, t: nat, l: nat)
    requires Inv(s) && Enabled(s, step) && l in s.locks
    ensures l in Apply(s, step).locks
    ensures Depth(Apply(s, step), t, l)
         == Depth(s, t, l) + (if AcquiredBy(s, step, t, l) then 1 else 0)
            - (if ReleasedBy(s, step, t, l) then 1 else 0)
  {
    hide Deadlock; hide Acyclic; hide GoodThreads; hide Edges;
    assert GoodLock(s, l);
  }

  /** The acquisitions of a lock by a thread, less its releases, are the count of the lock if
      the thread owns it, and none otherwise. So the count of an owned lock is what its owner
      acquired and has not released since the lock was last free, and the lock is free again
      with the last of those releases and not before. */
  lemma {:induction false} CountIsDepth(run: seq<State>, steps: seq<Step>, n: nat, t: nat, l: nat)
    requires IsHistory(run, steps) && n <= |steps| && l in run[0].locks
    ensures l in run[n].locks
    ensures Acquires(run, steps, n, t, l) - Releases(run, steps, n, t, l)
         == if run[n].locks[l].owner == Some(t) then run[n].locks[l].count else 0
    decreases n
  {
    HistoryKeepsInv(run, steps, n);
    if n > 0 {
      CountIsDepth(run, steps, n - 1, t, l);
      HistoryKeepsInv(run, steps, n - 1);
      StepMovesDepth(run[n - 1], steps[n - 1], t, l);
    }
  }

  /** A lock is free exactly when every thread has released it as often as it acquired it. */
  lemma FreeIffReleased(run: seq<State>, steps: seq<Step>, n: nat, l: nat)
    requires IsHistory(run, steps) && n <= |steps| && l in run[0].locks
    ensures l in run[n].locks
    ensures run[n].locks[l].owner == None <==>
      forall t: nat :: Acquires(run, steps, n, t, l) == Releases(run, steps, n, t, l)
  {
    hide Acquires; hide Releases; hide IsHistory; hide Inv;
    var k := LockAfter(run, steps, n, l);
    if k.owner.Some? {
      CountIsDepth(run, steps, n, k.owner.value, l);
    } else {
      forall t: nat ensures Acquires(run, steps, n, t, l) == Releases(run, steps, n, t, l) {
        CountIsDepth(run, steps, n, t, l);
      }
    }
  }

  lemma LockAfter(run: seq<State>, steps: seq<Step>, n: nat, l: nat) returns (k: Lock)
    requires IsHistory(run, steps) && n <= |steps| && l in run[0].locks
    ensures n < |run| && l in run[n].locks && k == run[n].locks[l] && (k.owner.Some? ==> k.count > 0)
  {
    HistoryKeepsInv(run, steps, n);
    k := run[n].locks[l];
    assert GoodLock(run[n], l);
  }

  /** While a thread owns a lock, no step of another thread changes the owner or the count;
      its own steps change the owner only with the release that matches its first
      acquisition. */
  lemma OwnerStays(s: State, step: Step, t: nat, l: nat)
    requires Reachable(s) && Enabled(s, step) && l in s.locks && s.locks[l].owner == Some(t)
    ensures l in Apply(s, step).locks
    ensures var k, k' := s.locks[l], Apply(s, step).locks[l];
      if AcquiredBy(s, step, t, l) then k'.owner == Some(t) && k'.count == k.count + 1
      else if step == Release(t, l) then k'.count == k.count - 1 && k'.owner == if k.count == 1 then None else Some(t)
      else k'.owner == Some(t) && k'.count == k.count
    ensures forall u: nat :: u != t ==> !AcquiredBy(s, step, u, l)
  {
    hide Deadlock; hide Acyclic; hide GoodThreads; hide Edges;
    ReachableInv(s);
    assert GoodLock(s, l);
  }

  /** `acquire` succeeds at once on a lock that is free or the caller's, and only then. */
  lemma AcquiredIffFreeOrOwn(s: State, t: nat, l: nat)
    requires Reachable(s)
    ensures Enabled(s, Begin(t, l)) ==>
      (AcquiredBy(s, Begin(t, l), t, l) <==> s.locks[l].owner == None || s.locks[l].owner == Some(t))
    ensures Enabled(s, Recheck(t)) && s.pcs[t].lock == l ==>
      (AcquiredBy(s, Recheck(t), t, l) <==> s.locks[l].owner == None || s.locks[l].owner == Some(t))
  {
    hide Deadlock; hide Acyclic; hide GoodThreads; hide Edges;
    ReachableInv(s);
    if l in s.locks { assert GoodLock(s, l); }
  }

  /** A thread that has to wait finds the gate closed, and only the release that frees the
      lock, or a thread that leaves the gate, opens it. */
  lemma WaitsAtClosedGate(s: State, step: Step, t: nat, l: nat)
    requires Reachable(s) && Enabled(s, step) && (step == Begin(t, l) || (step == Recheck(t) && s.pcs[t].lock == l))
    requires Apply(s, step).pcs[t] == Waiting(l)
    ensures !Enabled(Apply(s, step), Pass(t))
  {
    hide Deadlock; hide Acyclic; hide GoodThreads; hide Edges;
  }

  lemma GateOpens(s: State, step: Step, l: nat)
    requires Reachable(s) && Enabled(s, step) && l in s.locks && s.locks[l].wakeup
    ensures l in Apply(s, step).locks
    ensures !Apply(s, step).locks[l].wakeup ==>
      || (step.Leave? && s.pcs[step.t] == Passing(l))
      || (step.Release? && step.l == l && s.locks[l].owner == Some(step.t) && s.locks[l].count == 1)
  {
    hide Deadlock; hide Acyclic; hide GoodThreads; hide Edges;
    ReachableInv(s);
    assert GoodLock(s, l);
  }
}

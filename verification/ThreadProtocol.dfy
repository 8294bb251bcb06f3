/**
 * The threads that exercise JavaScript next to a layout test: they replace themselves at
 * random, and a stop request has to wait for them. One step is one region under the lock, or
 * one private choice of a thread; steps of different threads interleave in any order.
 */
module ThreadProtocol {

  type Tid = nat

  const THREADS_COUNT: nat := 4

  /**
   * Where a worker thread is: setting up its context, evaluating the script, about to read the
   * terminate flag, past a false flag and about to throw the dice, about to take the lock to
   * replace itself, out of its loop and about to take the lock to clean up, or finished.
   */
  datatype Pc = Creating | Running | Checking | Deciding | Respawning | Cleanup | Done

  /** Where the main thread is; the copied vector and the number of waits that have returned. */
  datatype Main = NotStarted | Started | Stopping | Waiting(copy: seq<Tid>, waited: nat) | Cleared | Released

  /** `late` and `lateRespawns` record the threads created and the respawns made once the flag is set. */
  datatype State = State(
    flag: bool, registered: set<Tid>, pc: map<Tid, Pc>, next: Tid, main: Main,
    late: set<Tid>, lateRespawns: nat)

  const INITIAL: State := State(false, {}, map[], 0, NotStarted, {}, 0)

  datatype Action =
    | Setup(t: Tid) | Evaluate(t: Tid) | Check(t: Tid) | Decide(t: Tid, respawn: bool)
    | Respawn(t: Tid) | Finish(t: Tid)
    | Start | SetFlag | Copy(order: seq<Tid>) | Wait | Clear | Release

  // ----- steps -----

  predicate IsAt(s: State, t: Tid, p: Pc) {
    t in s.pc && s.pc[t] == p
  }

  predicate Enabled(s: State, a: Action) {
    match a
    case Setup(t) => IsAt(s, t, Creating)
    case Evaluate(t) => IsAt(s, t, Running)
    case Check(t) => IsAt(s, t, Checking)
    case Decide(t, _) => IsAt(s, t, Deciding)
    case Respawn(t) => IsAt(s, t, Respawning)
    case Finish(t) => IsAt(s, t, Cleanup)
    case Start => s.main == NotStarted
    case SetFlag => s.main == Started
    case Copy(order) => s.main == Stopping && Enumerates(order, s.registered)
    case Wait => s.main.Waiting? && s.main.waited < |s.main.copy| && IsAt(s, s.main.copy[s.main.waited], Done)
    case Clear => s.main.Waiting? && s.main.waited == |s.main.copy|
    case Release => s.main == Cleared
  }

  function Elements(order: seq<Tid>): set<Tid> {
    set t | t in order
  }

  predicate Enumerates(order: seq<Tid>, threads: set<Tid>) {
    Elements(order) == threads && forall i, j | 0 <= i < j < |order| :: order[i] != order[j]
  }

  function Move(s: State, t: Tid, p: Pc): State {
    s.(pc := s.pc[t := p])
  }

  function Do(s: State, a: Action): State
    requires Enabled(s, a)
  {
    match a
    case Setup(t) => Move(s, t, Running)
    case Evaluate(t) => Move(s, t, Checking)
    case Check(t) => Move(s, t, if s.flag then Cleanup else Deciding)
    case Decide(t, respawn) => Move(s, t, if respawn then Respawning else Running)
    case Respawn(t) =>
      s.(registered := s.registered - {t} + {s.next},
         pc := s.pc[t := Cleanup][s.next := Creating],
         next := s.next + 1,
         late := if s.flag then s.late + {s.next} else s.late,
         lateRespawns := if s.flag then s.lateRespawns + 1 else s.lateRespawns)
    case Finish(t) => Move(s, t, Done)
    case Start =>
      s.(registered := s.registered + {s.next, s.next + 1, s.next + 2, s.next + 3},
         pc := s.pc[s.next := Creating][s.next + 1 := Creating][s.next + 2 := Creating][s.next + 3 := Creating],
         next := s.next + 4,
         main := Started)
    case SetFlag => s.(flag := true, main := Stopping)
    case Copy(order) => s.(main := Waiting(order, 0))
    case Wait => s.(main := Waiting(s.main.copy, s.main.waited + 1))
    case Clear => s.(registered := {}, main := Cleared)
    case Release => s.(main := Released)
  }

  // ----- runs -----

  ghost predicate Runs(s: State, actions: seq<Action>, t: State)
    decreases |actions|
  {
    if actions == [] then s == t else Enabled(s, actions[0]) && Runs(Do(s, actions[0]), actions[1..], t)
  }

  ghost predicate Reaches(s: State, t: State) {
    exists actions :: Runs(s, actions, t)
  }

  ghost predicate Reachable(s: State) {
    Reaches(INITIAL, s)
  }

  lemma {:induction false} RunsAppend(s: State, a: seq<Action>, t: State, b: seq<Action>, u: State)
    requires Runs(s, a, t) && Runs(t, b, u)
    ensures Runs(s, a + b, u)
    decreases |a|
  {
    if a == [] {
      assert a + b == b;
    } else {
      assert (a + b)[1..] == a[1..] + b;
      RunsAppend(Do(s, a[0]), a[1..], t, b, u);
    }
  }

  lemma ReachesTrans(s: State, t: State, u: State)
    requires Reaches(s, t) && Reaches(t, u)
    ensures Reaches(s, u)
  {
    var a :| Runs(s, a, t);
    var b :| Runs(t, b, u);
    RunsAppend(s, a, t, b, u);
  }

  lemma ReachesStep(s: State, a: Action)
    requires Enabled(s, a)
    ensures Reaches(s, Do(s, a))
  {
    assert Runs(Do(s, a), [a][1..], Do(s, a));
    assert Runs(s, [a], Do(s, a));
  }

  // ----- the invariant -----

  predicate Working(p: Pc) {
    p != Cleanup && p != Done
  }

  predicate InWindow(p: Pc) {
    p == Deciding || p == Respawning
  }

  /** The threads that have seen a false flag and may still replace themselves. */
  function Window(s: State): set<Tid> {
    set t | t in s.pc && InWindow(s.pc[t])
  }

  ghost predicate BeforeClear(s: State) {
    s.main.Started? || s.main.Stopping? || s.main.Waiting?
  }

  ghost predicate Inv(s: State) {
    && (forall t | t in s.pc :: t < s.next) && s.registered <= s.pc.Keys && s.late <= s.pc.Keys
    && (s.flag <==> !s.main.NotStarted? && !s.main.Started?)
    && (s.main.NotStarted? ==> s.pc == map[])
    && (BeforeClear(s) ==> |s.registered| == THREADS_COUNT)
    && (BeforeClear(s) ==> forall t | t in s.pc && Working(s.pc[t]) :: t in s.registered)
    && (forall t | t in s.late :: !InWindow(s.pc[t]))
    && (!s.flag ==> s.late == {} && s.lateRespawns == 0)
    && (s.flag ==> s.lateRespawns + |Window(s)| <= THREADS_COUNT)
  }

  lemma MoveKeepsWindow(s: State, t: Tid, p: Pc)
    requires t in s.pc
    ensures Window(Move(s, t, p)) == (Window(s) - {t}) + (if InWindow(p) then {t} else {})
  {
  }

  lemma WindowIsRegistered(s: State)
    requires Inv(s) && BeforeClear(s)
    ensures Window(s) <= s.registered && |Window(s)| <= THREADS_COUNT
  {
    SubsetCardinality(Window(s), s.registered);
  }

  lemma {:induction false} SubsetCardinality(a: set<Tid>, b: set<Tid>)
    requires a <= b
    ensures |a| <= |b|
  {
    assert b == a + (b - a);
  }

  lemma MovePreserves(s: State, t: Tid, p: Pc)
    requires Inv(s) && t in s.pc
    requires Working(p) ==> Working(s.pc[t])
    requires InWindow(p) ==> InWindow(s.pc[t]) || !s.flag
    ensures Inv(Move(s, t, p))
  {
    MoveKeepsWindow(s, t, p);
    if s.flag {
      SubsetCardinality(Window(Move(s, t, p)), Window(s));
    }
  }

  lemma RespawnWindow(s: State, t: Tid)
    requires IsAt(s, t, Respawning) && s.next !in s.pc
    ensures Window(Do(s, Respawn(t))) == Window(s) - {t} && t in Window(s)
  {
  }

  lemma RespawnRegistered(s: State, t: Tid)
    requires Inv(s) && BeforeClear(s) && IsAt(s, t, Respawning)
    ensures var s' := Do(s, Respawn(t));
            |s'.registered| == THREADS_COUNT && forall u | u in s'.pc && Working(s'.pc[u]) :: u in s'.registered
  {
    assert t in s.registered && s.next !in s.registered;
    assert |s.registered - {t}| == THREADS_COUNT - 1;
  }

  lemma RespawnPreserves(s: State, t: Tid)
    requires Inv(s) && IsAt(s, t, Respawning)
    ensures Inv(Do(s, Respawn(t)))
  {
    assert s.next !in s.pc;
    RespawnWindow(s, t);
    assert |Window(s) - {t}| == |Window(s)| - 1;
    if BeforeClear(s) { RespawnRegistered(s, t); }
  }

  lemma StartPreserves(s: State)
    requires Inv(s) && s.main == NotStarted
    ensures Inv(Do(s, Start))
  {
    var n := s.next;
    assert s.registered == {};
    assert |{n, n + 1, n + 2, n + 3}| == 4;
    assert Window(Do(s, Start)) == {};
  }

  lemma StepPreserves(s: State, a: Action)
    requires Inv(s) && Enabled(s, a)
    ensures Inv(Do(s, a))
  {
    match a
    case Setup(t) => MovePreserves(s, t, Running);
    case Evaluate(t) => MovePreserves(s, t, Checking);
    case Check(t) => MovePreserves(s, t, if s.flag then Cleanup else Deciding);
    case Decide(t, respawn) => MovePreserves(s, t, if respawn then Respawning else Running);
    case Respawn(t) => RespawnPreserves(s, t);
    case Finish(t) => MovePreserves(s, t, Done);
    case Start => StartPreserves(s);
    case SetFlag => WindowIsRegistered(s); assert Window(Do(s, a)) == Window(s);
    case Copy(_) => assert Window(Do(s, a)) == Window(s);
    case Wait => assert Window(Do(s, a)) == Window(s);
    case Clear => assert Window(Do(s, a)) == Window(s);
    case Release => assert Window(Do(s, a)) == Window(s);
  }

  lemma {:induction false} RunPreserves(s: State, actions: seq<Action>, t: State)
    requires Inv(s) && Runs(s, actions, t)
    ensures Inv(t)
    decreases |actions|
  {
    if actions != [] {
      StepPreserves(s, actions[0]);
      RunPreserves(Do(s, actions[0]), actions[1..], t);
    }
  }

  lemma ReachableInv(s: State)
    requires Reachable(s)
    ensures Inv(s)
  {
    var actions :| Runs(INITIAL, actions, s);
    assert Window(INITIAL) == {};
    RunPreserves(INITIAL, actions, s);
  }

  // ----- what every run keeps -----

  /** From start to clear the set holds exactly four threads, so the copied vector has four. */
  lemma AlwaysFourRegistered(s: State)
    requires Reachable(s) && BeforeClear(s)
    ensures |s.registered| == THREADS_COUNT
    ensures forall order | Enabled(s, Copy(order)) :: |order| == THREADS_COUNT
  {
    ReachableInv(s);
    forall order | Enabled(s, Copy(order)) ensures |order| == THREADS_COUNT {
      EnumerationLength(order);
    }
  }

  lemma {:induction false} EnumerationLength(order: seq<Tid>)
    requires forall i, j | 0 <= i < j < |order| :: order[i] != order[j]
    ensures |Elements(order)| == |order|
  {
    if order != [] {
      var last := |order| - 1;
      EnumerationLength(order[..last]);
      assert Elements(order) == Elements(order[..last]) + {order[last]};
    }
  }

  /** Once the flag is set at most four respawns happen, and none by a thread created since. */
  lemma LateRespawnsBounded(s: State)
    requires Reachable(s)
    ensures s.lateRespawns <= THREADS_COUNT
    ensures forall t | t in s.late :: !Enabled(s, Respawn(t))
  {
    ReachableInv(s);
  }

  /** Once the set has been cleared, only threads created by respawns since then are in it. */
  ghost predicate OnlySince(s: State, first: Tid) {
    && (s.main == Cleared || s.main == Released) && first <= s.next
    && (forall t | t in s.registered :: t >= first)
  }

  lemma {:induction false} OnlySinceStays(s: State, actions: seq<Action>, t: State, first: Tid)
    requires OnlySince(s, first) && Runs(s, actions, t)
    ensures OnlySince(t, first)
    decreases |actions|
  {
    if actions != [] { OnlySinceStays(Do(s, actions[0]), actions[1..], t, first); }
  }

  lemma ClearEmptiesTheSet(s: State, t: State)
    requires Enabled(s, Clear) && Reaches(Do(s, Clear), t)
    ensures Do(s, Clear).registered == {} && forall x | x in t.registered :: x >= s.next
  {
    var actions :| Runs(Do(s, Clear), actions, t);
    OnlySinceStays(Do(s, Clear), actions, t, s.next);
  }

  // ----- what the waits cover -----

  /** All four waits have returned. */
  predicate WaitsReturned(s: State) {
    s.main.Waiting? && s.main.waited == |s.main.copy|
  }

  /** No thread is still in its loop; threads that replaced themselves may be cleaning up. */
  predicate NoWorkerLeft(s: State) {
    forall t | t in s.pc :: !Working(s.pc[t])
  }

  predicate AllDone(s: State) {
    forall t | t in s.pc :: s.pc[t] == Done
  }

  /** Nothing can be respawned any more, and the waits so far have met finished threads. */
  ghost predicate Quiet(s: State) {
    && Inv(s) && s.flag && Window(s) == {}
    && (s.main.Waiting? ==>
          && s.registered == Elements(s.main.copy) && s.main.waited <= |s.main.copy|
          && forall i | 0 <= i < s.main.waited :: IsAt(s, s.main.copy[i], Done))
  }

  lemma QuietStep(s: State, a: Action)
    requires Quiet(s) && s.main != Stopping && Enabled(s, a)
    ensures var s' := Do(s, a);
            && Quiet(s') && s'.pc.Keys == s.pc.Keys && s'.main != Stopping
            && (forall t | IsAt(s, t, Done) :: IsAt(s', t, Done))
            && (s.main.Waiting? && s'.main.Waiting? ==> s'.main.copy == s.main.copy)
            && (s'.main.Waiting? ==> s.main.Waiting?)
  {
    StepPreserves(s, a);
    QuietWindow(s, a);
  }

  /** With the flag set nobody enters the window, and from an empty one nobody respawns. */
  lemma QuietWindow(s: State, a: Action)
    requires Quiet(s) && Enabled(s, a)
    ensures !a.Respawn? && !a.Start? && Window(Do(s, a)) == {}
  {
    assert forall t | IsAt(s, t, Respawning) || IsAt(s, t, Deciding) :: t in Window(s);
    var s' := Do(s, a);
    forall t | t in s'.pc ensures !InWindow(s'.pc[t]) {
      assert t in s.pc && InWindow(s.pc[t]) ==> t in Window(s);
    }
  }

  lemma {:induction false} QuietRun(s: State, actions: seq<Action>, t: State)
    requires Quiet(s) && s.main != Stopping && Runs(s, actions, t)
    ensures Quiet(t) && t.pc.Keys == s.pc.Keys && (forall u | IsAt(s, u, Done) :: IsAt(t, u, Done))
    ensures t.main.Waiting? ==> s.main.Waiting? && t.main.copy == s.main.copy
    decreases |actions|
  {
    if actions != [] {
      QuietStep(s, actions[0]);
      QuietRun(Do(s, actions[0]), actions[1..], t);
    }
  }

  /** When nobody is in the window at the copy, the returned waits cover every registered thread. */
  lemma QuietWaitsCover(s: State, order: seq<Tid>, t: State)
    requires Inv(s) && Enabled(s, Copy(order)) && Window(s) == {}
    requires Reaches(Do(s, Copy(order)), t) && WaitsReturned(t)
    ensures NoWorkerLeft(t)
    ensures (forall u | u in s.pc && u !in s.registered :: s.pc[u] == Done) ==> AllDone(t)
  {
    var s1 := Do(s, Copy(order));
    StepPreserves(s, Copy(order));
    assert Window(s1) == Window(s);
    var actions :| Runs(s1, actions, t);
    QuietRun(s1, actions, t);
    forall u | u in t.pc && u in s.registered ensures t.pc[u] == Done {
      assert u in Elements(order);
      var i :| 0 <= i < |order| && order[i] == u;
    }
    assert forall u | u in s.pc && u !in s.registered && s.pc[u] == Done :: IsAt(s1, u, Done);
  }

  // ----- a run that leaves a thread behind -----

  function Distance(p: Pc): nat {
    match p
    case Done => 0
    case Cleanup => 1
    case Checking => 2
    case Respawning => 2
    case Running => 3
    case Creating => 4
    case Deciding => 4
  }

  /** A step of a thread that brings it closer to its end once the flag is set. */
  function Towards(s: State, x: Tid): Action
    requires x in s.pc && s.pc[x] != Done
  {
    match s.pc[x]
    case Creating => Setup(x)
    case Running => Evaluate(x)
    case Checking => Check(x)
    case Deciding => Decide(x, false)
    case Respawning => Respawn(x)
    case Cleanup => Finish(x)
  }

  /** `t` comes after `s` with thread `u` where it was, and every finished thread still finished. */
  ghost predicate Leaves(s: State, t: State, u: Tid) {
    && Reaches(s, t) && Inv(t) && t.flag && t.main == s.main
    && s.pc.Keys <= t.pc.Keys && u in s.pc && t.pc[u] == s.pc[u]
    && forall x | IsAt(s, x, Done) :: IsAt(t, x, Done)
  }

  lemma LeavesTrans(s: State, t: State, v: State, u: Tid)
    requires Leaves(s, t, u) && Leaves(t, v, u)
    ensures Leaves(s, v, u)
  {
    ReachesTrans(s, t, v);
  }

  lemma LeavesRefl(s: State, u: Tid)
    requires Inv(s) && s.flag && u in s.pc
    ensures Leaves(s, s, u)
  {
    assert Runs(s, [], s);
  }

  lemma TowardsLeaves(s: State, x: Tid, u: Tid)
    requires Inv(s) && s.flag && x in s.pc && s.pc[x] != Done && u in s.pc && u != x
    ensures Enabled(s, Towards(s, x)) && Leaves(s, Do(s, Towards(s, x)), u)
    ensures var s' := Do(s, Towards(s, x)); x in s'.pc && Distance(s'.pc[x]) < Distance(s.pc[x])
  {
    StepPreserves(s, Towards(s, x));
    ReachesStep(s, Towards(s, x));
  }

  lemma {:induction false} Drive(s: State, x: Tid, u: Tid) returns (t: State)
    requires Inv(s) && s.flag && x in s.pc && u in s.pc && u != x
    ensures Leaves(s, t, u) && IsAt(t, x, Done)
    decreases Distance(s.pc[x])
  {
    if s.pc[x] == Done {
      LeavesRefl(s, u);
      t := s;
    } else {
      var s' := Do(s, Towards(s, x));
      TowardsLeaves(s, x, u);
      t := Drive(s', x, u);
      LeavesTrans(s, s', t, u);
    }
  }

  lemma {:induction false} DriveAll(s: State, threads: seq<Tid>, u: Tid) returns (t: State)
    requires Inv(s) && s.flag && u in s.pc && u !in threads && (forall x | x in threads :: x in s.pc)
    ensures Leaves(s, t, u) && forall x | x in threads :: IsAt(t, x, Done)
    decreases |threads|
  {
    if threads == [] {
      LeavesRefl(s, u);
      t := s;
    } else {
      var s' := Drive(s, threads[0], u);
      t := DriveAll(s', threads[1..], u);
      LeavesTrans(s, s', t, u);
    }
  }

  lemma {:induction false} WaitAll(s: State) returns (t: State)
    requires s.main.Waiting? && s.main.waited <= |s.main.copy|
    requires forall x | x in s.main.copy :: IsAt(s, x, Done)
    ensures Reaches(s, t) && WaitsReturned(t) && t.pc == s.pc
    decreases |s.main.copy| - s.main.waited
  {
    if s.main.waited == |s.main.copy| {
      assert Runs(s, [], s);
      t := s;
    } else {
      ReachesStep(s, Wait);
      t := WaitAll(Do(s, Wait));
      ReachesTrans(s, Do(s, Wait), t);
    }
  }

  /** A thread outside the copied vector can be left as it is while all the waits return. */
  lemma WaitsMissThread(s: State, u: Tid) returns (t: State)
    requires Inv(s) && s.main.Waiting? && s.main.waited == 0 && Elements(s.main.copy) <= s.pc.Keys
    requires u in s.pc && u !in s.main.copy
    ensures Reaches(s, t) && WaitsReturned(t) && u in t.pc && t.pc[u] == s.pc[u]
  {
    assert forall x | x in s.main.copy :: x in Elements(s.main.copy);
    var s' := DriveAll(s, s.main.copy, u);
    t := WaitAll(s');
    ReachesTrans(s, s', t);
  }

  /** A thread in the window can respawn after the copy; its replacement is in nobody's vector. */
  lemma WindowLeaks(s: State, x: Tid) returns (t: State)
    requires Inv(s) && s.flag && s.main.Waiting? && x in Window(s)
    ensures Reaches(s, t) && Inv(t) && t.main == s.main && s.pc.Keys <= t.pc.Keys && IsAt(t, s.next, Creating)
  {
    var s0 := s;
    if s.pc[x] == Deciding {
      StepPreserves(s, Decide(x, true));
      ReachesStep(s, Decide(x, true));
      s0 := Do(s, Decide(x, true));
    } else {
      assert Runs(s, [], s);
    }
    StepPreserves(s0, Respawn(x));
    ReachesStep(s0, Respawn(x));
    t := Do(s0, Respawn(x));
    ReachesTrans(s, s0, t);
  }

  lemma LeakRun(s: State, order: seq<Tid>, x: Tid) returns (t: State)
    requires Inv(s) && Enabled(s, Copy(order)) && x in Window(s)
    ensures Reaches(Do(s, Copy(order)), t) && WaitsReturned(t) && !NoWorkerLeft(t)
  {
    var s1 := Do(s, Copy(order));
    StepPreserves(s, Copy(order));
    assert Window(s1) == Window(s);
    var s2 := WindowLeaks(s1, x);
    assert s.next !in order by { assert s.next in order ==> s.next in Elements(order); }
    t := WaitsMissThread(s2, s.next);
    ReachesTrans(s1, s2, t);
    assert Working(t.pc[s.next]);
  }

  /**
   * Whatever happens after stop has copied the set, no worker is left when its waits have returned,
   * if and only if no thread was between the flag check and the respawn lock at the copy.
   */
  lemma StopJoinsWorkersExactly(s: State, order: seq<Tid>)
    requires Reachable(s) && Enabled(s, Copy(order))
    ensures (forall t | Reaches(Do(s, Copy(order)), t) && WaitsReturned(t) :: NoWorkerLeft(t))
            <==> Window(s) == {}
  {
    ReachableInv(s);
    if Window(s) == {} {
      forall t | Reaches(Do(s, Copy(order)), t) && WaitsReturned(t) ensures NoWorkerLeft(t) {
        QuietWaitsCover(s, order, t);
      }
    } else {
      var x :| x in Window(s);
      var t := LeakRun(s, order, x);
    }
  }

  /**
   * All threads have finished when the waits have returned, if and only if in addition every thread
   * that replaced itself before the copy had finished by then: detached threads are not waited for.
   */
  lemma StopJoinsEveryThreadExactly(s: State, order: seq<Tid>)
    requires Reachable(s) && Enabled(s, Copy(order))
    ensures (forall t | Reaches(Do(s, Copy(order)), t) && WaitsReturned(t) :: AllDone(t))
            <==> Window(s) == {} && forall u | u in s.pc && u !in s.registered :: s.pc[u] == Done
  {
    ReachableInv(s);
    if Window(s) != {} {
      var x :| x in Window(s);
      var t := LeakRun(s, order, x);
      assert !AllDone(t);
    } else if u :| u in s.pc && u !in s.registered && s.pc[u] != Done {
      var s1 := Do(s, Copy(order));
      StepPreserves(s, Copy(order));
      assert u !in order by { assert u in order ==> u in Elements(order); }
      var t := WaitsMissThread(s1, u);
      assert !AllDone(t);
    } else {
      forall t | Reaches(Do(s, Copy(order)), t) && WaitsReturned(t) ensures AllDone(t) {
        QuietWaitsCover(s, order, t);
      }
    }
  }

  // ----- runs on which stopping leaves threads -----

  lemma ReachableStep(s: State, a: Action)
    requires Reachable(s) && Enabled(s, a)
    ensures Reachable(Do(s, a))
  {
    ReachesStep(s, a);
    ReachesTrans(INITIAL, s, Do(s, a));
  }

  /** Four threads have been started, the first has come to `p`, and the others have not begun. */
  ghost predicate FirstAt(s: State, p: Pc) {
    && s.main == Started && !s.flag && s.registered == {0, 1, 2, 3} && s.next == 4
    && s.pc == map[0 := p, 1 := Creating, 2 := Creating, 3 := Creating]
  }

  lemma StartedRun() returns (s: State)
    ensures Reachable(s) && FirstAt(s, Creating)
  {
    assert Runs(INITIAL, [], INITIAL);
    ReachableStep(INITIAL, Start);
    s := Do(INITIAL, Start);
  }

  lemma FirstMoves(s: State, p: Pc, a: Action, q: Pc)
    requires Reachable(s) && FirstAt(s, p) && Enabled(s, a) && Do(s, a) == Move(s, 0, q)
    ensures Reachable(Do(s, a)) && FirstAt(Do(s, a), q)
  {
    ReachableStep(s, a);
  }

  /** The first thread reads a false flag. */
  lemma FalseReadRun() returns (s: State)
    ensures Reachable(s) && FirstAt(s, Deciding)
  {
    s := StartedRun();
    FirstMoves(s, Creating, Setup(0), Running);
    s := Do(s, Setup(0));
    FirstMoves(s, Running, Evaluate(0), Checking);
    s := Do(s, Evaluate(0));
    FirstMoves(s, Checking, Check(0), Deciding);
    s := Do(s, Check(0));
  }

  lemma EarlyReadRun() returns (s: State)
    ensures Reachable(s) && s.main == Stopping && s.registered == {0, 1, 2, 3} && IsAt(s, 0, Deciding)
  {
    s := FalseReadRun();
    ReachableStep(s, SetFlag);
    s := Do(s, SetFlag);
  }

  /** The first thread replaces itself before the flag is set, and has not cleaned up yet. */
  lemma EarlyRespawnRun() returns (s: State)
    ensures Reachable(s) && s.main == Stopping && s.registered == {1, 2, 3, 4} && IsAt(s, 0, Cleanup)
    ensures Window(s) == {}
  {
    s := FalseReadRun();
    FirstMoves(s, Deciding, Decide(0, true), Respawning);
    s := Do(s, Decide(0, true));
    ReachableStep(s, Respawn(0));
    s := Do(s, Respawn(0));
    ReachableStep(s, SetFlag);
    s := Do(s, SetFlag);
    assert s.pc == map[0 := Cleanup, 1 := Creating, 2 := Creating, 3 := Creating, 4 := Creating];
  }

  lemma CopyOf(s: State, a: Tid, b: Tid, c: Tid, d: Tid)
    requires s.main == Stopping && a < b < c < d && s.registered == {a, b, c, d}
    ensures Enabled(s, Copy([a, b, c, d]))
  {
    var order := [a, b, c, d];
    assert Elements(order) == {order[0], order[1], order[2], order[3]};
  }

  /** A run on which the waits return while a worker is left. */
  lemma StopCanLeaveWorker() returns (s: State, order: seq<Tid>, t: State)
    ensures Reachable(s) && Enabled(s, Copy(order))
    ensures Reaches(Do(s, Copy(order)), t) && WaitsReturned(t) && !NoWorkerLeft(t)
  {
    s := EarlyReadRun();
    order := [0, 1, 2, 3];
    CopyOf(s, 0, 1, 2, 3);
    ReachableInv(s);
    t := LeakRun(s, order, 0);
  }

  /** A run on which they return with no worker left, but a replaced thread still cleaning up. */
  lemma StopCanLeaveCleanup() returns (s: State, order: seq<Tid>, t: State)
    ensures Reachable(s) && Enabled(s, Copy(order))
    ensures Reaches(Do(s, Copy(order)), t) && WaitsReturned(t) && NoWorkerLeft(t) && !AllDone(t)
  {
    s := EarlyRespawnRun();
    order := [1, 2, 3, 4];
    CopyOf(s, 1, 2, 3, 4);
    ReachableInv(s);
    t := CleanupIsMissed(s, order, 0);
  }

  lemma CleanupIsMissed(s: State, order: seq<Tid>, u: Tid) returns (t: State)
    requires Inv(s) && Enabled(s, Copy(order)) && Window(s) == {} && IsAt(s, u, Cleanup) && u !in s.registered
    ensures Reaches(Do(s, Copy(order)), t) && WaitsReturned(t) && NoWorkerLeft(t) && !AllDone(t)
  {
    StepPreserves(s, Copy(order));
    assert u !in order by { assert u in order ==> u in Elements(order); }
    t := WaitsMissThread(Do(s, Copy(order)), u);
    QuietWaitsCover(s, order, t);
  }
}

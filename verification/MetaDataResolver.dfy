/**
 * Resolving the metadata of one module: entries that name a parent wait in a list until the
 * parent has a number, and passes over the list remove what can be resolved by moving the last
 * entry into its place.
 */
module MetaDataResolver {
  import opened Wrappers

  /** An entry of the combined table. */
  datatype MetaData = MetaData(index: nat, name: Option<string>, parent: Option<nat>, val: Option<seq<string>>)

  type Table = map<string, MetaData>

  /** A line that names a parent: the module's own number, the name, the module's number of the parent. */
  datatype Unresolved = Unresolved(index: nat, name: string, parent: nat)

  /** The combined table by key, the module's numbers mapped into it, and the waiting entries. */
  datatype State = State(meta: Table, numbers: map<nat, nat>, waiting: seq<Unresolved>)

  // ----- one pass -----

  function SwapPop(s: seq<Unresolved>, i: nat): seq<Unresolved>
    requires i < |s|
  {
    s[i := s[|s| - 1]][..|s| - 1]
  }

  predicate Resolvable(s: State, m: Unresolved) {
    m.name in s.meta || m.parent in s.numbers
  }

  /** Number the entry at position `i`, and take it off the list. */
  function Resolve(s: State, i: nat): State
    requires i < |s.waiting| && Resolvable(s, s.waiting[i])
  {
    var m := s.waiting[i];
    var rest := SwapPop(s.waiting, i);
    if m.name in s.meta then
      State(s.meta, s.numbers[m.index := s.meta[m.name].index], rest)
    else
      var numbers := s.numbers[m.index := |s.meta|];
      State(s.meta[m.name := MetaData(|s.meta|, Some(m.name), Some(numbers[m.parent]), None)], numbers, rest)
  }

  function PassFrom(s: State, i: nat): State
    decreases |s.waiting| - i
  {
    if i >= |s.waiting| then s
    else if Resolvable(s, s.waiting[i]) then PassFrom(Resolve(s, i), i)
    else PassFrom(s, i + 1)
  }

  function Passes(s: State, n: nat): State
    decreases n
  {
    if n == 0 then s else Passes(PassFrom(s, 0), n - 1)
  }

  // ----- the rule for invariants -----

  /** Resolving an entry keeps the property. */
  ghost predicate KeptByResolving(inv: State -> bool) {
    forall s: State, i: nat | i < |s.waiting| && Resolvable(s, s.waiting[i]) && inv(s) :: inv(Resolve(s, i))
  }

  lemma {:induction false} PassKeeps(inv: State -> bool, s: State, i: nat)
    requires KeptByResolving(inv) && inv(s)
    ensures inv(PassFrom(s, i))
    decreases |s.waiting| - i
  {
    if i < |s.waiting| {
      if Resolvable(s, s.waiting[i]) {
        PassKeeps(inv, Resolve(s, i), i);
      } else {
        PassKeeps(inv, s, i + 1);
      }
    }
  }

  /** What every resolving step keeps, any number of passes keeps. */
  lemma {:induction false} PassesKeep(inv: State -> bool, s: State, n: nat)
    requires KeptByResolving(inv) && inv(s)
    ensures inv(Passes(s, n))
    decreases n
  {
    if n > 0 {
      PassKeeps(inv, s, 0);
      PassesKeep(inv, PassFrom(s, 0), n - 1);
    }
  }

  // ----- when the passes end -----

  /**
   * Waiting entries that can only be resolved after one another: none has a known name or parent,
   * and no entry outside the set shares a name with one of them or is the parent of one.
   */
  ghost predicate Unfounded(u: set<Unresolved>, s: State) {
    && u != {}
    && (forall m | m in u :: m in s.waiting && !Resolvable(s, m))
    && (forall m, e | m in u && e in s.waiting && e !in u :: e.name != m.name && e.index != m.parent)
  }

  ghost predicate WellFounded(s: State) {
    forall u :: !Unfounded(u, s)
  }

  lemma SwapPopElements(s: seq<Unresolved>, i: nat)
    requires i < |s|
    ensures |SwapPop(s, i)| == |s| - 1
    ensures forall k | 0 <= k < |s| - 1 :: SwapPop(s, i)[k] == if k == i then s[|s| - 1] else s[k]
    ensures forall e | e in SwapPop(s, i) :: e in s
    ensures forall e | e in s && e != s[i] :: e in SwapPop(s, i)
  {
    forall e | e in s && e != s[i] ensures e in SwapPop(s, i) {
      var k :| 0 <= k < |s| && s[k] == e;
      assert SwapPop(s, i)[if k == |s| - 1 then i else k] == e;
    }
  }

  lemma ResolveKeepsUnfounded(s: State, i: nat, u: set<Unresolved>)
    requires i < |s.waiting| && Resolvable(s, s.waiting[i]) && Unfounded(u, s)
    ensures Unfounded(u, Resolve(s, i))
  {
    SwapPopElements(s.waiting, i);
  }

  lemma PassesKeepUnfounded(s: State, n: nat, u: set<Unresolved>)
    requires Unfounded(u, s)
    ensures Passes(s, n).waiting != []
  {
    var inv := (t: State) => Unfounded(u, t);
    forall t: State, i: nat | i < |t.waiting| && Resolvable(t, t.waiting[i]) && inv(t) ensures inv(Resolve(t, i)) {
      ResolveKeepsUnfounded(t, i, u);
    }
    PassesKeep(inv, s, n);
    UnfoundedWaits(u, Passes(s, n));
  }

  lemma UnfoundedWaits(u: set<Unresolved>, s: State)
    requires Unfounded(u, s)
    ensures s.waiting != []
  {
    var m :| m in u;
  }

  lemma ResolveKeepsWellFounded(s: State, i: nat)
    requires i < |s.waiting| && Resolvable(s, s.waiting[i]) && WellFounded(s)
    ensures WellFounded(Resolve(s, i))
  {
    SwapPopElements(s.waiting, i);
    forall u ensures !Unfounded(u, Resolve(s, i)) {
      if Unfounded(u, Resolve(s, i)) {
        assert Unfounded(u, s);
      }
    }
  }

  lemma PassKeepsWellFounded(s: State, i: nat)
    requires WellFounded(s)
    ensures WellFounded(PassFrom(s, i))
  {
    var inv := (t: State) => WellFounded(t);
    forall t: State, k: nat | k < |t.waiting| && Resolvable(t, t.waiting[k]) && inv(t) ensures inv(Resolve(t, k)) {
      ResolveKeepsWellFounded(t, k);
    }
    PassKeeps(inv, s, i);
  }

  lemma {:induction false} PassNeverGrows(s: State, i: nat)
    ensures |PassFrom(s, i).waiting| <= |s.waiting|
    ensures (exists k :: i <= k < |s.waiting| && Resolvable(s, s.waiting[k])) ==> |PassFrom(s, i).waiting| < |s.waiting|
    decreases |s.waiting| - i
  {
    if i < |s.waiting| {
      if Resolvable(s, s.waiting[i]) {
        PassNeverGrows(Resolve(s, i), i);
      } else {
        PassNeverGrows(s, i + 1);
      }
    }
  }

  lemma {:induction false} PassLeavesBehind(s: State, i: nat, m: Unresolved)
    requires m in PassFrom(s, i).waiting && Resolvable(s, m) && i <= |s.waiting|
    ensures m in s.waiting[..i]
    decreases |s.waiting| - i
  {
    if i < |s.waiting| {
      if Resolvable(s, s.waiting[i]) {
        var t := Resolve(s, i);
        SwapPopElements(s.waiting, i);
        assert t.waiting[..i] == s.waiting[..i];
        PassLeavesBehind(t, i, m);
      } else {
        PassLeavesBehind(s, i + 1, m);
        assert s.waiting[..i + 1] == s.waiting[..i] + [s.waiting[i]];
      }
    } else {
      assert s.waiting[..i] == s.waiting;
    }
  }

  /** A pass resolves every entry that is ready when it begins. */
  lemma PassResolvesAllReady(s: State, m: Unresolved)
    requires m in s.waiting && Resolvable(s, m)
    ensures m !in PassFrom(s, 0).waiting
  {
    if m in PassFrom(s, 0).waiting {
      PassLeavesBehind(s, 0, m);
    }
  }

  /** In a well-founded state with entries waiting, a pass resolves at least one. */
  lemma PassProgresses(s: State)
    requires WellFounded(s) && s.waiting != []
    ensures |PassFrom(s, 0).waiting| < |s.waiting|
  {
    var u := set m | m in s.waiting;
    assert s.waiting[0] in u;
    assert !Unfounded(u, s);
    var m :| m in s.waiting && Resolvable(s, m);
    var k :| 0 <= k < |s.waiting| && s.waiting[k] == m;
    PassNeverGrows(s, 0);
  }

  lemma {:induction false} PassesEnd(s: State) returns (n: nat)
    requires WellFounded(s)
    ensures Passes(s, n).waiting == []
    decreases |s.waiting|
  {
    if s.waiting == [] {
      n := 0;
    } else {
      PassProgresses(s);
      PassKeepsWellFounded(s, 0);
      var m := PassesEnd(PassFrom(s, 0));
      n := m + 1;
    }
  }

  /** The resolver's loop ends if and only if no set of waiting entries is unfounded. */
  lemma ResolverEndsExactly(s: State)
    ensures (exists n: nat :: Passes(s, n).waiting == []) <==> WellFounded(s)
  {
    if WellFounded(s) {
      var n := PassesEnd(s);
    } else {
      var u :| Unfounded(u, s);
      forall n: nat ensures Passes(s, n).waiting != [] {
        PassesKeepUnfounded(s, n, u);
      }
    }
  }

  /** An entry whose name is new and whose parent no line numbers is never resolved. */
  lemma UndefinedParentNeverEnds(n: nat)
    ensures Passes(State(map[], map[], [Unresolved(0, "a", 7)]), n).waiting != []
  {
    var m := Unresolved(0, "a", 7);
    var s := State(map[], map[], [m]);
    assert m in s.waiting;
    assert Unfounded({m}, s);
    PassesKeepUnfounded(s, n, {m});
  }

  // ----- as many passes as entries -----

  /** The state after as many passes as there are entries waiting. */
  function Resolved(s: State): State {
    Passes(s, |s.waiting|)
  }

  lemma {:induction false} NothingWaiting(s: State, n: nat)
    requires s.waiting == []
    ensures Passes(s, n) == s
    decreases n
  {
    if n > 0 { NothingWaiting(s, n - 1); }
  }

  lemma {:induction false} EnoughPasses(s: State, n: nat)
    requires WellFounded(s) && |s.waiting| <= n
    ensures Passes(s, n).waiting == [] && Passes(s, n) == Resolved(s)
    decreases n
  {
    if s.waiting == [] {
      NothingWaiting(s, n);
    } else {
      PassProgresses(s);
      PassKeepsWellFounded(s, 0);
      var t := PassFrom(s, 0);
      EnoughPasses(t, n - 1);
      EnoughPasses(t, |s.waiting| - 1);
    }
  }

  lemma ResolvedAfterPass(s: State)
    requires WellFounded(s) && s.waiting != []
    ensures Resolved(PassFrom(s, 0)) == Resolved(s)
  {
    PassProgresses(s);
    PassKeepsWellFounded(s, 0);
    EnoughPasses(PassFrom(s, 0), |s.waiting| - 1);
  }

  /** That many passes are enough if any number is. */
  lemma ResolvedExactly(s: State)
    ensures Resolved(s).waiting == [] <==> WellFounded(s)
  {
    if WellFounded(s) {
      EnoughPasses(s, |s.waiting|);
    } else {
      ResolverEndsExactly(s);
      assert Passes(s, |s.waiting|).waiting != [];
    }
  }

  /** A pass that resolves nothing changes nothing, so the loop would repeat it for ever. */
  lemma {:induction false} IdlePassChangesNothing(s: State, i: nat)
    requires |PassFrom(s, i).waiting| == |s.waiting|
    ensures PassFrom(s, i) == s
    decreases |s.waiting| - i
  {
    if i < |s.waiting| {
      if Resolvable(s, s.waiting[i]) {
        PassNeverGrows(Resolve(s, i), i);
      } else {
        IdlePassChangesNothing(s, i + 1);
      }
    }
  }

  lemma IdlePassNeverEnds(s: State)
    requires s.waiting != [] && |PassFrom(s, 0).waiting| == |s.waiting|
    ensures !WellFounded(s)
  {
    if WellFounded(s) { PassProgresses(s); }
  }

  /** A pass leads to a well-founded state only from one. */
  lemma PassReflectsWellFounded(s: State)
    requires WellFounded(PassFrom(s, 0))
    ensures WellFounded(s)
  {
    var t := PassFrom(s, 0);
    EnoughPasses(t, |t.waiting|);
    assert Passes(s, |t.waiting| + 1).waiting == [];
    ResolverEndsExactly(s);
  }

  // ----- acyclic parent chains are enough -----

  /** Every waiting entry is known by name or parent, or its parent is a waiting entry of lower rank. */
  ghost predicate Ranked(s: State, rank: Unresolved -> nat) {
    forall m | m in s.waiting :: Resolvable(s, m) || HasLowerParent(s, rank, m)
  }

  ghost predicate HasLowerParent(s: State, rank: Unresolved -> nat, m: Unresolved) {
    exists e :: e in s.waiting && e.index == m.parent && rank(e) < rank(m)
  }

  lemma {:induction false} LowestRank(u: set<Unresolved>, rank: Unresolved -> nat) returns (m: Unresolved)
    requires u != {}
    ensures m in u && forall e | e in u :: rank(m) <= rank(e)
    decreases u
  {
    m :| m in u;
    if u != {m} {
      var rest := u - {m};
      assert u == rest + {m};
      var k := LowestRank(rest, rank);
      assert forall e | e in u :: e == m || e in rest;
      if rank(k) < rank(m) { m := k; }
    }
  }

  lemma LowestIsFounded(s: State, rank: Unresolved -> nat, u: set<Unresolved>, m: Unresolved)
    requires m in u && m in s.waiting && HasLowerParent(s, rank, m)
    requires forall e | e in u :: rank(m) <= rank(e)
    ensures !Unfounded(u, s)
  {
    var e :| e in s.waiting && e.index == m.parent && rank(e) < rank(m);
    assert e !in u;
  }

  lemma AcyclicChainsResolve(s: State, rank: Unresolved -> nat)
    requires Ranked(s, rank)
    ensures WellFounded(s)
  {
    forall u ensures !Unfounded(u, s) {
      if Unfounded(u, s) {
        var m := LowestRank(u, rank);
        LowestIsFounded(s, rank, u, m);
      }
    }
  }

  // ----- what resolving keeps -----

  /** Table indices are 0..n-1, each used once, and no parent's index is above its child's. */
  ghost predicate Dense(meta: Table) {
    && (forall k | k in meta :: meta[k].index < |meta|)
    && (forall k, l | k in meta && l in meta && k != l :: meta[k].index != meta[l].index)
    && (forall k | k in meta && meta[k].parent.Some? :: meta[k].parent.value <= meta[k].index)
  }

  /** Every parent's index is below its child's. */
  ghost predicate Ordered(meta: Table) {
    forall k | k in meta && meta[k].parent.Some? :: meta[k].parent.value < meta[k].index
  }

  /** Every number of the module names an entry of the table. */
  ghost predicate Numbered(meta: Table, numbers: map<nat, nat>) {
    forall n | n in numbers :: numbers[n] < |meta|
  }

  /** Entries are only ever added. */
  ghost predicate Grows(a: Table, b: Table) {
    forall k | k in a :: k in b && b[k] == a[k]
  }

  lemma AddEntry(meta: Table, key: string, e: MetaData)
    requires Dense(meta) && key !in meta && e.index == |meta|
    requires e.parent.Some? ==> e.parent.value <= |meta|
    ensures Dense(meta[key := e]) && |meta[key := e]| == |meta| + 1 && Grows(meta, meta[key := e])
  {
    SizeAfterAdd(meta, key, e);
    var more := meta[key := e];
    forall k | k in more ensures more[k].index < |more| { }
  }

  lemma SizeAfterAdd(meta: Table, key: string, e: MetaData)
    requires key !in meta
    ensures |meta[key := e]| == |meta| + 1
  {
    assert meta[key := e].Keys == meta.Keys + {key};
    assert |meta[key := e].Keys| == |meta.Keys| + 1;
  }

  lemma ResolveKeepsTable(s: State, i: nat)
    requires i < |s.waiting| && Resolvable(s, s.waiting[i])
    requires Dense(s.meta) && Numbered(s.meta, s.numbers)
    ensures var t := Resolve(s, i);
            && Dense(t.meta) && Numbered(t.meta, t.numbers) && Grows(s.meta, t.meta)
            && |s.meta| <= |t.meta| && t.meta.Keys == s.meta.Keys + {s.waiting[i].name}
  {
    var m := s.waiting[i];
    if m.name !in s.meta {
      var numbers := s.numbers[m.index := |s.meta|];
      AddEntry(s.meta, m.name, MetaData(|s.meta|, Some(m.name), Some(numbers[m.parent]), None));
    }
  }

  // ----- when parents stay below their children -----

  /** The entry names itself as its parent, under a name the table does not have. */
  predicate SelfParent(s: State, m: Unresolved) {
    m.parent == m.index && m.name !in s.meta
  }

  ghost predicate HasSelfParent(s: State) {
    exists m :: m in s.waiting && SelfParent(s, m)
  }

  /** A resolving step keeps parents below children if and only if the entry is not its own parent. */
  lemma ResolveKeepsOrderExactly(s: State, i: nat)
    requires i < |s.waiting| && Resolvable(s, s.waiting[i])
    requires Dense(s.meta) && Numbered(s.meta, s.numbers) && Ordered(s.meta)
    ensures Ordered(Resolve(s, i).meta) <==> !SelfParent(s, s.waiting[i])
  {
    var m, t := s.waiting[i], Resolve(s, i);
    if m.name !in s.meta {
      assert m.name in t.meta && t.meta[m.name].index == |s.meta|;
    }
  }

  /** Dense and in order, with nothing that waits to spoil the order. */
  ghost predicate InOrder(s: State) {
    Dense(s.meta) && Numbered(s.meta, s.numbers) && Ordered(s.meta) && !HasSelfParent(s)
  }

  lemma ResolveKeepsInOrder(s: State, i: nat)
    requires i < |s.waiting| && Resolvable(s, s.waiting[i]) && InOrder(s)
    ensures InOrder(Resolve(s, i))
  {
    ResolveKeepsTable(s, i);
    ResolveKeepsOrderExactly(s, i);
    SwapPopElements(s.waiting, i);
  }

  /** Without self-parents, parents stay below their children through all passes. */
  lemma PassesKeepOrder(s: State, n: nat)
    requires InOrder(s)
    ensures Ordered(Passes(s, n).meta)
  {
    var inv := (t: State) => InOrder(t);
    forall t: State, i: nat | i < |t.waiting| && Resolvable(t, t.waiting[i]) && inv(t) ensures inv(Resolve(t, i)) {
      ResolveKeepsInOrder(t, i);
    }
    PassesKeep(inv, s, n);
    assert InOrder(Passes(s, n));
  }

  /** All that waits under the name is its own parent. */
  ghost predicate OnlySelf(s: State, name: string) {
    forall m | m in s.waiting && m.name == name :: m.parent == m.index
  }

  /** The name waits with self-parents only, or has been entered with itself as parent. */
  ghost predicate Doomed(s: State, name: string) {
    if name in s.meta then s.meta[name].parent == Some(s.meta[name].index)
    else OnlySelf(s, name) && exists m :: m in s.waiting && m.name == name
  }

  lemma ResolveKeepsDoomed(s: State, i: nat, name: string)
    requires i < |s.waiting| && Resolvable(s, s.waiting[i]) && Doomed(s, name)
    ensures Doomed(Resolve(s, i), name)
  {
    SwapPopElements(s.waiting, i);
    assert s.waiting[i] in s.waiting;
  }

  lemma PassesKeepDoomed(s: State, n: nat, name: string)
    requires Doomed(s, name)
    ensures Doomed(Passes(s, n), name)
  {
    var inv := (t: State) => Doomed(t, name);
    forall t: State, i: nat | i < |t.waiting| && Resolvable(t, t.waiting[i]) && inv(t) ensures inv(Resolve(t, i)) {
      ResolveKeepsDoomed(t, i, name);
    }
    PassesKeep(inv, s, n);
  }

  /**
   * Unless some name waits both with itself and with another as parent, the resolver keeps parents
   * below their children if and only if no waiting entry with a new name is its own parent.
   */
  lemma ResolverKeepsOrderExactly(s: State)
    requires WellFounded(s) && Dense(s.meta) && Numbered(s.meta, s.numbers) && Ordered(s.meta)
    requires forall m | m in s.waiting && SelfParent(s, m) :: OnlySelf(s, m.name)
    ensures Ordered(Resolved(s).meta) <==> !HasSelfParent(s)
  {
    if HasSelfParent(s) {
      var m :| m in s.waiting && SelfParent(s, m);
      PassesKeepDoomed(s, |s.waiting|, m.name);
      ResolvedExactly(s);
    } else {
      PassesKeepOrder(s, |s.waiting|);
    }
  }
}

/**
 * The built graph is well-formed SSA: every block ends once, every phi has one value per
 * predecessor, every register is defined once, and every use is dominated by its definition.
 */
module SsaWellFormed {
  import opened Wrappers
  import opened SsaIr
  import opened SsaBuilder

  // ----- well-formed SSA -----

  ghost predicate DefinedBefore(b: Block, pc: nat, r: nat) {
    || (exists k :: 0 <= k < |b.phis| && b.phis[k].dst == r)
    || (exists k :: 0 <= k < pc && k < |b.body| && b.body[k].dst == r)
  }

  ghost predicate DefinedIn(b: Block, r: nat) {
    DefinedBefore(b, |b.body|, r)
  }

  function Operands(op: Op): seq<Operand> {
    match op
    case Add(a, b) => [a, b]
    case Sub(a, b) => [a, b]
    case And(a, b) => [a, b]
    case IcmpNe(a, b) => [a, b]
    case ZExt(a) => [a]
    case Shl(a, _) => [a]
    case Add64(a, b) => [a, b]
    case IntToPtr(a) => [a]
    case Load(p) => [p]
  }

  function TermOperands(t: Term): seq<Operand> {
    match t
    case Br(_) => []
    case CondBr(c, _, _) => [c]
    case Ret(v) => [v]
  }

  /** When block `x` is about to run instruction `pc`, register `r` has been assigned on every path. */
  ghost predicate Available(g: Graph, x: nat, pc: nat, v: Operand)
    requires x < |g|
  {
    v.Reg? ==>
      || DefinedBefore(g[x], pc, v.id)
      || exists d :: 0 <= d < |g| && d != x && DefinedIn(g[d], v.id) && Dominates(g, d, x)
  }

  /** Every operand used in block `x` is available where it is used; a phi uses it at the end of the edge's source. */
  ghost predicate UsesDominatedIn(g: Graph, x: nat)
    requires x < |g|
  {
    && (forall pc, k | 0 <= pc < |g[x].body| && 0 <= k < |Operands(g[x].body[pc].op)| ::
          Available(g, x, pc, Operands(g[x].body[pc].op)[k]))
    && (g[x].term.Some? ==> forall k | 0 <= k < |TermOperands(g[x].term.value)| ::
          Available(g, x, |g[x].body|, TermOperands(g[x].term.value)[k]))
    && (forall p, k | 0 <= p < |g[x].phis| && 0 <= k < |g[x].phis[p].incoming| ::
          var (v, from) := g[x].phis[p].incoming[k];
          from < |g| && Available(g, from, |g[from].body|, v))
  }

  ghost predicate UsesDominated(g: Graph) {
    forall x | 0 <= x < |g| :: UsesDominatedIn(g, x)
  }

  function Sources(incoming: seq<(Operand, nat)>): set<nat> {
    set k | 0 <= k < |incoming| :: incoming[k].1
  }

  ghost predicate DistinctSources(incoming: seq<(Operand, nat)>) {
    forall i, j | 0 <= i < j < |incoming| :: incoming[i].1 != incoming[j].1
  }

  /** Each phi has exactly one incoming value for each predecessor of its block. */
  ghost predicate PhisMatch(g: Graph) {
    forall x, p | 0 <= x < |g| && 0 <= p < |g[x].phis| ::
      DistinctSources(g[x].phis[p].incoming) && Sources(g[x].phis[p].incoming) == Predecessors(g, x)
  }

  /** The number of registers a block assigns, and the register assigned in place `i`, phis first. */
  function DefCount(b: Block): nat {
    |b.phis| + |b.body|
  }

  function DefAt(b: Block, i: nat): nat
    requires i < DefCount(b)
  {
    if i < |b.phis| then b.phis[i].dst else b.body[i - |b.phis|].dst
  }

  /** No register is assigned in two places. */
  ghost predicate SingleAssignment(g: Graph) {
    forall x, i, y, j | 0 <= x < |g| && 0 <= i < DefCount(g[x]) && 0 <= y < |g| && 0 <= j < DefCount(g[y])
      && DefAt(g[x], i) == DefAt(g[y], j) :: x == y && i == j
  }

  ghost predicate Terminated(g: Graph) {
    forall x | 0 <= x < |g| :: g[x].term.Some?
  }

  // ----- levels -----

  /** The successive current blocks, and for every block how many of them precede it on every path. */
  datatype Shape = Shape(spine: seq<nat>, level: seq<nat>)

  /** The shape after `added` more blocks, the last of which is the next current block. */
  function Grow(s: Shape, blocks: nat, added: nat): Shape
    requires s.spine != [] && added >= 1
  {
    var k: nat := |s.spine| - 1;
    Shape(s.spine + [blocks + added - 1], s.level + seq(added, j => if j == added - 1 then k + 1 else k))
  }

  ghost predicate Levelled(g: Graph, s: Shape) {
    && s.spine != [] && s.spine[0] == 0 && |s.level| == |g|
    && (forall j | 0 <= j < |s.spine| :: s.spine[j] < |g| && s.level[s.spine[j]] == j)
    && (forall x | 0 <= x < |g| :: s.level[x] < |s.spine|)
  }

  ghost predicate EdgesInside(g: Graph) {
    forall x, y | 0 <= x < |g| && y in Successors(g[x]) :: 0 < y < |g|
  }

  /** An edge goes to the same level, or to the next one when it enters that level's spine block. */
  ghost predicate EdgesClimb(g: Graph, s: Shape)
    requires Levelled(g, s)
  {
    EdgesInside(g) && forall x, y | 0 <= x < |g| && y in Successors(g[x]) ::
      s.level[y] <= s.level[x] + (if y == s.spine[s.level[y]] then 1 else 0)
  }

  /** A path to a block goes through the spine up to the block's level. */
  lemma {:induction false} PathFollowsSpine(g: Graph, s: Shape, path: seq<nat>, j: nat)
    requires Levelled(g, s) && EdgesClimb(g, s) && IsPath(g, path) && j <= s.level[path[|path| - 1]]
    ensures s.spine[j] in path
    decreases |path|
  {
    var x := path[|path| - 1];
    if s.spine[j] != x {
      assert s.level[s.spine[0]] == 0;
      if |path| > 1 {
        var init := path[..|path| - 1];
        assert x in Successors(g[path[|path| - 2]]);
        assert x == path[|path| - 2 + 1];
        PathFollowsSpine(g, s, init, j);
      }
    }
  }

  lemma SpineDominates(g: Graph, s: Shape, x: nat, j: nat)
    requires Levelled(g, s) && EdgesClimb(g, s) && x < |g| && j <= s.level[x]
    ensures Dominates(g, s.spine[j], x)
  {
    forall path | IsPath(g, path) && path[|path| - 1] == x ensures s.spine[j] in path {
      PathFollowsSpine(g, s, path, j);
    }
  }

  // ----- one construct, seen as an extension of the graph -----

  /** The graph `g` with its open block `c` closed and blocks added. */
  datatype Growth = Growth(g: Graph, c: nat, closed: Block, added: seq<Block>) {
    function After(): Graph
      requires c < |g|
    {
      g[c := closed] + added
    }

    function NextShape(s: Shape): Shape
      requires s.spine != [] && added != []
    {
      Grow(s, |g|, |added|)
    }

    /** New edges go to new blocks only. */
    ghost predicate Valid() {
      && c < |g| && added != []
      && g[c].term.None? && closed.phis == g[c].phis && g[c].body <= closed.body
      && (forall y | y in Successors(closed) :: |g| <= y < |g| + |added|)
      && (forall k, y | 0 <= k < |added| && y in Successors(added[k]) :: |g| <= y < |g| + |added|)
    }

    /** The growth starts at the last spine block of a levelled graph. */
    ghost predicate Fits(s: Shape) {
      Valid() && Levelled(g, s) && EdgesClimb(g, s) && c == s.spine[|s.spine| - 1]
    }
  }

  /** The growth a diamond makes: a test of `p`, increments of `t` and `f`, the join. */
  ghost predicate IsDiamond(e: Growth, r: nat, p: Operand, t: Operand, f: Operand) {
    var x := |e.g|;
    && e.c < x && e.closed == Tested(e.g[e.c], r, p, x, x + 1)
    && e.added == [Incremented(r + 1, t, x + 2), Incremented(r + 2, f, x + 2), DiamondExit(r, t, f, x)]
  }

  /** The growth a loop makes: a test of `start`, the body, the exit. */
  ghost predicate IsLoop(e: Growth, r: nat, start: Operand, base: nat, numVars: nat) {
    var x := |e.g|;
    && numVars >= 1 && e.c < x && e.closed == Tested(e.g[e.c], r, start, x, x + 1)
    && e.added == [LoopBody(r, start, e.c, x, base, numVars), LoopExit(r, e.c, x)]
  }

  function ConstructGrowth(b: Built, i: nat, base: nat): Growth
    requires b.vars != [] && b.current < |b.blocks|
  {
    var b' := AddConstruct(b, i, base);
    Growth(b.blocks, b.current, b'.blocks[b.current], b'.blocks[|b.blocks|..])
  }

  lemma ConstructGrows(b: Built, i: nat, base: nat)
    requires b.vars != [] && OneOpen(b)
    ensures var b' := AddConstruct(b, i, base); var e := ConstructGrowth(b, i, base);
            e.Valid() && e.After() == b'.blocks && b'.current == |b'.blocks| - 1
  {
  }

  lemma GrowthLevels(e: Growth, s: Shape)
    requires e.Fits(s)
    ensures Levelled(e.After(), e.NextShape(s))
    ensures forall x | 0 <= x < |e.g| :: e.NextShape(s).level[x] == s.level[x]
    ensures forall j | 0 <= j < |s.spine| :: e.NextShape(s).spine[j] == s.spine[j]
    ensures forall x | |e.g| <= x < |e.After()| ::
              e.NextShape(s).level[x] == if x == |e.After()| - 1 then |s.spine| else |s.spine| - 1
  {
  }

  lemma NewEdgeClimbs(e: Growth, s: Shape, x: nat, y: nat)
    requires e.Fits(s) && (x == e.c || |e.g| <= x < |e.After()|) && |e.g| <= y < |e.After()|
    ensures var s' := e.NextShape(s);
            && Levelled(e.After(), s')
            && s'.level[y] <= s'.level[x] + (if y == s'.spine[s'.level[y]] then 1 else 0)
  {
    GrowthLevels(e, s);
  }

  lemma ExtensionLevels(e: Growth, s: Shape)
    requires e.Fits(s)
    ensures Levelled(e.After(), e.NextShape(s)) && EdgesClimb(e.After(), e.NextShape(s))
  {
    GrowthLevels(e, s);
    var g', s' := e.After(), e.NextShape(s);
    forall x, y | 0 <= x < |g'| && y in Successors(g'[x])
      ensures 0 < y < |g'| && s'.level[y] <= s'.level[x] + (if y == s'.spine[s'.level[y]] then 1 else 0)
    {
      if x < |e.g| && x != e.c {
        assert y in Successors(e.g[x]);
      } else {
        assert g'[x] == if x == e.c then e.closed else e.added[x - |e.g|];
        NewEdgeClimbs(e, s, x, y);
      }
    }
  }

  // ----- uses -----

  /** `v` is defined earlier in block `x`, or in a spine block at or above the level of `x`. */
  ghost predicate OnSpine(g: Graph, s: Shape, x: nat, pc: nat, v: Operand)
    requires Levelled(g, s) && x < |g|
  {
    v.Reg? ==>
      || DefinedBefore(g[x], pc, v.id)
      || exists j :: 0 <= j <= s.level[x] && s.spine[j] != x && DefinedIn(g[s.spine[j]], v.id)
  }

  ghost predicate BodyOnSpine(g: Graph, s: Shape, x: nat)
    requires Levelled(g, s) && x < |g|
  {
    forall pc, k | 0 <= pc < |g[x].body| && 0 <= k < |Operands(g[x].body[pc].op)| ::
      OnSpine(g, s, x, pc, Operands(g[x].body[pc].op)[k])
  }

  ghost predicate TermOnSpine(g: Graph, s: Shape, x: nat)
    requires Levelled(g, s) && x < |g|
  {
    g[x].term.Some? ==> forall k | 0 <= k < |TermOperands(g[x].term.value)| ::
      OnSpine(g, s, x, |g[x].body|, TermOperands(g[x].term.value)[k])
  }

  ghost predicate PhisOnSpine(g: Graph, s: Shape, x: nat)
    requires Levelled(g, s) && x < |g|
  {
    forall p, k | 0 <= p < |g[x].phis| && 0 <= k < |g[x].phis[p].incoming| ::
      var (v, from) := g[x].phis[p].incoming[k];
      from < |g| && OnSpine(g, s, from, |g[from].body|, v)
  }

  ghost predicate AllOnSpine(g: Graph, s: Shape)
    requires Levelled(g, s)
  {
    forall x | 0 <= x < |g| :: BodyOnSpine(g, s, x) && TermOnSpine(g, s, x) && PhisOnSpine(g, s, x)
  }

  lemma DefinedStays(b: Block, b': Block, pc: nat, pc': nat, r: nat)
    requires b.phis == b'.phis && b.body <= b'.body && pc <= pc' && pc <= |b.body| && DefinedBefore(b, pc, r)
    ensures DefinedBefore(b', pc', r)
  {
    if k :| 0 <= k < pc && k < |b.body| && b.body[k].dst == r {
      assert b'.body[k] == b.body[k];
    }
  }

  /** A use that was on the spine stays on it when the graph is extended. */
  lemma OnSpineStays(e: Growth, s: Shape, x: nat, pc: nat, pc': nat, v: Operand)
    requires e.Fits(s)
    requires x < |e.g| && pc <= |e.g[x].body| && pc <= pc' && OnSpine(e.g, s, x, pc, v)
    ensures Levelled(e.After(), e.NextShape(s)) && OnSpine(e.After(), e.NextShape(s), x, pc', v)
  {
    ExtensionLevels(e, s);
    var s' := e.NextShape(s);
    if v.Reg? {
      if DefinedBefore(e.g[x], pc, v.id) {
        DefinedStays(e.g[x], e.After()[x], pc, pc', v.id);
      } else {
        var j :| 0 <= j <= s.level[x] && s.spine[j] != x && DefinedIn(e.g[s.spine[j]], v.id);
        var before, after := e.g[s.spine[j]], e.After()[s.spine[j]];
        DefinedStays(before, after, |before.body|, |after.body|, v.id);
        assert s'.spine[j] == s.spine[j] && s'.level[x] == s.level[x];
      }
    }
  }

  /** What is available at the end of the current block is available in the blocks added after it. */
  lemma OnSpineReachesFresh(e: Growth, s: Shape, x: nat, pc: nat, v: Operand)
    requires e.Fits(s)
    requires |e.g| <= x < |e.After()| && OnSpine(e.g, s, e.c, |e.g[e.c].body|, v)
    ensures Levelled(e.After(), e.NextShape(s)) && OnSpine(e.After(), e.NextShape(s), x, pc, v)
  {
    ExtensionLevels(e, s);
    var s' := e.NextShape(s);
    var k := |s.spine| - 1;
    if v.Reg? {
      var j := k;
      if DefinedBefore(e.g[e.c], |e.g[e.c].body|, v.id) {
        DefinedStays(e.g[e.c], e.After()[e.c], |e.g[e.c].body|, |e.After()[e.c].body|, v.id);
      } else {
        j :| 0 <= j <= s.level[e.c] && s.spine[j] != e.c && DefinedIn(e.g[s.spine[j]], v.id);
        var before, after := e.g[s.spine[j]], e.After()[s.spine[j]];
        DefinedStays(before, after, |before.body|, |after.body|, v.id);
      }
      assert s'.spine[j] == s.spine[j] && DefinedIn(e.After()[s'.spine[j]], v.id) && s'.level[x] >= k;
    }
  }

  /** Extending the graph keeps the uses of the blocks that were there on the spine. */
  lemma OldBlocksStay(e: Growth, s: Shape, x: nat)
    requires e.Fits(s)
    requires x < |e.g| && x != e.c && AllOnSpine(e.g, s)
    ensures Levelled(e.After(), e.NextShape(s))
    ensures var s' := e.NextShape(s);
            BodyOnSpine(e.After(), s', x) && TermOnSpine(e.After(), s', x) && PhisOnSpine(e.After(), s', x)
  {
    ExtensionLevels(e, s);
    var s' := e.NextShape(s);
    assert e.After()[x] == e.g[x] && BodyOnSpine(e.g, s, x) && TermOnSpine(e.g, s, x);
    forall pc, k | 0 <= pc < |e.g[x].body| && 0 <= k < |Operands(e.g[x].body[pc].op)|
      ensures OnSpine(e.After(), s', x, pc, Operands(e.g[x].body[pc].op)[k])
    {
      OnSpineStays(e, s, x, pc, pc, Operands(e.g[x].body[pc].op)[k]);
    }
    if e.g[x].term.Some? {
      forall k | 0 <= k < |TermOperands(e.g[x].term.value)|
        ensures OnSpine(e.After(), s', x, |e.g[x].body|, TermOperands(e.g[x].term.value)[k])
      {
        OnSpineStays(e, s, x, |e.g[x].body|, |e.g[x].body|, TermOperands(e.g[x].term.value)[k]);
      }
    }
    OldPhisStay(e, s, x);
  }

  lemma OldPhisStay(e: Growth, s: Shape, x: nat)
    requires e.Fits(s)
    requires x < |e.g| && PhisOnSpine(e.g, s, x)
    ensures Levelled(e.After(), e.NextShape(s)) && PhisOnSpine(e.After(), e.NextShape(s), x)
  {
    ExtensionLevels(e, s);
    var s' := e.NextShape(s);
    assert e.After()[x].phis == e.g[x].phis;
    forall p, k | 0 <= p < |e.g[x].phis| && 0 <= k < |e.g[x].phis[p].incoming|
      ensures var (v, from) := e.g[x].phis[p].incoming[k];
              from < |e.After()| && OnSpine(e.After(), s', from, |e.After()[from].body|, v)
    {
      var (v, from) := e.g[x].phis[p].incoming[k];
      OnSpineStays(e, s, from, |e.g[from].body|, |e.After()[from].body|, v);
    }
  }

  /** Every variable's value is available at the end of the current block. */
  ghost predicate VarsOnSpine(b: Built, s: Shape)
    requires Levelled(b.blocks, s) && b.current < |b.blocks|
  {
    forall j | 0 <= j < |b.vars| :: OnSpine(b.blocks, s, b.current, |b.blocks[b.current].body|, b.vars[j])
  }

  /** The current block, closed by a test of an available value. */
  lemma TestedOnSpine(e: Growth, s: Shape, r: nat, v: Operand, t: nat, f: nat)
    requires e.Fits(s) && AllOnSpine(e.g, s) && e.closed == Tested(e.g[e.c], r, v, t, f)
    requires OnSpine(e.g, s, e.c, |e.g[e.c].body|, v)
    ensures Levelled(e.After(), e.NextShape(s))
    ensures var s' := e.NextShape(s);
            BodyOnSpine(e.After(), s', e.c) && TermOnSpine(e.After(), s', e.c) && PhisOnSpine(e.After(), s', e.c)
  {
    ExtensionLevels(e, s);
    var s' := e.NextShape(s);
    var oldBody := e.g[e.c].body;
    assert BodyOnSpine(e.g, s, e.c);
    forall pc, k | 0 <= pc < |e.closed.body| && 0 <= k < |Operands(e.closed.body[pc].op)|
      ensures OnSpine(e.After(), s', e.c, pc, Operands(e.closed.body[pc].op)[k])
    {
      if pc < |oldBody| {
        assert e.closed.body[pc] == oldBody[pc];
        OnSpineStays(e, s, e.c, pc, pc, Operands(oldBody[pc].op)[k]);
      } else if k == 0 {
        OnSpineStays(e, s, e.c, pc, pc, v);
      }
    }
    assert e.closed.body[|oldBody|].dst == r;
    OldPhisStay(e, s, e.c);
  }

  lemma EarlierOnSpine(e: Growth, s: Shape, r: nat, v: Operand, t: nat, f: nat)
    requires e.Fits(s) && AllOnSpine(e.g, s) && e.closed == Tested(e.g[e.c], r, v, t, f)
    requires OnSpine(e.g, s, e.c, |e.g[e.c].body|, v)
    ensures Levelled(e.After(), e.NextShape(s))
    ensures var g', s' := e.After(), e.NextShape(s);
            forall x | 0 <= x < |e.g| :: BodyOnSpine(g', s', x) && TermOnSpine(g', s', x) && PhisOnSpine(g', s', x)
  {
    TestedOnSpine(e, s, r, v, t, f);
    var g', s' := e.After(), e.NextShape(s);
    forall x | 0 <= x < |e.g| ensures BodyOnSpine(g', s', x) && TermOnSpine(g', s', x) && PhisOnSpine(g', s', x) {
      if x != e.c { OldBlocksStay(e, s, x); }
    }
  }

  lemma LoopBodyOnSpine(g: Graph, s: Shape, x: nat, r: nat, start: Operand, from: nat, base: nat, numVars: nat)
    requires Levelled(g, s) && x < |g| && from < |g| && numVars >= 1
             && g[x] == LoopBody(r, start, from, x, base, numVars)
    requires OnSpine(g, s, from, |g[from].body|, start)
    ensures BodyOnSpine(g, s, x) && TermOnSpine(g, s, x) && PhisOnSpine(g, s, x)
  {
    var b := g[x];
    assert b.phis[0].dst == r + 1 && b.phis[1].dst == r + 2;
    assert forall k | 0 <= k < 9 :: b.body[k].dst == r + 3 + k;
    assert DefinedBefore(b, 9, r + 3) by { assert b.body[0].dst == r + 3; }
    assert DefinedBefore(b, 9, r + 10) by { assert b.body[7].dst == r + 10; }
    assert DefinedBefore(b, 9, r + 11) by { assert b.body[8].dst == r + 11; }
    forall pc, k | 0 <= pc < 9 && 0 <= k < |Operands(b.body[pc].op)|
      ensures OnSpine(g, s, x, pc, Operands(b.body[pc].op)[k])
    {
      var v := Operands(b.body[pc].op)[k];
      if v.Reg? && v.id > r + 2 {
        assert b.body[v.id - (r + 3)].dst == v.id;
      }
    }
  }

  lemma IncrementedOnSpine(g: Graph, s: Shape, x: nat, reg: nat, v: Operand, next: nat)
    requires Levelled(g, s) && x < |g| && g[x] == Incremented(reg, v, next) && OnSpine(g, s, x, 0, v)
    ensures BodyOnSpine(g, s, x) && TermOnSpine(g, s, x) && PhisOnSpine(g, s, x)
  {
  }

  lemma LoopOnSpine(e: Growth, s: Shape, r: nat, start: Operand, base: nat, numVars: nat)
    requires e.Fits(s) && AllOnSpine(e.g, s) && IsLoop(e, r, start, base, numVars)
    requires OnSpine(e.g, s, e.c, |e.g[e.c].body|, start)
    ensures Levelled(e.After(), e.NextShape(s)) && AllOnSpine(e.After(), e.NextShape(s))
  {
    var s', g', self := e.NextShape(s), e.After(), |e.g|;
    EarlierOnSpine(e, s, r, start, self, self + 1);
    OnSpineStays(e, s, e.c, |e.g[e.c].body|, |g'[e.c].body|, start);
    LoopBodyOnSpine(g', s', self, r, start, e.c, base, numVars);
    LoopExitOnSpine(g', s', self, r, start, e.c, base, numVars);
    AllOnSpineBut(g', s', self);
  }

  lemma LoopExitOnSpine(g: Graph, s: Shape, x: nat, r: nat, start: Operand, from: nat, base: nat, numVars: nat)
    requires Levelled(g, s) && x + 1 < |g| && from < |g| && numVars >= 1
    requires g[x] == LoopBody(r, start, from, x, base, numVars) && g[x + 1] == LoopExit(r, from, x)
    ensures BodyOnSpine(g, s, x + 1) && TermOnSpine(g, s, x + 1) && PhisOnSpine(g, s, x + 1)
  {
    assert OnSpine(g, s, x, |g[x].body|, Reg(r + 10)) by { assert g[x].body[7].dst == r + 10; }
  }

  /** Two last blocks complete what holds of the earlier ones. */
  lemma AllOnSpineBut(g: Graph, s: Shape, x: nat)
    requires Levelled(g, s) && x + 2 == |g|
    requires forall y | 0 <= y < x :: BodyOnSpine(g, s, y) && TermOnSpine(g, s, y) && PhisOnSpine(g, s, y)
    requires BodyOnSpine(g, s, x) && TermOnSpine(g, s, x) && PhisOnSpine(g, s, x)
    requires BodyOnSpine(g, s, x + 1) && TermOnSpine(g, s, x + 1) && PhisOnSpine(g, s, x + 1)
    ensures AllOnSpine(g, s)
  {
  }

  lemma DiamondOnSpine(e: Growth, s: Shape, r: nat, p: Operand, t: Operand, f: Operand)
    requires e.Fits(s) && AllOnSpine(e.g, s) && IsDiamond(e, r, p, t, f)
    requires OnSpine(e.g, s, e.c, |e.g[e.c].body|, p)
    requires OnSpine(e.g, s, e.c, |e.g[e.c].body|, t) && OnSpine(e.g, s, e.c, |e.g[e.c].body|, f)
    ensures Levelled(e.After(), e.NextShape(s)) && AllOnSpine(e.After(), e.NextShape(s))
  {
    var x := |e.g|;
    EarlierOnSpine(e, s, r, p, x, x + 1);
    OnSpineReachesFresh(e, s, x, 0, t);
    OnSpineReachesFresh(e, s, x + 1, 0, f);
    OnSpineReachesFresh(e, s, x + 1, 1, t);
    OnSpineReachesFresh(e, s, x, 1, f);
    SidesAndJoinOnSpine(e.After(), e.NextShape(s), x, r, t, f);
  }

  /** A variable that was not reassigned is still available at the end of the next current block. */
  lemma VarsStayOnSpine(b: Built, i: nat, base: nat, s: Shape)
    requires b.vars != [] && OneOpen(b) && ConstructGrowth(b, i, base).Fits(s) && VarsOnSpine(b, s)
    ensures var b' := AddConstruct(b, i, base); var s' := ConstructGrowth(b, i, base).NextShape(s);
            Levelled(b'.blocks, s') && VarsOnSpine(b', s')
  {
    var e, b' := ConstructGrowth(b, i, base), AddConstruct(b, i, base);
    ConstructGrows(b, i, base);
    ExtensionLevels(e, s);
    var last := b'.blocks[b'.current];
    forall j | 0 <= j < |b'.vars| ensures OnSpine(b'.blocks, e.NextShape(s), b'.current, |last.body|, b'.vars[j]) {
      if b'.vars[j] == b.vars[j] {
        OnSpineReachesFresh(e, s, b'.current, |last.body|, b.vars[j]);
      } else {
        assert last.phis[0].dst == b'.vars[j].id || (i % 2 == 1 && last.phis[1].dst == b'.vars[j].id);
      }
    }
  }

  lemma SidesAndJoinOnSpine(g: Graph, s: Shape, x1: nat, r: nat, t: Operand, f: Operand)
    requires Levelled(g, s) && x1 + 3 == |g| && g[x1 + 2] == DiamondExit(r, t, f, x1)
    requires g[x1] == Incremented(r + 1, t, x1 + 2) && g[x1 + 1] == Incremented(r + 2, f, x1 + 2)
    requires OnSpine(g, s, x1, 0, t) && OnSpine(g, s, x1 + 1, 0, f)
    requires OnSpine(g, s, x1 + 1, 1, t) && OnSpine(g, s, x1, 1, f)
    ensures forall x | x1 <= x < |g| :: BodyOnSpine(g, s, x) && TermOnSpine(g, s, x) && PhisOnSpine(g, s, x)
  {
    IncrementedOnSpine(g, s, x1, r + 1, t, x1 + 2);
    IncrementedOnSpine(g, s, x1 + 1, r + 2, f, x1 + 2);
    JoinOnSpine(g, s, x1, r, t, f);
  }

  lemma JoinOnSpine(g: Graph, s: Shape, x1: nat, r: nat, t: Operand, f: Operand)
    requires Levelled(g, s) && x1 + 2 < |g| && g[x1 + 2] == DiamondExit(r, t, f, x1)
    requires g[x1] == Incremented(r + 1, t, x1 + 2) && g[x1 + 1] == Incremented(r + 2, f, x1 + 2)
    requires OnSpine(g, s, x1 + 1, 1, t) && OnSpine(g, s, x1, 1, f)
    ensures BodyOnSpine(g, s, x1 + 2) && TermOnSpine(g, s, x1 + 2) && PhisOnSpine(g, s, x1 + 2)
  {
    assert g[x1].body[0].dst == r + 1 && g[x1 + 1].body[0].dst == r + 2;
    assert OnSpine(g, s, x1, 1, Reg(r + 1)) && OnSpine(g, s, x1 + 1, 1, Reg(r + 2));
  }

  // ----- phis -----

  ghost predicate PhisMatchAt(g: Graph, x: nat)
    requires x < |g|
  {
    forall p | 0 <= p < |g[x].phis| ::
      DistinctSources(g[x].phis[p].incoming) && Sources(g[x].phis[p].incoming) == Predecessors(g, x)
  }

  lemma OldPhisMatch(e: Growth, x: nat)
    requires e.Valid() && x < |e.g| && PhisMatchAt(e.g, x)
    ensures PhisMatchAt(e.After(), x)
  {
    var g' := e.After();
    forall p | 0 <= p < |g'| ensures x in Successors(g'[p]) <==> p < |e.g| && x in Successors(e.g[p]) {
      assert g'[p] == if p >= |e.g| then e.added[p - |e.g|] else if p == e.c then e.closed else e.g[p];
    }
    assert Predecessors(g', x) == Predecessors(e.g, x);
    assert g'[x].phis == e.g[x].phis;
  }

  lemma EarlierPhisMatch(e: Growth)
    requires e.Valid() && forall x | 0 <= x < |e.g| :: PhisMatchAt(e.g, x)
    ensures forall x | 0 <= x < |e.g| :: PhisMatchAt(e.After(), x)
  {
    forall x | 0 <= x < |e.g| ensures PhisMatchAt(e.After(), x) {
      OldPhisMatch(e, x);
    }
  }

  /** Only the closed block and the added blocks can lead to an added block. */
  lemma NewPredecessors(e: Growth, y: nat, p: nat)
    requires e.Valid() && EdgesInside(e.g) && |e.g| <= y < |e.After()| && p in Predecessors(e.After(), y)
    ensures (p == e.c || |e.g| <= p) && y in Successors(e.After()[p])
  {
    assert forall q | 0 <= q < |e.g| && q != e.c :: e.After()[q] == e.g[q];
  }

  lemma TwoSources(v: Operand, p: nat, w: Operand, q: nat)
    requires p != q
    ensures Sources([(v, p), (w, q)]) == {p, q} && DistinctSources([(v, p), (w, q)])
  {
    var incoming := [(v, p), (w, q)];
    assert incoming[0].1 == p && incoming[1].1 == q;
  }

  lemma LoopPhisMatch(e: Growth, r: nat, start: Operand, base: nat, numVars: nat)
    requires e.Valid() && EdgesInside(e.g) && IsLoop(e, r, start, base, numVars)
    ensures forall x | |e.g| <= x < |e.After()| :: PhisMatchAt(e.After(), x)
  {
    var g', c, x := e.After(), e.c, |e.g|;
    assert g'[c] == e.closed && g'[x] == e.added[0] && g'[x + 1] == e.added[1];
    assert Successors(g'[c]) == {x, x + 1} == Successors(g'[x]) && Successors(g'[x + 1]) == {};
    forall y, p | x <= y < x + 2 && p in Predecessors(g', y) ensures p == c || p == x {
      NewPredecessors(e, y, p);
    }
    assert Predecessors(g', x) == {c, x} && Predecessors(g', x + 1) == {c, x};
    TwoSources(start, c, Reg(r + 3), x);
    TwoSources(Const(0), c, Reg(r + 10), x);
    assert PhisMatchAt(g', x) && PhisMatchAt(g', x + 1);
  }

  lemma DiamondPhisMatch(e: Growth, r: nat, p: Operand, t: Operand, f: Operand)
    requires e.Valid() && EdgesInside(e.g) && IsDiamond(e, r, p, t, f)
    ensures forall x | |e.g| <= x < |e.After()| :: PhisMatchAt(e.After(), x)
  {
    var g', c, x := e.After(), e.c, |e.g|;
    assert g'[c] == e.closed && g'[x] == e.added[0] && g'[x + 1] == e.added[1] && g'[x + 2] == e.added[2];
    assert Successors(g'[c]) == {x, x + 1} && Successors(g'[x]) == {x + 2} == Successors(g'[x + 1]);
    assert Successors(g'[x + 2]) == {};
    var join := x + 2;
    forall q | q in Predecessors(g', join) ensures q == x || q == x + 1 {
      NewPredecessors(e, join, q);
    }
    assert Predecessors(g', join) == {x, x + 1};
    TwoSources(Reg(r + 1), x, t, x + 1);
    TwoSources(Reg(r + 2), x + 1, f, x);
    assert PhisMatchAt(g', x) && PhisMatchAt(g', x + 1) && PhisMatchAt(g', x + 2);
  }

  // ----- definitions -----

  /** The registers block `x` assigns increase, and they are below `regs`. */
  ghost predicate Increasing(b: Block, low: nat, regs: nat) {
    && (forall i | 0 <= i < DefCount(b) :: low <= DefAt(b, i) < regs)
    && (forall i, j | 0 <= i < j < DefCount(b) :: DefAt(b, i) < DefAt(b, j))
  }

  ghost predicate DefsBelow(g: Graph, regs: nat) {
    && (forall x | 0 <= x < |g| :: Increasing(g[x], 0, regs))
    && (forall x, i, y, j | 0 <= x < |g| && 0 <= i < DefCount(g[x]) && 0 <= y < |g| && 0 <= j < DefCount(g[y])
          && x != y :: DefAt(g[x], i) != DefAt(g[y], j))
  }

  lemma ClosedDefs(b: Block, r: nat, v: Operand, t: nat, f: nat)
    requires Increasing(b, 0, r)
    ensures var c := Tested(b, r, v, t, f);
            && Increasing(c, 0, r + 1) && DefCount(c) == DefCount(b) + 1 && DefAt(c, DefCount(b)) == r
            && forall i | 0 <= i < DefCount(b) :: DefAt(c, i) == DefAt(b, i)
  {
    var c := Tested(b, r, v, t, f);
    assert forall i | 0 <= i < DefCount(b) :: DefAt(c, i) == DefAt(b, i);
    assert DefAt(c, DefCount(b)) == r;
    forall i, j | 0 <= i < j < DefCount(c) ensures DefAt(c, i) < DefAt(c, j) {
      assert DefAt(c, i) == DefAt(b, i);
    }
  }

  /** Closing a block with register `r` and adding blocks that assign later registers assigns each once. */
  lemma GrowthDefs(e: Growth, r: nat, v: Operand, t: nat, f: nat, lows: seq<nat>, regs: nat)
    requires e.Valid() && DefsBelow(e.g, r) && e.closed == Tested(e.g[e.c], r, v, t, f) && r < regs
    requires |lows| == |e.added| + 1 && lows[0] == r + 1 && lows[|e.added|] == regs
    requires forall k, l | 0 <= k <= l < |lows| :: lows[k] <= lows[l]
    requires forall k | 0 <= k < |e.added| :: Increasing(e.added[k], lows[k], lows[k + 1])
    ensures DefsBelow(e.After(), regs)
  {
    var g' := e.After();
    ClosedDefs(e.g[e.c], r, v, t, f);
    forall x | 0 <= x < |g'| ensures Increasing(g'[x], 0, regs) {
      assert g'[x] == if x >= |e.g| then e.added[x - |e.g|] else if x == e.c then e.closed else e.g[x];
      if x >= |e.g| {
        assert lows[0] <= lows[x - |e.g|] <= lows[x - |e.g| + 1] <= lows[|e.added|];
      }
    }
    forall x, i, y, j | 0 <= x < |g'| && 0 <= i < DefCount(g'[x]) && 0 <= y < |g'| && 0 <= j < DefCount(g'[y]) && x != y
      ensures DefAt(g'[x], i) != DefAt(g'[y], j)
    {
      if x >= |e.g| && y >= |e.g| {
        AddedDefsDiffer(e, lows, x - |e.g|, i, y - |e.g|, j);
      } else if x < |e.g| && y < |e.g| {
        OldDefsDiffer(e, r, v, t, f, x, i, y, j);
      } else {
        OldDefsStayBelow(e, r, v, t, f, if x < |e.g| then x else y, if x < |e.g| then i else j);
        var k, l := if x < |e.g| then y - |e.g| else x - |e.g|, if x < |e.g| then j else i;
        assert e.added[k] == if x < |e.g| then g'[y] else g'[x];
        assert Increasing(e.added[k], lows[k], lows[k + 1]);
        assert lows[0] <= lows[k] <= DefAt(e.added[k], l);
      }
    }
  }

  lemma OldDefsStayBelow(e: Growth, r: nat, v: Operand, t: nat, f: nat, x: nat, i: nat)
    requires e.Valid() && DefsBelow(e.g, r) && e.closed == Tested(e.g[e.c], r, v, t, f)
    requires x < |e.g| && i < DefCount(e.After()[x])
    ensures DefAt(e.After()[x], i) <= r
  {
    if x == e.c { ClosedDefs(e.g[x], r, v, t, f); }
  }

  lemma OldDefsDiffer(e: Growth, r: nat, v: Operand, t: nat, f: nat, x: nat, i: nat, y: nat, j: nat)
    requires e.Valid() && DefsBelow(e.g, r) && e.closed == Tested(e.g[e.c], r, v, t, f)
    requires x < |e.g| && i < DefCount(e.After()[x]) && y < |e.g| && j < DefCount(e.After()[y]) && x != y
    ensures DefAt(e.After()[x], i) != DefAt(e.After()[y], j)
  {
    ClosedDefs(e.g[e.c], r, v, t, f);
    assert x != e.c ==> e.After()[x] == e.g[x];
    assert y != e.c ==> e.After()[y] == e.g[y];
  }

  lemma AddedDefsDiffer(e: Growth, lows: seq<nat>, k: nat, i: nat, l: nat, j: nat)
    requires |lows| == |e.added| + 1 && (forall k, l | 0 <= k <= l < |lows| :: lows[k] <= lows[l])
    requires forall k | 0 <= k < |e.added| :: Increasing(e.added[k], lows[k], lows[k + 1])
    requires k < |e.added| && i < DefCount(e.added[k]) && l < |e.added| && j < DefCount(e.added[l]) && k != l
    ensures DefAt(e.added[k], i) != DefAt(e.added[l], j)
  {
    assert Increasing(e.added[k], lows[k], lows[k + 1]) && Increasing(e.added[l], lows[l], lows[l + 1]);
    assert lows[k + 1] <= lows[l] || lows[l + 1] <= lows[k];
  }

  lemma LoopDefs(e: Growth, r: nat, start: Operand, base: nat, numVars: nat)
    requires e.Valid() && IsLoop(e, r, start, base, numVars) && DefsBelow(e.g, r)
    ensures DefsBelow(e.After(), r + 13)
  {
    var body, exit := e.added[0], e.added[1];
    assert forall k | 0 <= k < 11 :: DefAt(body, k) == r + 1 + k;
    assert DefCount(body) == 11 && DefCount(exit) == 1 && DefAt(exit, 0) == r + 12;
    GrowthDefs(e, r, start, |e.g|, |e.g| + 1, [r + 1, r + 12, r + 13], r + 13);
  }

  lemma DiamondDefs(e: Growth, r: nat, p: Operand, t: Operand, f: Operand)
    requires e.Valid() && IsDiamond(e, r, p, t, f) && DefsBelow(e.g, r)
    ensures DefsBelow(e.After(), r + 5)
  {
    assert DefAt(e.added[2], 0) == r + 3 && DefAt(e.added[2], 1) == r + 4 && DefCount(e.added[2]) == 2;
    GrowthDefs(e, r, p, |e.g|, |e.g| + 1, [r + 1, r + 2, r + 3, r + 5], r + 5);
  }

  // ----- all of it, at every stage -----

  /** What a growth keeps, apart from the variables. */
  ghost predicate GraphSound(g: Graph, s: Shape, regs: nat) {
    && Levelled(g, s) && EdgesClimb(g, s) && AllOnSpine(g, s)
    && (forall x | 0 <= x < |g| :: PhisMatchAt(g, x))
    && DefsBelow(g, regs)
  }

  /** Everything that every stage of the construction keeps. */
  ghost predicate Sound(b: Built, s: Shape) {
    && b.vars != [] && OneOpen(b) && GraphSound(b.blocks, s, b.regs)
    && b.current == s.spine[|s.spine| - 1] && VarsOnSpine(b, s)
  }

  lemma {:induction false} EntryBodyAt(base: nat, n: nat, k: nat)
    requires k < 2 * n
    ensures EntryBody(base, n)[k].dst == k
    ensures EntryBody(base, n)[k].op
            == if k % 2 == 0 then IntToPtr(Const(base + 4 * (k / 2))) else Load(Reg(k - 1))
    decreases n
  {
    if k < 2 * (n - 1) { EntryBodyAt(base, n - 1, k); }
  }

  lemma EntrySound(base: nat, numVars: nat)
    requires numVars >= 1
    ensures Sound(Entry(base, numVars), Shape([0], [0]))
  {
    var b, s := Entry(base, numVars), Shape([0], [0]);
    var body := b.blocks[0].body;
    forall k | 0 <= k < 2 * numVars
      ensures body[k].dst == k
      ensures body[k].op == if k % 2 == 0 then IntToPtr(Const(base + 4 * (k / 2))) else Load(Reg(k - 1))
    {
      EntryBodyAt(base, numVars, k);
    }
    forall pc, k | 0 <= pc < |body| && 0 <= k < |Operands(body[pc].op)|
      ensures OnSpine(b.blocks, s, 0, pc, Operands(body[pc].op)[k])
    {
      if pc % 2 == 1 { assert body[pc - 1].dst == pc - 1; }
    }
    forall j | 0 <= j < numVars ensures OnSpine(b.blocks, s, 0, |body|, b.vars[j]) {
      assert body[2 * j + 1].dst == 2 * j + 1;
    }
  }

  lemma LoopSound(e: Growth, s: Shape, r: nat, start: Operand, base: nat, numVars: nat)
    requires e.Fits(s) && GraphSound(e.g, s, r) && IsLoop(e, r, start, base, numVars)
    requires OnSpine(e.g, s, e.c, |e.g[e.c].body|, start)
    ensures GraphSound(e.After(), e.NextShape(s), r + 13)
  {
    ExtensionLevels(e, s);
    LoopOnSpine(e, s, r, start, base, numVars);
    LoopPhisMatch(e, r, start, base, numVars);
    EarlierPhisMatch(e);
    LoopDefs(e, r, start, base, numVars);
  }

  lemma DiamondSound(e: Growth, s: Shape, r: nat, p: Operand, t: Operand, f: Operand)
    requires e.Fits(s) && GraphSound(e.g, s, r) && IsDiamond(e, r, p, t, f)
    requires OnSpine(e.g, s, e.c, |e.g[e.c].body|, p)
    requires OnSpine(e.g, s, e.c, |e.g[e.c].body|, t) && OnSpine(e.g, s, e.c, |e.g[e.c].body|, f)
    ensures GraphSound(e.After(), e.NextShape(s), r + 5)
  {
    ExtensionLevels(e, s);
    DiamondOnSpine(e, s, r, p, t, f);
    DiamondPhisMatch(e, r, p, t, f);
    EarlierPhisMatch(e);
    DiamondDefs(e, r, p, t, f);
  }

  lemma ConstructGraphSound(b: Built, i: nat, base: nat, s: Shape)
    requires Sound(b, s) && ConstructGrowth(b, i, base).Fits(s)
    ensures GraphSound(ConstructGrowth(b, i, base).After(), ConstructGrowth(b, i, base).NextShape(s),
                       AddConstruct(b, i, base).regs)
  {
    if i % 2 == 1 {
      DiamondGraphSound(b, i, base, s);
    } else {
      LoopGraphSound(b, i, base, s);
    }
  }

  lemma DiamondGraphSound(b: Built, i: nat, base: nat, s: Shape)
    requires Sound(b, s) && ConstructGrowth(b, i, base).Fits(s) && i % 2 == 1
    ensures GraphSound(ConstructGrowth(b, i, base).After(), ConstructGrowth(b, i, base).NextShape(s),
                       AddConstruct(b, i, base).regs)
  {
    var e, n := ConstructGrowth(b, i, base), |b.vars|;
    DiamondSound(e, s, b.regs, b.vars[(i / 2 + 2) % n], b.vars[(i / 2) % n], b.vars[(i / 2 + 1) % n]);
  }

  lemma LoopGraphSound(b: Built, i: nat, base: nat, s: Shape)
    requires Sound(b, s) && ConstructGrowth(b, i, base).Fits(s) && i % 2 == 0
    ensures GraphSound(ConstructGrowth(b, i, base).After(), ConstructGrowth(b, i, base).NextShape(s),
                       AddConstruct(b, i, base).regs)
  {
    var e, n := ConstructGrowth(b, i, base), |b.vars|;
    LoopSound(e, s, b.regs, b.vars[(i / 2 + 1) % n], base, n);
  }

  lemma ConstructSound(b: Built, i: nat, base: nat, s: Shape)
    requires Sound(b, s)
    ensures Sound(AddConstruct(b, i, base), ConstructGrowth(b, i, base).NextShape(s))
  {
    ConstructGrows(b, i, base);
    VarsStayOnSpine(b, i, base, s);
    ConstructGraphSound(b, i, base, s);
    ConstructKeepsOneOpen(b, i, base);
    SoundParts(AddConstruct(b, i, base), ConstructGrowth(b, i, base).NextShape(s));
  }

  lemma SoundParts(b: Built, s: Shape)
    requires b.vars != [] && OneOpen(b) && GraphSound(b.blocks, s, b.regs)
    requires b.current == s.spine[|s.spine| - 1] && VarsOnSpine(b, s)
    ensures Sound(b, s)
  {
  }

  lemma NextStageSound(b: Built, next: Built, i: nat, base: nat, s: Shape) returns (s': Shape)
    requires Sound(b, s) && IsNext(b, next, i, base)
    ensures Sound(next, s')
  {
    ConstructSound(b, i, base, s);
    s' := ConstructGrowth(b, i, base).NextShape(s);
  }

  lemma {:induction false} EveryStageSound(stages: seq<Built>, base: nat, numVars: nat, n: nat) returns (s: Shape)
    requires Stages(stages, base, numVars) && n < |stages|
    ensures Sound(stages[n], s)
    decreases n
  {
    if n == 0 {
      EntrySound(base, numVars);
      s := Shape([0], [0]);
    } else {
      var s0 := EveryStageSound(stages, base, numVars, n - 1);
      assert NextAt(stages, n - 1, base);
      s := NextStageSound(stages[n - 1], stages[n], n - 1, base, s0);
    }
  }

  // ----- the finished graph -----

  lemma FinishedKeepsOnSpine(b: Built, s: Shape, x: nat, pc: nat, v: Operand)
    requires Sound(b, s) && x < |b.blocks| && OnSpine(b.blocks, s, x, pc, v)
    ensures Levelled(Finish(b), s) && OnSpine(Finish(b), s, x, pc, v)
  {
    var g := Finish(b);
    assert forall y | 0 <= y < |g| :: g[y].phis == b.blocks[y].phis && g[y].body == b.blocks[y].body;
    assert forall y, k, r | 0 <= y < |g| :: DefinedBefore(g[y], k, r) <==> DefinedBefore(b.blocks[y], k, r);
  }

  lemma FinishedUses(b: Built, s: Shape, x: nat)
    requires Sound(b, s) && x < |b.blocks|
    ensures var g := Finish(b);
            Levelled(g, s) && BodyOnSpine(g, s, x) && TermOnSpine(g, s, x) && PhisOnSpine(g, s, x)
  {
    var g := Finish(b);
    var oldBlock := b.blocks[x];
    assert BodyOnSpine(b.blocks, s, x) && TermOnSpine(b.blocks, s, x) && PhisOnSpine(b.blocks, s, x);
    forall pc, k | 0 <= pc < |oldBlock.body| && 0 <= k < |Operands(oldBlock.body[pc].op)|
      ensures OnSpine(g, s, x, pc, Operands(oldBlock.body[pc].op)[k])
    {
      FinishedKeepsOnSpine(b, s, x, pc, Operands(oldBlock.body[pc].op)[k]);
    }
    forall k | 0 <= k < |TermOperands(g[x].term.value)|
      ensures OnSpine(g, s, x, |g[x].body|, TermOperands(g[x].term.value)[k])
    {
      FinishedKeepsOnSpine(b, s, x, |g[x].body|, TermOperands(g[x].term.value)[k]);
    }
    forall p, k | 0 <= p < |oldBlock.phis| && 0 <= k < |oldBlock.phis[p].incoming|
      ensures var (v, from) := oldBlock.phis[p].incoming[k];
              from < |g| && OnSpine(g, s, from, |g[from].body|, v)
    {
      var (v, from) := oldBlock.phis[p].incoming[k];
      FinishedKeepsOnSpine(b, s, from, |g[from].body|, v);
    }
  }

  lemma FinishedEdges(b: Built, s: Shape)
    requires Sound(b, s)
    ensures var g := Finish(b); Levelled(g, s) && EdgesClimb(g, s)
    ensures forall x | 0 <= x < |b.blocks| :: Successors(Finish(b)[x]) == Successors(b.blocks[x])
  {
    var g := Finish(b);
    assert forall x | 0 <= x < |g| && x != b.current :: g[x] == b.blocks[x];
    assert forall x | 0 <= x < |b.blocks| :: Successors(g[x]) == Successors(b.blocks[x]);
  }

  lemma SpineIsAvailable(g: Graph, s: Shape, x: nat, pc: nat, v: Operand)
    requires Levelled(g, s) && EdgesClimb(g, s) && x < |g| && OnSpine(g, s, x, pc, v)
    ensures Available(g, x, pc, v)
  {
    if v.Reg? && !DefinedBefore(g[x], pc, v.id) {
      var j :| 0 <= j <= s.level[x] && s.spine[j] != x && DefinedIn(g[s.spine[j]], v.id);
      SpineDominates(g, s, x, j);
    }
  }

  lemma SpineIsDominated(g: Graph, s: Shape, x: nat)
    requires Levelled(g, s) && EdgesClimb(g, s) && x < |g|
    requires BodyOnSpine(g, s, x) && TermOnSpine(g, s, x) && PhisOnSpine(g, s, x)
    ensures UsesDominatedIn(g, x)
  {
    var b := g[x];
    forall pc, k | 0 <= pc < |b.body| && 0 <= k < |Operands(b.body[pc].op)|
      ensures Available(g, x, pc, Operands(b.body[pc].op)[k])
    {
      SpineIsAvailable(g, s, x, pc, Operands(b.body[pc].op)[k]);
    }
    if b.term.Some? {
      forall k | 0 <= k < |TermOperands(b.term.value)|
        ensures Available(g, x, |b.body|, TermOperands(b.term.value)[k])
      {
        SpineIsAvailable(g, s, x, |b.body|, TermOperands(b.term.value)[k]);
      }
    }
    forall p, k | 0 <= p < |b.phis| && 0 <= k < |b.phis[p].incoming|
      ensures var (v, from) := b.phis[p].incoming[k]; from < |g| && Available(g, from, |g[from].body|, v)
    {
      var (v, from) := b.phis[p].incoming[k];
      SpineIsAvailable(g, s, from, |g[from].body|, v);
    }
  }

  lemma FinishedIsDominated(b: Built, s: Shape)
    requires Sound(b, s)
    ensures UsesDominated(Finish(b))
  {
    FinishedEdges(b, s);
    forall x | 0 <= x < |Finish(b)| ensures UsesDominatedIn(Finish(b), x) {
      FinishedUses(b, s, x);
      SpineIsDominated(Finish(b), s, x);
    }
  }

  lemma FinishedPhisMatch(b: Built, s: Shape)
    requires Sound(b, s)
    ensures PhisMatch(Finish(b))
  {
    var g := Finish(b);
    FinishedEdges(b, s);
    forall x, p | 0 <= x < |g| && 0 <= p < |g[x].phis|
      ensures DistinctSources(g[x].phis[p].incoming) && Sources(g[x].phis[p].incoming) == Predecessors(g, x)
    {
      assert PhisMatchAt(b.blocks, x) && g[x].phis == b.blocks[x].phis;
      assert Predecessors(g, x) == Predecessors(b.blocks, x);
    }
  }

  lemma FinishedAssignsOnce(b: Built, s: Shape)
    requires Sound(b, s)
    ensures SingleAssignment(Finish(b))
  {
    var g := Finish(b);
    forall x | 0 <= x < |g| ensures DefCount(g[x]) == DefCount(b.blocks[x])
      && forall i | 0 <= i < DefCount(g[x]) :: DefAt(g[x], i) == DefAt(b.blocks[x], i)
    {
      assert g[x].phis == b.blocks[x].phis && g[x].body == b.blocks[x].body;
    }
  }

  /**
   * For every number of variables and constructs the built graph is well-formed SSA: each block has
   * its terminator, each phi one value per predecessor, each register one assignment, and each use
   * is dominated by its definition.
   */
  lemma BuiltGraphIsWellFormed(base: nat, numVars: nat, n: nat)
    requires numVars >= 1
    ensures var g := Complex(base, numVars, n);
            Terminated(g) && PhisMatch(g) && SingleAssignment(g) && UsesDominated(g)
  {
    var stages := BuildStages(base, numVars, n);
    var s := EveryStageSound(stages, base, numVars, n);
    var b := stages[n];
    FinishedIsDominated(b, s);
    FinishedPhisMatch(b, s);
    FinishedAssignsOnce(b, s);
  }
}

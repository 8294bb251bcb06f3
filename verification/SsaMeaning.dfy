/**
 * What the built control-flow graph computes, against a structured program that updates
 * mutable variables: a count-down loop that sums slots, and an if/else increment.
 */
module SsaMeaning {
  import opened Wrappers
  import opened Binary
  import opened SsaIr
  import opened SsaBuilder

  // ----- the structured program -----

  /** The loop: count `index` down to zero, adding slot (index mod the mask) each time. */
  function LoopSum(index: nat, sum: Word, slots: seq<Word>): Word
    requires slots != []
    decreases index
  {
    if index == 0 then sum
    else LoopSum(index - 1, (sum + slots[BitAnd(index - 1, |slots| - 1)]) % TWO_32, slots)
  }

  /** The slots at the masked indices below `count`, added up. */
  function MaskedSum(count: nat, slots: seq<Word>): nat
    requires slots != []
  {
    if count == 0 then 0 else MaskedSum(count - 1, slots) + slots[BitAnd(count - 1, |slots| - 1)]
  }

  /** With a power of two of slots the loop goes round through all of them. */
  lemma {:induction false} MaskedSumGoesRound(count: nat, slots: seq<Word>, m: nat)
    requires |slots| == Pow2(m)
    ensures MaskedSum(count, slots) == RoundSum(count, slots)
    decreases count
  {
    if count > 0 {
      MaskIsRemainder(count - 1, m);
      MaskedSumGoesRound(count - 1, slots, m);
    }
  }

  /** The slots met in going round `count` steps from the first, added up. */
  function RoundSum(count: nat, slots: seq<Word>): nat
    requires slots != []
  {
    if count == 0 then 0 else RoundSum(count - 1, slots) + slots[(count - 1) % |slots|]
  }

  lemma WrapOnce(a: nat, b: nat)
    ensures (a % TWO_32 + b) % TWO_32 == (a + b) % TWO_32
  {
  }

  /** Counting down and wrapping at every turn gives the wrapped sum. */
  lemma {:induction false} LoopSumClosed(index: nat, sum: Word, slots: seq<Word>)
    requires slots != []
    ensures LoopSum(index, sum, slots) == (sum + MaskedSum(index, slots)) % TWO_32
    decreases index
  {
    if index > 0 {
      var slot := slots[BitAnd(index - 1, |slots| - 1)];
      var rest := MaskedSum(index - 1, slots);
      LoopSumClosed(index - 1, (sum + slot) % TWO_32, slots);
      WrapOnce(sum + slot, rest);
      assert sum + slot + rest == sum + MaskedSum(index, slots);
    }
  }

  function Increment(x: Word): Word {
    (x + 1) % TWO_32
  }

  /** One construct of the structured program on the variables' values. */
  function Structured(vals: seq<Word>, slots: seq<Word>, i: nat): (r: seq<Word>)
    requires vals != [] && slots != []
    ensures |r| == |vals|
  {
    var n := |vals|;
    var p, t, e := (i / 2 + 2) % n, (i / 2) % n, (i / 2 + 1) % n;
    if i % 2 == 1 then
      if vals[p] != 0 then vals[t := Increment(vals[t])] else vals[e := Increment(vals[e])]
    else vals[t := LoopSum(vals[e], 0, slots)]
  }

  function StructuredRun(slots: seq<Word>, numConstructs: nat): (vals: seq<Word>)
    requires slots != []
    ensures |vals| == |slots|
  {
    if numConstructs == 0 then slots
    else Structured(StructuredRun(slots, numConstructs - 1), slots, numConstructs - 1)
  }

  method SumSlots(start: Word, slots: seq<Word>) returns (sum: Word)
    requires slots != []
    ensures sum == LoopSum(start, 0, slots) == MaskedSum(start, slots) % TWO_32
  {
    LoopSumClosed(start, 0, slots);
    var index: nat := start;
    sum := 0;
    while index != 0
      invariant LoopSum(index, sum, slots) == LoopSum(start, 0, slots)
    {
      index := index - 1;
      sum := (sum + slots[BitAnd(index, |slots| - 1)]) % TWO_32;
    }
  }

  /** The structured program, run with one mutable variable per slot. */
  method Interpret(slots: seq<Word>, numConstructs: nat) returns (result: Word)
    requires slots != []
    ensures result == StructuredRun(slots, numConstructs)[0]
  {
    var vals := slots;
    var i := 0;
    while i < numConstructs
      invariant 0 <= i <= numConstructs
      invariant vals == StructuredRun(slots, i)
    {
      vals := Apply(vals, slots, i);
      i := i + 1;
    }
    result := vals[0];
  }

  /** One construct on the mutable variables. */
  method Apply(vals: seq<Word>, slots: seq<Word>, i: nat) returns (r: seq<Word>)
    requires vals != [] && slots != []
    ensures r == Structured(vals, slots, i)
  {
    var n := |vals|;
    var t, e := (i / 2) % n, (i / 2 + 1) % n;
    if i % 2 == 1 {
      if vals[(i / 2 + 2) % n] != 0 {
        r := vals[t := Increment(vals[t])];
      } else {
        r := vals[e := Increment(vals[e])];
      }
    } else {
      var sum := SumSlots(vals[e], slots);
      r := vals[t := sum];
    }
  }

  // ----- what one construct of the graph computes -----

  /** As Structured, but a diamond assigns both of its variables, the else variable last. */
  function GraphStep(vals: seq<Word>, slots: seq<Word>, i: nat): (r: seq<Word>)
    requires vals != [] && slots != []
    ensures |r| == |vals|
  {
    var n := |vals|;
    var p, t, e := (i / 2 + 2) % n, (i / 2) % n, (i / 2 + 1) % n;
    if i % 2 == 1 then
      if vals[p] != 0 then vals[t := Increment(vals[t])][e := vals[e]]
      else vals[t := vals[t]][e := Increment(vals[e])]
    else vals[t := LoopSum(vals[e], 0, slots)]
  }

  function GraphRun(slots: seq<Word>, numConstructs: nat): (vals: seq<Word>)
    requires slots != []
    ensures |vals| == |slots|
  {
    if numConstructs == 0 then slots
    else GraphStep(GraphRun(slots, numConstructs - 1), slots, numConstructs - 1)
  }

  // ----- a finished graph contains every stage of its construction -----

  /** `g` has the blocks of `b`, except that the block being filled may have gone on. */
  ghost predicate Extends(b: Built, g: Graph) {
    && b.current < |b.blocks| <= |g|
    && (forall k | 0 <= k < |b.blocks| && k != b.current :: g[k] == b.blocks[k])
    && g[b.current].phis == b.blocks[b.current].phis
    && b.blocks[b.current].body <= g[b.current].body
  }

  lemma ExtendsEarlier(b: Built, i: nat, base: nat, g: Graph)
    requires b.vars != [] && b.current < |b.blocks| && Extends(AddConstruct(b, i, base), g)
    ensures Extends(b, g)
    ensures var b' := AddConstruct(b, i, base);
            g[b.current] == b'.blocks[b.current] && g[..|b'.blocks| - 1] == b'.blocks[..|b'.blocks| - 1]
  {
    var b' := AddConstruct(b, i, base);
    assert b'.current == |b'.blocks| - 1;
    assert b.blocks[b.current].body <= b'.blocks[b.current].body;
  }

  // ----- straight-line code -----

  function Exec(ops: seq<Instr>, env: Env, mem: Memory): Option<Env> {
    if ops == [] then Some(env)
    else
      var v := Compute(ops[0].op, env, mem);
      if v.Some? then Exec(ops[1..], env[ops[0].dst := v.value], mem) else None
  }

  lemma {:induction false} RunsStraight(g: Graph, mem: Memory, block: nat, pc: nat, env: Env, ops: seq<Instr>)
    requires block < |g| && pc + |ops| <= |g[block].body| && g[block].body[pc..pc + |ops|] == ops
    requires Exec(ops, env, mem).Some?
    ensures Reaches(g, mem, At(block, pc, env), At(block, pc + |ops|, Exec(ops, env, mem).value))
    decreases |ops|
  {
    var s := At(block, pc, env);
    if ops == [] {
      assert Run(g, mem, s, 0) == s;
    } else {
      assert g[block].body[pc] == ops[0];
      assert g[block].body[pc + 1..pc + |ops|] == ops[1..];
      var next := env[ops[0].dst := Compute(ops[0].op, env, mem).value];
      assert Step(g, mem, s) == At(block, pc + 1, next);
      ReachesStep(g, mem, s);
      RunsStraight(g, mem, block, pc + 1, next, ops[1..]);
      ReachesTrans(g, mem, s, At(block, pc + 1, next), At(block, pc + |ops|, Exec(ops, env, mem).value));
    }
  }

  lemma ThenStep(g: Graph, mem: Memory, s: State, t: State, u: State)
    requires Reaches(g, mem, s, t) && Step(g, mem, t) == u
    ensures Reaches(g, mem, s, u)
  {
    ReachesStep(g, mem, t);
    ReachesTrans(g, mem, s, t, u);
  }

  /** The registers below `r` have the same values. */
  ghost predicate SameBelow(r: nat, a: Env, b: Env) {
    forall k | 0 <= k < r && k in a :: k in b && a[k] == b[k]
  }

  /** The variables' SSA values evaluate to `vals`. */
  ghost predicate Agrees(b: Built, env: Env, vals: seq<Word>) {
    |vals| == |b.vars| && forall j | 0 <= j < |vals| :: Value(b.vars[j], env) == Some(vals[j])
  }

  /** The slots lie at `base` without wrapping around the address space. */
  predicate ValidMemory(mem: Memory, base: nat, numVars: nat) {
    mem.base == base && |mem.slots| == numVars && numVars < TWO_32 && base + 4 * numVars <= TWO_64
  }

  /** The test at the end of a block leads to the block its operand selects. */
  lemma TestRuns(g: Graph, mem: Memory, block: nat, pc: nat, env: Env, r: nat, v: Operand, t: nat, e: nat, x: nat)
    requires block < |g| && pc + 1 == |g[block].body| && g[block].body[pc] == Instr(r, IcmpNe(v, Const(0)))
    requires g[block].term == Some(CondBr(Reg(r), t, e)) && Value(v, env) == Some(x)
    ensures Reaches(g, mem, At(block, pc, env),
                    Enter(g, if x != 0 then t else e, block, env[r := if x != 0 then 1 else 0]))
  {
    var s := At(block, pc, env);
    var env' := env[r := if x != 0 then 1 else 0];
    ReachesStep(g, mem, s);
    ThenStep(g, mem, s, At(block, pc + 1, env'), Enter(g, if x != 0 then t else e, block, env'));
  }

  // ----- the diamond -----

  lemma PhiPair(phis: seq<Phi>, from: nat, env: Env, v: Operand, w: Operand)
    requires |phis| == 2 && IncomingFrom(phis[0].incoming, from) == Some(v)
    requires IncomingFrom(phis[1].incoming, from) == Some(w)
    requires Value(v, env).Some? && Value(w, env).Some?
    ensures RunPhis(phis, from, env, env)
            == Some(env[phis[0].dst := Value(v, env).value][phis[1].dst := Value(w, env).value])
  {
    var mid := env[phis[0].dst := Value(v, env).value];
    assert RunPhis(phis, from, env, env) == RunPhis(phis[1..], from, env, mid);
    assert RunPhis(phis[1..], from, env, mid)
           == RunPhis(phis[1..][1..], from, env, mid[phis[1].dst := Value(w, env).value]);
  }

  /** One side of a diamond: increments a variable's value and enters the join. */
  lemma SideRuns(g: Graph, mem: Memory, block: nat, reg: nat, v: Operand, next: nat, env: Env, x: nat)
    requires block < |g| && g[block] == Incremented(reg, v, next) && Value(v, env) == Some(x)
    ensures Reaches(g, mem, At(block, 0, env), Enter(g, next, block, env[reg := (x + 1) % TWO_32]))
  {
    var s := At(block, 0, env);
    ReachesStep(g, mem, s);
    ThenStep(g, mem, s, At(block, 1, env[reg := (x + 1) % TWO_32]),
             Enter(g, next, block, env[reg := (x + 1) % TWO_32]));
  }

  lemma DiamondRuns(b: Built, i: nat, g: Graph, mem: Memory, env: Env, vals: seq<Word>) returns (env': Env)
    requires b.vars != [] && b.current < |b.blocks| && VarsBelow(b) && mem.slots != []
    requires i % 2 == 1 && Extends(AddDiamond(b, i), g) && Agrees(b, env, vals)
    ensures Reaches(g, mem, At(b.current, |b.blocks[b.current].body|, env), At(AddDiamond(b, i).current, 0, env'))
    ensures Agrees(AddDiamond(b, i), env', GraphStep(vals, mem.slots, i))
  {
    var n, r, c, thenBlock := |b.vars|, b.regs, b.current, |b.blocks|;
    var p, t, e := (i / 2 + 2) % n, (i / 2) % n, (i / 2 + 1) % n;
    var b' := AddDiamond(b, i);
    ExtendsEarlier(b, i, 0, g);
    var s := At(c, |b.blocks[c].body|, env);
    assert g[c] == Tested(b.blocks[c], r, b.vars[p], thenBlock, thenBlock + 1);
    TestRuns(g, mem, c, |b.blocks[c].body|, env, r, b.vars[p], thenBlock, thenBlock + 1, vals[p]);
    var taken := vals[p] != 0;
    var env1 := env[r := if taken then 1 else 0];
    var side := if taken then thenBlock else thenBlock + 1;
    assert g[side] == b'.blocks[side];
    assert Enter(g, side, c, env1) == At(side, 0, env1);
    assert g[thenBlock + 2].phis == b'.blocks[thenBlock + 2].phis;
    assert forall j | 0 <= j < |vals| :: Value(b.vars[j], env1) == Some(vals[j]);
    env' := SideToJoin(g, mem, r, thenBlock, b.vars[t], b.vars[e], taken, env1, vals[t], vals[e]);
    ReachesTrans(g, mem, s, At(side, 0, env1), At(thenBlock + 2, 0, env'));
    DiamondAgrees(b, i, env, env', vals, mem.slots);
  }

  /** From one side of a diamond through the join. */
  lemma SideToJoin(
    g: Graph, mem: Memory, r: nat, thenBlock: nat, thenOld: Operand, elseOld: Operand, taken: bool, env: Env,
    x: Word, y: Word)
    returns (env': Env)
    requires thenBlock + 2 < |g| && g[thenBlock + 2].phis == DiamondExit(r, thenOld, elseOld, thenBlock).phis
    requires taken ==> g[thenBlock] == Incremented(r + 1, thenOld, thenBlock + 2)
    requires !taken ==> g[thenBlock + 1] == Incremented(r + 2, elseOld, thenBlock + 2)
    requires Value(thenOld, env) == Some(x) && Value(elseOld, env) == Some(y)
    requires thenOld.Reg? && thenOld.id < r && elseOld.Reg? && elseOld.id < r
    ensures Reaches(g, mem, At(if taken then thenBlock else thenBlock + 1, 0, env), At(thenBlock + 2, 0, env'))
    ensures SameBelow(r, env, env') && r + 3 in env' && r + 4 in env'
    ensures env'[r + 3] == (if taken then Increment(x) else x) && env'[r + 4] == (if taken then y else Increment(y))
  {
    var side := if taken then thenBlock else thenBlock + 1;
    var reg := if taken then r + 1 else r + 2;
    var z := if taken then x else y;
    SideRuns(g, mem, side, reg, if taken then thenOld else elseOld, thenBlock + 2, env, z);
    env' := JoinRuns(g, r, thenBlock, thenOld, elseOld, taken, env[reg := (z + 1) % TWO_32]);
  }

  lemma DiamondAgrees(b: Built, i: nat, env: Env, env': Env, vals: seq<Word>, slots: seq<Word>)
    requires b.vars != [] && b.current < |b.blocks| && VarsBelow(b) && slots != []
    requires i % 2 == 1 && Agrees(b, env, vals) && SameBelow(b.regs, env, env')
    requires var n := |b.vars|;
             var p, t, e := (i / 2 + 2) % n, (i / 2) % n, (i / 2 + 1) % n;
             && b.regs + 3 in env' && env'[b.regs + 3] == (if vals[p] != 0 then Increment(vals[t]) else vals[t])
             && b.regs + 4 in env' && env'[b.regs + 4] == (if vals[p] != 0 then vals[e] else Increment(vals[e]))
    ensures Agrees(AddDiamond(b, i), env', GraphStep(vals, slots, i))
  {
    var b' := AddDiamond(b, i);
    var next := GraphStep(vals, slots, i);
    forall j | 0 <= j < |vals| ensures Value(b'.vars[j], env') == Some(next[j]) {
      assert Value(b.vars[j], env) == Some(vals[j]);
    }
  }

  /** The two phis at the join pick the incremented value on one side and the old one on the other. */
  lemma JoinRuns(g: Graph, r: nat, thenBlock: nat, thenOld: Operand, elseOld: Operand, taken: bool, env: Env)
    returns (env': Env)
    requires thenBlock + 2 < |g| && g[thenBlock + 2].phis == DiamondExit(r, thenOld, elseOld, thenBlock).phis
    requires Value(thenOld, env).Some? && Value(elseOld, env).Some? && (if taken then r + 1 else r + 2) in env
    ensures Enter(g, thenBlock + 2, if taken then thenBlock else thenBlock + 1, env) == At(thenBlock + 2, 0, env')
    ensures env' == env[r + 3 := Value(if taken then Reg(r + 1) else thenOld, env).value]
                       [r + 4 := Value(if taken then elseOld else Reg(r + 2), env).value]
  {
    var phis := g[thenBlock + 2].phis;
    var side := if taken then thenBlock else thenBlock + 1;
    var v := if taken then Reg(r + 1) else thenOld;
    var w := if taken then elseOld else Reg(r + 2);
    assert phis[0].incoming[1..] == [(thenOld, thenBlock + 1)];
    assert phis[1].incoming[1..] == [(elseOld, thenBlock)];
    PhiPair(phis, side, env, v, w);
    env' := env[r + 3 := Value(v, env).value][r + 4 := Value(w, env).value];
  }

  // ----- the loop -----

  lemma ExecFirst(i: Instr, rest: seq<Instr>, env: Env, mem: Memory, v: nat)
    requires Compute(i.op, env, mem) == Some(v)
    ensures Exec([i] + rest, env, mem) == Exec(rest, env[i.dst := v], mem)
  {
    assert ([i] + rest)[1..] == rest;
  }

  /** The masked index stays below the number of slots, so the load is in bounds. */
  lemma SlotAddress(mem: Memory, x: nat)
    requires mem.slots != [] && ValidMemory(mem, mem.base, |mem.slots|)
    ensures var masked := BitAnd(x, |mem.slots| - 1);
            var address := mem.base + 4 * masked;
            && masked < |mem.slots| && (masked * Pow2(2)) % TWO_64 == 4 * masked
            && (mem.base + 4 * masked) % TWO_64 == address
            && Read(mem, address) == Some(mem.slots[masked])
  {
    assert Pow2(2) == 4 * Pow2(0);
  }

  lemma ExecThree(a: Instr, b: Instr, c: Instr, rest: seq<Instr>, env: Env, mem: Memory, x: nat, y: nat, z: nat)
    requires Compute(a.op, env, mem) == Some(x)
    requires Compute(b.op, env[a.dst := x], mem) == Some(y)
    requires Compute(c.op, env[a.dst := x][b.dst := y], mem) == Some(z)
    ensures Exec([a, b, c] + rest, env, mem) == Exec(rest, env[a.dst := x][b.dst := y][c.dst := z], mem)
  {
    ExecFirst(c, rest, env[a.dst := x][b.dst := y], mem, z);
    assert [b] + ([c] + rest) == [b, c] + rest;
    ExecFirst(b, [c] + rest, env[a.dst := x], mem, y);
    assert [a] + ([b, c] + rest) == [a, b, c] + rest;
    ExecFirst(a, [b, c] + rest, env, mem, x);
  }

  function OffsetCode(r: nat, numVars: nat): seq<Instr>
    requires numVars >= 1
  {
    [Instr(r + 4, And(Reg(r + 3), Const(numVars - 1))), Instr(r + 5, ZExt(Reg(r + 4))),
     Instr(r + 6, Shl(Reg(r + 5), 2))]
  }

  function LoadCode(r: nat, base: nat): seq<Instr> {
    [Instr(r + 7, Add64(Const(base), Reg(r + 6))), Instr(r + 8, IntToPtr(Reg(r + 7))), Instr(r + 9, Load(Reg(r + 8)))]
  }

  lemma SlotLoadExec(r: nat, mem: Memory, env: Env, x: nat, rest: seq<Instr>) returns (env': Env)
    requires mem.slots != [] && ValidMemory(mem, mem.base, |mem.slots|) && r + 3 in env && env[r + 3] == x
    ensures Exec(OffsetCode(r, |mem.slots|) + (LoadCode(r, mem.base) + rest), env, mem) == Exec(rest, env', mem)
    ensures SameBelow(r + 4, env, env') && r + 9 in env'
    ensures env'[r + 9] == mem.slots[BitAnd(x, |mem.slots| - 1)]
  {
    SlotAddress(mem, x);
    var masked := BitAnd(x, |mem.slots| - 1);
    var address := mem.base + 4 * masked;
    var code, more := OffsetCode(r, |mem.slots|), LoadCode(r, mem.base);
    ExecThree(code[0], code[1], code[2], more + rest, env, mem, masked, masked, 4 * masked);
    var mid := env[r + 4 := masked][r + 5 := masked][r + 6 := 4 * masked];
    ExecThree(more[0], more[1], more[2], rest, mid, mem, address, address, mem.slots[masked]);
    env' := mid[r + 7 := address][r + 8 := address][r + 9 := mem.slots[masked]];
  }

  /** The first eight instructions of the loop body: new index, slot load, new sum. */
  lemma LoopBodyCode(r: nat, start: Operand, from: nat, self: nat, base: nat, numVars: nat)
    requires numVars >= 1
    ensures LoopBody(r, start, from, self, base, numVars).body[..8]
            == [Instr(r + 3, Sub(Reg(r + 1), Const(1)))]
               + (OffsetCode(r, numVars) + (LoadCode(r, base) + [Instr(r + 10, Add(Reg(r + 2), Reg(r + 9)))]))
  {
  }

  lemma SumExec(r: nat, mem: Memory, env: Env, sum: Word, slot: Word) returns (env': Env)
    requires r + 2 in env && env[r + 2] == sum && r + 9 in env && env[r + 9] == slot
    ensures Exec([Instr(r + 10, Add(Reg(r + 2), Reg(r + 9)))], env, mem) == Some(env')
    ensures env' == env[r + 10 := (sum + slot) % TWO_32]
  {
    var total := (sum + slot) % TWO_32;
    var add := Instr(r + 10, Add(Reg(r + 2), Reg(r + 9)));
    assert [add] == [add] + [];
    ExecFirst(add, [], env, mem, total);
    env' := env[r + 10 := total];
  }

  lemma IndexExec(r: nat, mem: Memory, env: Env, index: nat, rest: seq<Instr>) returns (env': Env)
    requires 1 <= index < TWO_32 && r + 1 in env && env[r + 1] == index
    ensures Exec([Instr(r + 3, Sub(Reg(r + 1), Const(1)))] + rest, env, mem) == Exec(rest, env', mem)
    ensures env' == env[r + 3 := index - 1]
  {
    assert WrapSub(index, 1) == index - 1;
    ExecFirst(Instr(r + 3, Sub(Reg(r + 1), Const(1))), rest, env, mem, index - 1);
    env' := env[r + 3 := index - 1];
  }

  /** One turn of the loop body, up to its test. */
  lemma LoopBodyExec(r: nat, start: Operand, from: nat, self: nat, mem: Memory, env: Env, index: nat, sum: Word)
    returns (env': Env)
    requires mem.slots != [] && ValidMemory(mem, mem.base, |mem.slots|)
    requires 1 <= index < TWO_32 && r + 1 in env && env[r + 1] == index && r + 2 in env && env[r + 2] == sum
    ensures Exec(LoopBody(r, start, from, self, mem.base, |mem.slots|).body[..8], env, mem) == Some(env')
    ensures SameBelow(r + 3, env, env') && r + 3 in env' && env'[r + 3] == index - 1 && r + 10 in env'
    ensures env'[r + 10] == (sum + mem.slots[BitAnd(index - 1, |mem.slots| - 1)]) % TWO_32
  {
    LoopBodyCode(r, start, from, self, mem.base, |mem.slots|);
    var add := [Instr(r + 10, Add(Reg(r + 2), Reg(r + 9)))];
    var e1 := IndexExec(r, mem, env, index, OffsetCode(r, |mem.slots|) + (LoadCode(r, mem.base) + add));
    var e7 := SlotLoadExec(r, mem, e1, index - 1, add);
    env' := SumExec(r, mem, e7, sum, e7[r + 9]);
  }

  /** Leaving the loop: the final-sum phi reads the value for the edge taken. */
  lemma ExitRuns(g: Graph, r: nat, from: nat, self: nat, prev: nat, env: Env, x: nat)
    requires self + 1 < |g| && g[self + 1].phis == LoopExit(r, from, self).phis && from != self
    requires (prev == from && x == 0) || (prev == self && r + 10 in env && env[r + 10] == x)
    ensures Enter(g, self + 1, prev, env) == At(self + 1, 0, env[r + 12 := x])
  {
    var phis := g[self + 1].phis;
    assert phis[0].incoming[1..] == [(Reg(r + 10), self)];
    var v := if prev == from then Const(0) else Reg(r + 10);
    assert IncomingFrom(phis[0].incoming, prev) == Some(v);
    if prev == from {
      assert x == 0;
      assert Value(v, env) == Some(0);
    } else {
      assert Value(v, env) == Some(x);
    }
    assert RunPhis(phis, prev, env, env) == RunPhis(phis[1..], prev, env, env[phis[0].dst := x]);
  }

  /** Entering the loop body, from before the loop or along the back edge. */
  lemma BodyEntered(g: Graph, r: nat, start: Operand, from: nat, self: nat, base: nat, numVars: nat, prev: nat,
                    env: Env,
                    index: nat, sum: nat)
    requires numVars >= 1 && self < |g| && g[self] == LoopBody(r, start, from, self, base, numVars) && from != self
    requires (prev == from && Value(start, env) == Some(index) && sum == 0)
             || (prev == self && r + 3 in env && env[r + 3] == index && r + 10 in env && env[r + 10] == sum)
    ensures Enter(g, self, prev, env) == At(self, 0, env[r + 1 := index][r + 2 := sum])
  {
    var phis := g[self].phis;
    assert phis[0].incoming[1..] == [(Reg(r + 3), self)];
    assert phis[1].incoming[1..] == [(Reg(r + 10), self)];
    PhiPair(phis, prev, env, if prev == from then start else Reg(r + 3),
            if prev == from then Const(0) else Reg(r + 10));
  }

  /** The loop, from a body entered with `index` turns to go, ends with the structured loop's sum. */
  lemma {:induction false} LoopTurns(
    g: Graph, mem: Memory, r: nat, start: Operand, from: nat, self: nat, env: Env, index: nat, sum: Word)
    returns (env': Env)
    requires mem.slots != [] && ValidMemory(mem, mem.base, |mem.slots|) && from != self && self + 1 < |g|
    requires g[self] == LoopBody(r, start, from, self, mem.base, |mem.slots|)
    requires g[self + 1].phis == LoopExit(r, from, self).phis
    requires 1 <= index < TWO_32 && r + 1 in env && env[r + 1] == index && r + 2 in env && env[r + 2] == sum
    ensures Reaches(g, mem, At(self, 0, env), At(self + 1, 0, env'))
    ensures SameBelow(r + 1, env, env') && r + 12 in env' && env'[r + 12] == LoopSum(index, sum, mem.slots)
    decreases index
  {
    var sum' := (sum + mem.slots[BitAnd(index - 1, |mem.slots| - 1)]) % TWO_32;
    LoopSumStep(index, sum, mem.slots, sum');
    if index == 1 {
      env' := LastTurn(g, mem, r, start, from, self, env, sum);
    } else {
      var again := AnotherTurn(g, mem, r, start, from, self, env, index, sum, sum');
      env' := LoopTurns(g, mem, r, start, from, self, again, index - 1, sum');
      ReachesTrans(g, mem, At(self, 0, env), At(self, 0, again), At(self + 1, 0, env'));
    }
  }

  /** The turn that leaves the loop. */
  lemma LastTurn(g: Graph, mem: Memory, r: nat, start: Operand, from: nat, self: nat, env: Env, sum: Word)
    returns (env': Env)
    requires mem.slots != [] && ValidMemory(mem, mem.base, |mem.slots|) && from != self && self + 1 < |g|
    requires g[self] == LoopBody(r, start, from, self, mem.base, |mem.slots|)
    requires g[self + 1].phis == LoopExit(r, from, self).phis
    requires r + 1 in env && env[r + 1] == 1 && r + 2 in env && env[r + 2] == sum
    ensures Reaches(g, mem, At(self, 0, env), At(self + 1, 0, env'))
    ensures SameBelow(r + 1, env, env') && r + 12 in env'
    ensures env'[r + 12] == (sum + mem.slots[BitAnd(0, |mem.slots| - 1)]) % TWO_32
  {
    var turned := OneTurn(g, mem, r, start, from, self, env, 1, sum);
    ExitRuns(g, r, from, self, self, turned, turned[r + 10]);
    env' := turned[r + 12 := turned[r + 10]];
  }

  /** A turn after which the body is entered again. */
  lemma AnotherTurn(g: Graph, mem: Memory, r: nat, start: Operand, from: nat, self: nat, env: Env,
                    index: nat, sum: Word, sum': Word)
    returns (again: Env)
    requires mem.slots != [] && ValidMemory(mem, mem.base, |mem.slots|) && from != self && self + 1 < |g|
    requires g[self] == LoopBody(r, start, from, self, mem.base, |mem.slots|)
    requires 1 < index < TWO_32 && r + 1 in env && env[r + 1] == index && r + 2 in env && env[r + 2] == sum
    requires sum' == (sum + mem.slots[BitAnd(index - 1, |mem.slots| - 1)]) % TWO_32
    ensures Reaches(g, mem, At(self, 0, env), At(self, 0, again)) && SameBelow(r + 1, env, again)
    ensures r + 1 in again && again[r + 1] == index - 1 && r + 2 in again && again[r + 2] == sum'
  {
    var turned := OneTurn(g, mem, r, start, from, self, env, index, sum);
    BodyEntered(g, r, start, from, self, mem.base, |mem.slots|, self, turned, index - 1, sum');
    again := turned[r + 1 := index - 1][r + 2 := sum'];
  }

  lemma LoopSumStep(index: nat, sum: Word, slots: seq<Word>, next: Word)
    requires slots != [] && index >= 1 && next == (sum + slots[BitAnd(index - 1, |slots| - 1)]) % TWO_32
    ensures LoopSum(index, sum, slots) == LoopSum(index - 1, next, slots)
    ensures index == 1 ==> LoopSum(index, sum, slots) == next
  {
  }

  lemma OneTurn(
    g: Graph, mem: Memory, r: nat, start: Operand, from: nat, self: nat, env: Env, index: nat, sum: Word)
    returns (turned: Env)
    requires mem.slots != [] && ValidMemory(mem, mem.base, |mem.slots|) && self + 1 < |g|
    requires g[self] == LoopBody(r, start, from, self, mem.base, |mem.slots|)
    requires 1 <= index < TWO_32 && r + 1 in env && env[r + 1] == index && r + 2 in env && env[r + 2] == sum
    ensures Reaches(g, mem, At(self, 0, env), Enter(g, if index > 1 then self else self + 1, self, turned))
    ensures SameBelow(r + 1, env, turned) && r + 3 in turned && turned[r + 3] == index - 1 && r + 10 in turned
    ensures turned[r + 10] == (sum + mem.slots[BitAnd(index - 1, |mem.slots| - 1)]) % TWO_32
  {
    var e := LoopBodyExec(r, start, from, self, mem, env, index, sum);
    var body := g[self].body;
    assert body[0..0 + 8] == body[..8];
    RunsStraight(g, mem, self, 0, env, body[..8]);
    TestRuns(g, mem, self, 8, e, r + 11, Reg(r + 3), self, self + 1, index - 1);
    turned := e[r + 11 := if index - 1 != 0 then 1 else 0];
    ReachesTrans(g, mem, At(self, 0, env), At(self, 8, e),
                 Enter(g, if index > 1 then self else self + 1, self, turned));
  }

  /** The loop from the test before it to its exit, entered with the value `x` of its start index. */
  lemma LoopPath(g: Graph, mem: Memory, c: nat, pc: nat, env: Env, r: nat, start: Operand, self: nat, x: Word)
    returns (env': Env)
    requires mem.slots != [] && ValidMemory(mem, mem.base, |mem.slots|) && c < self && self + 1 < |g|
    requires pc + 1 == |g[c].body| && g[c].body[pc] == Instr(r, IcmpNe(start, Const(0)))
    requires g[c].term == Some(CondBr(Reg(r), self, self + 1))
    requires g[self] == LoopBody(r, start, c, self, mem.base, |mem.slots|)
    requires g[self + 1].phis == LoopExit(r, c, self).phis
    requires Value(start, env) == Some(x) && (start.Reg? ==> start.id < r)
    ensures Reaches(g, mem, At(c, pc, env), At(self + 1, 0, env'))
    ensures SameBelow(r, env, env') && r + 12 in env' && env'[r + 12] == LoopSum(x, 0, mem.slots)
  {
    TestRuns(g, mem, c, pc, env, r, start, self, self + 1, x);
    var env1: Env := env[r := if x != 0 then 1 else 0];
    if x == 0 {
      ExitRuns(g, r, c, self, c, env1, 0);
      env' := env1[r + 12 := 0];
    } else {
      BodyEntered(g, r, start, c, self, mem.base, |mem.slots|, c, env1, x, 0);
      var env2: Env := env1[r + 1 := x][r + 2 := 0];
      env' := LoopTurns(g, mem, r, start, c, self, env2, x, 0);
      ReachesTrans(g, mem, At(c, pc, env), At(self, 0, env2), At(self + 1, 0, env'));
    }
  }

  lemma LoopRuns(b: Built, i: nat, g: Graph, mem: Memory, env: Env, vals: seq<Word>) returns (env': Env)
    requires b.vars != [] && b.current < |b.blocks| && VarsBelow(b) && ValidMemory(mem, mem.base, |b.vars|)
    requires i % 2 == 0 && Extends(AddLoop(b, i, mem.base), g) && Agrees(b, env, vals)
    ensures Reaches(g, mem, At(b.current, |b.blocks[b.current].body|, env),
                    At(AddLoop(b, i, mem.base).current, 0, env'))
    ensures Agrees(AddLoop(b, i, mem.base), env', GraphStep(vals, mem.slots, i))
  {
    var r, c, self := b.regs, b.current, |b.blocks|;
    var k := (i / 2 + 1) % |b.vars|;
    LoopBlocks(b, i, mem.base, g);
    env' := LoopPath(g, mem, c, |b.blocks[c].body|, env, r, b.vars[k], self, vals[k]);
    LoopAgrees(b, i, mem, env, env', vals);
  }

  /** The blocks of a loop, found in the finished graph. */
  lemma LoopBlocks(b: Built, i: nat, base: nat, g: Graph)
    requires b.vars != [] && b.current < |b.blocks| && i % 2 == 0 && Extends(AddLoop(b, i, base), g)
    ensures var r, c, self, start := b.regs, b.current, |b.blocks|, b.vars[(i / 2 + 1) % |b.vars|];
            && self + 1 < |g| && g[c] == Tested(b.blocks[c], r, start, self, self + 1)
            && g[self] == LoopBody(r, start, c, self, base, |b.vars|)
            && g[self + 1].phis == LoopExit(r, c, self).phis
  {
    var b', c, self := AddLoop(b, i, base), b.current, |b.blocks|;
    ExtendsEarlier(b, i, base, g);
    assert g[c] == b'.blocks[c];
    assert g[self] == b'.blocks[self] && g[self + 1].phis == b'.blocks[self + 1].phis;
  }

  lemma LoopAgrees(b: Built, i: nat, mem: Memory, env: Env, env': Env, vals: seq<Word>)
    requires b.vars != [] && b.current < |b.blocks| && VarsBelow(b) && mem.slots != []
    requires i % 2 == 0 && Agrees(b, env, vals) && SameBelow(b.regs, env, env') && b.regs + 12 in env'
    requires env'[b.regs + 12] == LoopSum(vals[(i / 2 + 1) % |b.vars|], 0, mem.slots)
    ensures Agrees(AddLoop(b, i, mem.base), env', GraphStep(vals, mem.slots, i))
  {
    var b' := AddLoop(b, i, mem.base);
    var next := GraphStep(vals, mem.slots, i);
    forall j | 0 <= j < |vals| ensures Value(b'.vars[j], env') == Some(next[j]) {
      assert Value(b.vars[j], env) == Some(vals[j]);
    }
  }

  // ----- the whole graph -----

  lemma {:induction false} ExecAppend(a: seq<Instr>, b: seq<Instr>, env: Env, mem: Memory)
    requires Exec(a, env, mem).Some?
    ensures Exec(a + b, env, mem) == Exec(b, Exec(a, env, mem).value, mem)
  {
    if a == [] {
      assert a + b == b;
    } else {
      assert (a + b)[1..] == a[1..] + b;
      ExecAppend(a[1..], b, env[a[0].dst := Compute(a[0].op, env, mem).value], mem);
    }
  }

  /** The entry block loads every slot into its variable. */
  lemma {:induction false} EntryExec(mem: Memory, n: nat) returns (env: Env)
    requires n <= |mem.slots|
    ensures Exec(EntryBody(mem.base, n), map[], mem) == Some(env)
    ensures forall j | 0 <= j < n :: 2 * j + 1 in env && env[2 * j + 1] == mem.slots[j]
  {
    if n == 0 {
      env := map[];
    } else {
      var e := EntryExec(mem, n - 1);
      var address := mem.base + 4 * (n - 1);
      var i1, i2 := Instr(2 * n - 2, IntToPtr(Const(address))), Instr(2 * n - 1, Load(Reg(2 * n - 2)));
      assert EntryBody(mem.base, n) == EntryBody(mem.base, n - 1) + ([i1] + ([i2] + []));
      ExecAppend(EntryBody(mem.base, n - 1), [i1] + ([i2] + []), map[], mem);
      ExecFirst(i1, [i2] + [], e, mem, address);
      assert (address - mem.base) / 4 == n - 1;
      ExecFirst(i2, [], e[2 * n - 2 := address], mem, mem.slots[n - 1]);
      env := e[2 * n - 2 := address][2 * n - 1 := mem.slots[n - 1]];
    }
  }

  lemma EntryRuns(numVars: nat, g: Graph, mem: Memory) returns (env: Env)
    requires numVars >= 1 && |mem.slots| == numVars && Extends(Entry(mem.base, numVars), g)
    ensures Reaches(g, mem, START, At(0, 2 * numVars, env)) && Agrees(Entry(mem.base, numVars), env, mem.slots)
  {
    env := EntryExec(mem, numVars);
    var body := EntryBody(mem.base, numVars);
    assert g[0].body[0..0 + |body|] == body;
    RunsStraight(g, mem, 0, 0, map[], body);
    forall j | 0 <= j < numVars ensures Value(EntryVars(numVars)[j], env) == Some(mem.slots[j]) {
      assert 2 * j + 1 in env;
    }
  }

  /** The state in which everything put into the current block so far has run. */
  function Filled(b: Built, env: Env): State
    requires b.current < |b.blocks|
  {
    At(b.current, |b.blocks[b.current].body|, env)
  }

  lemma ConstructRuns(b: Built, i: nat, g: Graph, mem: Memory, env: Env, vals: seq<Word>) returns (env': Env)
    requires b.vars != [] && b.current < |b.blocks| && VarsBelow(b) && ValidMemory(mem, mem.base, |b.vars|)
    requires Extends(AddConstruct(b, i, mem.base), g) && Agrees(b, env, vals)
    ensures Reaches(g, mem, Filled(b, env), Filled(AddConstruct(b, i, mem.base), env'))
    ensures Agrees(AddConstruct(b, i, mem.base), env', GraphStep(vals, mem.slots, i))
  {
    if i % 2 == 1 {
      env' := DiamondRuns(b, i, g, mem, env, vals);
    } else {
      env' := LoopRuns(b, i, g, mem, env, vals);
    }
  }

  /** The graph has run through the construction of `b`, with `vals` in the variables. */
  ghost predicate RanTo(b: Built, g: Graph, mem: Memory, env: Env, vals: seq<Word>)
    requires b.current < |b.blocks|
  {
    Reaches(g, mem, START, Filled(b, env)) && Agrees(b, env, vals)
  }

  lemma NextStage(b: Built, next: Built, i: nat, g: Graph, mem: Memory, env: Env, vals: seq<Word>) returns (env': Env)
    requires b.vars != [] && Shaped(b, |b.vars|) && ValidMemory(mem, mem.base, |b.vars|)
    requires IsNext(b, next, i, mem.base) && Extends(next, g) && RanTo(b, g, mem, env, vals)
    ensures RanTo(next, g, mem, env', GraphStep(vals, mem.slots, i))
  {
    env' := ConstructRuns(b, i, g, mem, env, vals);
    ReachesTrans(g, mem, START, Filled(b, env), Filled(next, env'));
  }

  lemma EarlierExtends(b: Built, next: Built, i: nat, base: nat, g: Graph)
    requires IsNext(b, next, i, base) && Extends(next, g)
    ensures Extends(b, g)
  {
    ExtendsEarlier(b, i, base, g);
  }

  lemma {:induction false} PrefixRuns(stages: seq<Built>, numVars: nat, n: nat, g: Graph, mem: Memory)
    returns (env: Env)
    requires Stages(stages, mem.base, numVars) && n < |stages| && ValidMemory(mem, mem.base, numVars)
    requires Extends(stages[n], g)
    ensures RanTo(stages[n], g, mem, env, GraphRun(mem.slots, n))
    decreases n
  {
    if n == 0 {
      env := EntryRuns(numVars, g, mem);
    } else {
      var b := stages[n - 1];
      assert NextAt(stages, n - 1, mem.base);
      EarlierExtends(b, stages[n], n - 1, mem.base, g);
      var env0 := PrefixRuns(stages, numVars, n - 1, g, mem);
      env := NextStage(b, stages[n], n - 1, g, mem, env0, GraphRun(mem.slots, n - 1));
    }
  }

  lemma FinishReturns(stages: seq<Built>, numVars: nat, n: nat, mem: Memory)
    requires Stages(stages, mem.base, numVars) && n < |stages| && ValidMemory(mem, mem.base, numVars)
    ensures Returns(Finish(stages[n]), mem, GraphRun(mem.slots, n)[0])
  {
    var b := stages[n];
    var g := Finish(b);
    assert Extends(b, g);
    var env := PrefixRuns(stages, numVars, n, g, mem);
    assert Value(b.vars[0], env) == Some(GraphRun(mem.slots, n)[0]);
    ThenStep(g, mem, START, Filled(b, env), Returned(GraphRun(mem.slots, n)[0]));
  }

  /** What the graph returns, for any number of variables. */
  lemma GraphReturns(numVars: nat, n: nat, mem: Memory)
    requires numVars >= 1 && ValidMemory(mem, mem.base, numVars)
    ensures Returns(Complex(mem.base, numVars, n), mem, GraphRun(mem.slots, n)[0])
  {
    var stages := BuildStages(mem.base, numVars, n);
    FinishReturns(stages, numVars, n, mem);
  }

  lemma StepsAgree(vals: seq<Word>, slots: seq<Word>, i: nat)
    requires slots != [] && (|vals| >= 2 || (|vals| == 1 && i % 2 == 0))
    ensures GraphStep(vals, slots, i) == Structured(vals, slots, i)
  {
    var n := |vals|;
    var t, e := (i / 2) % n, (i / 2 + 1) % n;
    if i % 2 == 1 {
      DistinctTargets(i / 2, n);
      assert vals[t := Increment(vals[t])][e := vals[e]] == vals[t := Increment(vals[t])];
      assert vals[t := vals[t]] == vals;
    }
  }

  lemma {:induction false} TwoVariablesSuffice(slots: seq<Word>, n: nat)
    requires |slots| >= 2 || (|slots| == 1 && n <= 1)
    ensures GraphRun(slots, n) == StructuredRun(slots, n)
    decreases n
  {
    if n > 0 {
      TwoVariablesSuffice(slots, n - 1);
      NextRunsAgree(slots, n, GraphRun(slots, n - 1));
    }
  }

  lemma NextRunsAgree(slots: seq<Word>, n: nat, vals: seq<Word>)
    requires n > 0 && (|slots| >= 2 || (|slots| == 1 && n <= 1))
    requires vals == GraphRun(slots, n - 1) == StructuredRun(slots, n - 1)
    ensures GraphRun(slots, n) == StructuredRun(slots, n)
  {
    StepsAgree(vals, slots, n - 1);
  }

  lemma DistinctTargets(k: nat, n: nat)
    requires n >= 2
    ensures k % n != (k + 1) % n
  {
    var a, b := k / n, (k + 1) / n;
    if k % n == (k + 1) % n {
      assert n * b - n * a == 1;
      assert n * (b - a) == n * b - n * a;
      Multiples(n, b - a);
    }
  }

  lemma Multiples(n: nat, d: int)
    requires n >= 2
    ensures n * d != 1
  {
    if d >= 1 {
      assert n * d >= n;
    } else {
      assert n * d <= 0;
    }
  }

  /**
   * SSA construction preserves meaning: with at least two variables, running the built graph from
   * its entry block returns the structured program's value, and so no load leaves the slots.
   */
  lemma ConstructionPreservesMeaning(numVars: nat, n: nat, mem: Memory)
    requires numVars >= 2 && ValidMemory(mem, mem.base, numVars)
    ensures Returns(Complex(mem.base, numVars, n), mem, StructuredRun(mem.slots, n)[0])
  {
    GraphReturns(numVars, n, mem);
    TwoVariablesSuffice(mem.slots, n);
  }

  // ----- one variable -----

  lemma {:induction false} MaskedSumOfOnes(count: nat)
    ensures MaskedSum(count, [1]) == count
    decreases count
  {
    if count > 0 {
      MaskedSumOfOnes(count - 1);
      assert [1 as Word][0] == 1;
    }
  }

  lemma LoopSumOfOnes(index: nat)
    ensures LoopSum(index, 0, [1]) == index % TWO_32
  {
    LoopSumClosed(index, 0, [1]);
    MaskedSumOfOnes(index);
  }

  lemma OneVariableLoop(v: Word, i: nat)
    requires i % 2 == 0
    ensures GraphStep([1], [1], i) == [1] && Structured([v], [1], i) == [v]
  {
    LoopSumOfOnes(1);
    LoopSumOfOnes(v);
    assert (i / 2) % 1 == 0 && (i / 2 + 1) % 1 == 0;
  }

  lemma OneVariableDiamond(v: Word, i: nat)
    requires i % 2 == 1 && 0 < v && v + 1 < TWO_32
    ensures GraphStep([1], [1], i) == [1] && Structured([v], [1], i) == [v + 1]
  {
    assert (i / 2) % 1 == 0 && (i / 2 + 1) % 1 == 0 && (i / 2 + 2) % 1 == 0;
  }

  lemma OneVariableStep(slots: seq<Word>, n: nat)
    requires slots == [1] && 0 < n < TWO_32
    requires GraphRun(slots, n - 1) == [1] && StructuredRun(slots, n - 1) == [1 + (n - 1) / 2]
    ensures GraphRun(slots, n) == [1] && StructuredRun(slots, n) == [1 + n / 2]
  {
    var v: Word := 1 + (n - 1) / 2;
    if n % 2 == 1 {
      assert n / 2 == (n - 1) / 2;
      OneVariableLoop(v, n - 1);
    } else {
      assert n / 2 == (n - 1) / 2 + 1;
      OneVariableDiamond(v, n - 1);
    }
  }

  /** With the single slot 1 the graph never leaves 1, while the structured program counts diamonds. */
  lemma {:induction false} OneVariable(slots: seq<Word>, n: nat)
    requires slots == [1] && n < TWO_32
    ensures GraphRun(slots, n) == [1] && StructuredRun(slots, n) == [1 + n / 2]
    decreases n
  {
    if n > 0 {
      OneVariable(slots, n - 1);
      OneVariableStep(slots, n);
    }
  }

  /** The construction is right for all slot contents exactly when its two phis cannot collide. */
  lemma MeaningPreservedExactly(base: nat, numVars: nat, n: nat)
    requires 1 <= numVars < TWO_32 && base + 4 * numVars <= TWO_64 && n < TWO_32
    ensures (forall mem | ValidMemory(mem, base, numVars) ::
               Returns(Complex(base, numVars, n), mem, StructuredRun(mem.slots, n)[0]))
            <==> numVars >= 2 || n <= 1
  {
    if numVars >= 2 || n <= 1 {
      forall mem | ValidMemory(mem, base, numVars)
        ensures Returns(Complex(base, numVars, n), mem, StructuredRun(mem.slots, n)[0])
      {
        GraphReturns(numVars, n, mem);
        TwoVariablesSuffice(mem.slots, n);
      }
    } else {
      var mem := Memory(base, [1]);
      GraphReturns(1, n, mem);
      OneVariable(mem.slots, n);
      if Returns(Complex(base, numVars, n), mem, StructuredRun(mem.slots, n)[0]) {
        ReturnsOnce(Complex(base, numVars, n), mem, 1, 1 + n / 2);
        assert false;
      }
    }
  }

  // ----- the slots that the test writes -----

  /** The slots hold the numbers below `numVars`, highest first. */
  function InitialSlots(numVars: nat): (slots: seq<Word>)
    requires numVars < TWO_32
    ensures |slots| == numVars && forall i | 0 <= i < numVars :: slots[i] + i + 1 == numVars
  {
    seq(numVars, i requires 0 <= i < numVars => numVars - 1 - i)
  }

  method WriteSlots(numVars: nat) returns (varSlots: seq<Word>)
    requires numVars < TWO_32
    ensures varSlots == InitialSlots(numVars) && forall i | 0 <= i < numVars :: varSlots[i] == numVars - 1 - i
  {
    varSlots := [];
    var i := numVars;
    while i != 0
      invariant 0 <= i <= numVars && varSlots == InitialSlots(numVars)[..numVars - i]
    {
      i := i - 1;
      varSlots := varSlots + [i];
    }
  }

  lemma {:induction false} MaskedSumOfZero(count: nat)
    ensures MaskedSum(count, [0]) == 0
    decreases count
  {
    if count > 0 {
      MaskedSumOfZero(count - 1);
      assert [0 as Word][0] == 0;
    }
  }

  lemma LoopSumOfZero(index: nat)
    ensures LoopSum(index, 0, [0]) == 0
  {
    LoopSumClosed(index, 0, [0]);
    MaskedSumOfZero(index);
  }

  lemma ZeroSlotStep(v: Word, i: nat)
    requires i % 2 == 1 ==> v == 0
    ensures GraphStep([v], [0], i) == Structured([v], [0], i) == [if i % 2 == 1 then 1 else 0]
  {
    LoopSumOfZero(v);
    assert (i / 2) % 1 == 0 && (i / 2 + 1) % 1 == 0 && (i / 2 + 2) % 1 == 0;
  }

  /** With the single slot 0 the two phis agree: every diamond finds the variable at zero. */
  lemma {:induction false} ZeroSlotAgrees(n: nat)
    ensures GraphRun([0], n) == StructuredRun([0], n) == [if n > 0 && n % 2 == 0 then 1 else 0]
    decreases n
  {
    if n > 0 {
      ZeroSlotAgrees(n - 1);
      ZeroSlotStep(if n > 1 && n % 2 == 1 then 1 else 0, n - 1);
    }
  }

  /** On the slots that the test writes, the graph means what its constructs say, for every size. */
  lemma WrittenSlotsPreserveMeaning(base: nat, numVars: nat, n: nat)
    requires 1 <= numVars < TWO_32 && base + 4 * numVars <= TWO_64
    ensures var mem := Memory(base, InitialSlots(numVars));
            Returns(Complex(base, numVars, n), mem, StructuredRun(mem.slots, n)[0])
  {
    var mem := Memory(base, InitialSlots(numVars));
    GraphReturns(numVars, n, mem);
    if numVars == 1 {
      assert mem.slots == [0];
      ZeroSlotAgrees(n);
    } else {
      TwoVariablesSuffice(mem.slots, n);
    }
  }
}

/**
 * The benchmark generator's IR construction: one entry block that loads the variable slots,
 * then alternating count-down loops and if/else diamonds, wired with phi nodes directly from
 * a vector that maps each variable to its current SSA value.
 */
module SsaBuilder {
  import opened Wrappers
  import opened SsaIr

  // ----- the graph each construct adds, in closed form -----

  /** The blocks so far, the next register, the block being filled, and the variables' values. */
  datatype Built = Built(blocks: Graph, regs: nat, current: nat, vars: seq<Operand>)

  function EntryBody(base: nat, n: nat): (body: seq<Instr>)
    ensures |body| == 2 * n
  {
    if n == 0 then []
    else EntryBody(base, n - 1)
         + [Instr(2 * n - 2, IntToPtr(Const(base + 4 * (n - 1)))), Instr(2 * n - 1, Load(Reg(2 * n - 2)))]
  }

  function EntryVars(n: nat): (vars: seq<Operand>)
    ensures |vars| == n && forall j | 0 <= j < n :: vars[j] == Reg(2 * j + 1)
  {
    if n == 0 then [] else EntryVars(n - 1) + [Reg(2 * n - 1)]
  }

  function Entry(base: nat, numVars: nat): Built {
    Built([Block([], EntryBody(base, numVars), None)], 2 * numVars, 0, EntryVars(numVars))
  }

  /** The current block, closed by a test of `v` against zero. */
  function Tested(b: Block, reg: nat, v: Operand, thenBlock: nat, elseBlock: nat): Block {
    Block(b.phis, b.body + [Instr(reg, IcmpNe(v, Const(0)))], Some(CondBr(Reg(reg), thenBlock, elseBlock)))
  }

  /** Registers r+1.. of a loop: index and sum phis, the nine body instructions. */
  function LoopBody(r: nat, start: Operand, from: nat, self: nat, base: nat, numVars: nat): Block
    requires numVars >= 1
  {
    Block(
      [Phi(r + 1, [(start, from), (Reg(r + 3), self)]), Phi(r + 2, [(Const(0), from), (Reg(r + 10), self)])],
      [Instr(r + 3, Sub(Reg(r + 1), Const(1))),
       Instr(r + 4, And(Reg(r + 3), Const(numVars - 1))),
       Instr(r + 5, ZExt(Reg(r + 4))),
       Instr(r + 6, Shl(Reg(r + 5), 2)),
       Instr(r + 7, Add64(Const(base), Reg(r + 6))),
       Instr(r + 8, IntToPtr(Reg(r + 7))),
       Instr(r + 9, Load(Reg(r + 8))),
       Instr(r + 10, Add(Reg(r + 2), Reg(r + 9))),
       Instr(r + 11, IcmpNe(Reg(r + 3), Const(0)))],
      Some(CondBr(Reg(r + 11), self, self + 1)))
  }

  function LoopExit(r: nat, from: nat, loopBody: nat): Block {
    Block([Phi(r + 12, [(Const(0), from), (Reg(r + 10), loopBody)])], [], None)
  }

  function AddLoop(b: Built, i: nat, base: nat): Built
    requires b.vars != [] && b.current < |b.blocks|
  {
    var numVars, r, body := |b.vars|, b.regs, |b.blocks|;
    var start := b.vars[(i / 2 + 1) % numVars];
    Built(b.blocks[b.current := Tested(b.blocks[b.current], r, start, body, body + 1)]
          + [LoopBody(r, start, b.current, body, base, numVars), LoopExit(r, b.current, body)],
          r + 13, body + 1, b.vars[(i / 2) % numVars := Reg(r + 12)])
  }

  function Incremented(reg: nat, v: Operand, next: nat): Block {
    Block([], [Instr(reg, Add(v, Const(1)))], Some(Br(next)))
  }

  function DiamondExit(r: nat, thenOld: Operand, elseOld: Operand, thenBlock: nat): Block {
    Block([Phi(r + 3, [(Reg(r + 1), thenBlock), (thenOld, thenBlock + 1)]),
           Phi(r + 4, [(Reg(r + 2), thenBlock + 1), (elseOld, thenBlock)])], [], None)
  }

  function AddDiamond(b: Built, i: nat): Built
    requires b.vars != [] && b.current < |b.blocks|
  {
    var numVars, r, thenBlock := |b.vars|, b.regs, |b.blocks|;
    var p, t, e := (i / 2 + 2) % numVars, (i / 2) % numVars, (i / 2 + 1) % numVars;
    Built(b.blocks[b.current := Tested(b.blocks[b.current], r, b.vars[p], thenBlock, thenBlock + 1)]
          + [Incremented(r + 1, b.vars[t], thenBlock + 2), Incremented(r + 2, b.vars[e], thenBlock + 2),
             DiamondExit(r, b.vars[t], b.vars[e], thenBlock)],
          r + 5, thenBlock + 2, b.vars[t := Reg(r + 3)][e := Reg(r + 4)])
  }

  /** Construct `i`: diamonds at odd positions, loops at even ones. */
  function AddConstruct(b: Built, i: nat, base: nat): (b': Built)
    requires b.vars != [] && b.current < |b.blocks|
    ensures |b'.vars| == |b.vars| && b'.current < |b'.blocks|
  {
    if i % 2 == 1 then AddDiamond(b, i) else AddLoop(b, i, base)
  }

  function Build(base: nat, numVars: nat, numConstructs: nat): (b: Built)
    requires numVars >= 1
    ensures |b.vars| == numVars && b.current < |b.blocks|
  {
    if numConstructs == 0 then Entry(base, numVars)
    else AddConstruct(Build(base, numVars, numConstructs - 1), numConstructs - 1, base)
  }

  function Close(b: Block, t: Term): Block {
    b.(term := Some(t))
  }

  function Finish(b: Built): Graph
    requires b.vars != [] && b.current < |b.blocks|
  {
    b.blocks[b.current := Close(b.blocks[b.current], Ret(b.vars[0]))]
  }

  /** The function that run(numVars, numConstructs) builds over slots at address `base`. */
  function Complex(base: nat, numVars: nat, numConstructs: nat): Graph
    requires numVars >= 1
  {
    Finish(Build(base, numVars, numConstructs))
  }

  // ----- stages of the construction -----

  ghost predicate VarsBelow(b: Built) {
    forall j | 0 <= j < |b.vars| :: b.vars[j].Reg? && b.vars[j].id < b.regs
  }

  lemma {:induction false} BuildVarsBelow(base: nat, numVars: nat, n: nat)
    requires numVars >= 1
    ensures VarsBelow(Build(base, numVars, n))
    decreases n
  {
    if n > 0 { BuildVarsBelow(base, numVars, n - 1); }
  }

  ghost predicate Shaped(b: Built, numVars: nat) {
    |b.vars| == numVars && b.current < |b.blocks| && VarsBelow(b)
  }

  ghost predicate IsNext(b: Built, next: Built, i: nat, base: nat) {
    b.vars != [] && b.current < |b.blocks| && next == AddConstruct(b, i, base)
  }

  /** The stages of the construction, one construct apart. */
  ghost predicate Stages(stages: seq<Built>, base: nat, numVars: nat) {
    && numVars >= 1 && stages != [] && stages[0] == Entry(base, numVars)
    && (forall i | 0 <= i < |stages| :: Shaped(stages[i], numVars))
    && (forall i {:trigger NextAt(stages, i, base)} | 0 <= i < |stages| - 1 :: NextAt(stages, i, base))
  }

  ghost predicate NextAt(stages: seq<Built>, i: nat, base: nat)
    requires i + 1 < |stages|
  {
    IsNext(stages[i], stages[i + 1], i, base)
  }

  lemma {:induction false} BuildStages(base: nat, numVars: nat, n: nat) returns (stages: seq<Built>)
    requires numVars >= 1
    ensures Stages(stages, base, numVars) && |stages| == n + 1 && stages[n] == Build(base, numVars, n)
    decreases n
  {
    if n == 0 {
      stages := FirstStage(base, numVars);
    } else {
      var before := BuildStages(base, numVars, n - 1);
      stages := OneMoreStage(before, base, numVars, n);
    }
  }

  lemma OneMoreStage(before: seq<Built>, base: nat, numVars: nat, n: nat) returns (stages: seq<Built>)
    requires Stages(before, base, numVars) && |before| == n && before[n - 1] == Build(base, numVars, n - 1)
    ensures Stages(stages, base, numVars) && |stages| == n + 1 && stages[n] == Build(base, numVars, n)
  {
    var next := StageAfter(before[n - 1], base, numVars, n);
    stages := StagesExtend(before, next, base, numVars);
  }

  lemma FirstStage(base: nat, numVars: nat) returns (stages: seq<Built>)
    requires numVars >= 1
    ensures Stages(stages, base, numVars) && |stages| == 1 && stages[0] == Build(base, numVars, 0)
  {
    BuildVarsBelow(base, numVars, 0);
    stages := [Entry(base, numVars)];
  }

  lemma StageAfter(b: Built, base: nat, numVars: nat, n: nat) returns (next: Built)
    requires numVars >= 1 && n >= 1 && b == Build(base, numVars, n - 1) && Shaped(b, numVars)
    ensures next == Build(base, numVars, n) && Shaped(next, numVars) && IsNext(b, next, n - 1, base)
  {
    next := AddConstruct(b, n - 1, base);
  }

  lemma StagesExtend(stages: seq<Built>, next: Built, base: nat, numVars: nat) returns (more: seq<Built>)
    requires Stages(stages, base, numVars) && Shaped(next, numVars)
    requires IsNext(stages[|stages| - 1], next, |stages| - 1, base)
    ensures more == stages + [next] && Stages(more, base, numVars)
  {
    more := stages + [next];
    forall i | 0 <= i < |more| - 1 ensures NextAt(more, i, base) {
      if i < |stages| - 1 { NextStays(stages, more, i, base); }
    }
  }

  lemma NextStays(stages: seq<Built>, more: seq<Built>, i: nat, base: nat)
    requires i + 1 < |stages| && stages <= more && NextAt(stages, i, base)
    ensures NextAt(more, i, base)
  {
    assert more[i] == stages[i] && more[i + 1] == stages[i + 1];
  }

  // ----- the construction as it runs -----

  /** A function being built, with the block that new instructions go to. */
  class FunctionBuilder {
    var blocks: Graph
    var regs: nat
    var at: nat

    constructor ()
      ensures blocks == [Block([], [], None)] && regs == 0 && at == 0
    {
      blocks, regs, at := [Block([], [], None)], 0, 0;
    }

    method CreateBlock() returns (id: nat)
      modifies this`blocks
      ensures id == |old(blocks)| && blocks == old(blocks) + [Block([], [], None)]
    {
      id := |blocks|;
      blocks := blocks + [Block([], [], None)];
    }

    method SetBlock(id: nat)
      requires id < |blocks|
      modifies this`at
      ensures at == id
    {
      at := id;
    }

    method Create(op: Op) returns (v: Operand)
      requires at < |blocks| && blocks[at].term.None?
      modifies this`blocks, this`regs
      ensures v == Reg(old(regs)) && regs == old(regs) + 1
      ensures blocks == old(blocks)[at := old(blocks)[at].(body := old(blocks)[at].body + [Instr(old(regs), op)])]
    {
      v := Reg(regs);
      blocks := blocks[at := blocks[at].(body := blocks[at].body + [Instr(regs, op)])];
      regs := regs + 1;
    }

    /** Adds an empty phi; `index` is its place among the block's phis. */
    method CreatePhi() returns (v: Operand, index: nat)
      requires at < |blocks| && blocks[at].term.None? && blocks[at].body == []
      modifies this`blocks, this`regs
      ensures v == Reg(old(regs)) && regs == old(regs) + 1 && index == |old(blocks)[at].phis|
      ensures blocks == old(blocks)[at := old(blocks)[at].(phis := old(blocks)[at].phis + [Phi(old(regs), [])])]
    {
      v, index := Reg(regs), |blocks[at].phis|;
      blocks := blocks[at := blocks[at].(phis := blocks[at].phis + [Phi(regs, [])])];
      regs := regs + 1;
    }

    method AddIncoming(index: nat, v: Operand, from: nat)
      requires at < |blocks| && index < |blocks[at].phis|
      modifies this`blocks
      ensures var b := old(blocks)[at];
              var phi := b.phis[index];
              blocks == old(blocks)[at := b.(phis := b.phis[index := phi.(incoming := phi.incoming + [(v, from)])])]
    {
      var b := blocks[at];
      var phi := b.phis[index];
      blocks := blocks[at := b.(phis := b.phis[index := phi.(incoming := phi.incoming + [(v, from)])])];
    }

    /** Ends the block; a block is ended at most once. */
    method Terminate(t: Term)
      requires at < |blocks| && blocks[at].term.None?
      modifies this`blocks
      ensures blocks == old(blocks)[at := Close(old(blocks)[at], t)]
    {
      blocks := blocks[at := Close(blocks[at], t)];
    }

    ghost predicate Holds(b: Built)
      reads this
    {
      blocks == b.blocks && regs == b.regs && at == b.current
    }
  }

  method BuildEntry(base: nat, numVars: nat) returns (builder: FunctionBuilder, vars: seq<Operand>)
    ensures fresh(builder) && builder.Holds(Entry(base, numVars)) && vars == EntryVars(numVars)
  {
    builder := new FunctionBuilder();
    vars := [];
    var j := 0;
    while j < numVars
      invariant 0 <= j <= numVars && vars == EntryVars(j)
      invariant builder.blocks == [Block([], EntryBody(base, j), None)] && builder.regs == 2 * j && builder.at == 0
    {
      var ptr := builder.Create(IntToPtr(Const(base + 4 * j)));
      var v := builder.Create(Load(ptr));
      vars := vars + [v];
      assert builder.blocks[0].body == EntryBody(base, j + 1);
      j := j + 1;
    }
  }

  /** Ends the current block with a test of `v` against zero. */
  method EmitTest(builder: FunctionBuilder, v: Operand, thenBlock: nat, elseBlock: nat)
    requires builder.at < |builder.blocks| && builder.blocks[builder.at].term.None?
    modifies builder`blocks, builder`regs
    ensures builder.regs == old(builder.regs) + 1
    ensures builder.blocks == old(builder.blocks)[builder.at :=
              Tested(old(builder.blocks)[builder.at], old(builder.regs), v, thenBlock, elseBlock)]
  {
    var cond := builder.Create(IcmpNe(v, Const(0)));
    builder.Terminate(CondBr(cond, thenBlock, elseBlock));
  }

  /** One side of a diamond. */
  method EmitIncrement(builder: FunctionBuilder, block: nat, v: Operand, next: nat) returns (value: Operand)
    requires block < |builder.blocks| && builder.blocks[block] == Block([], [], None)
    modifies builder
    ensures builder.at == block && builder.regs == old(builder.regs) + 1 && value == Reg(old(builder.regs))
    ensures builder.blocks == old(builder.blocks)[block := Incremented(old(builder.regs), v, next)]
  {
    builder.SetBlock(block);
    value := builder.Create(Add(v, Const(1)));
    builder.Terminate(Br(next));
    assert builder.blocks[block].body == [Instr(old(builder.regs), Add(v, Const(1)))];
  }

  method EmitPhi(builder: FunctionBuilder, v1: Operand, from1: nat, v2: Operand, from2: nat) returns (phi: Operand)
    requires builder.at < |builder.blocks|
    requires builder.blocks[builder.at].term.None? && builder.blocks[builder.at].body == []
    modifies builder`blocks, builder`regs
    ensures phi == Reg(old(builder.regs)) && builder.regs == old(builder.regs) + 1
    ensures var b := old(builder.blocks)[builder.at];
            builder.blocks == old(builder.blocks)[builder.at :=
              b.(phis := b.phis + [Phi(old(builder.regs), [(v1, from1), (v2, from2)])])]
  {
    var k;
    phi, k := builder.CreatePhi();
    builder.AddIncoming(k, v1, from1);
    builder.AddIncoming(k, v2, from2);
    assert [] + [(v1, from1)] + [(v2, from2)] == [(v1, from1), (v2, from2)];
    assert builder.blocks[builder.at].phis
           == old(builder.blocks)[builder.at].phis + [Phi(old(builder.regs), [(v1, from1), (v2, from2)])];
  }

  method EmitDiamond(builder: FunctionBuilder, vars: seq<Operand>, i: nat, ghost b: Built)
    returns (vars': seq<Operand>, current: nat)
    requires builder.Holds(b) && vars == b.vars != [] && b.current < |b.blocks| && b.blocks[b.current].term.None?
    modifies builder
    ensures var b' := AddDiamond(b, i); builder.Holds(b') && vars' == b'.vars && current == b'.current
  {
    var numVars := |vars|;
    var p, t, e := (i / 2 + 2) % numVars, (i / 2) % numVars, (i / 2 + 1) % numVars;
    var thenBlock := builder.CreateBlock();
    var elseBlock := builder.CreateBlock();
    var continuation := builder.CreateBlock();

    EmitTest(builder, vars[p], thenBlock, elseBlock);
    var thenValue := EmitIncrement(builder, thenBlock, vars[t], continuation);
    var elseValue := EmitIncrement(builder, elseBlock, vars[e], continuation);

    builder.SetBlock(continuation);
    current := continuation;
    var thenPhi := EmitPhi(builder, thenValue, thenBlock, vars[t], elseBlock);
    var elsePhi := EmitPhi(builder, elseValue, elseBlock, vars[e], thenBlock);
    vars' := vars[t := thenPhi][e := elsePhi];
    assert builder.blocks[continuation] == DiamondExit(b.regs, vars[t], vars[e], thenBlock);
    assert builder.blocks == AddDiamond(b, i).blocks;
  }

  /** The phis for the index and the sum, with their values on entry to the loop. */
  method EmitLoopPhis(builder: FunctionBuilder, start: Operand, current: nat)
    returns (bodyIndex: Operand, bodySum: Operand, k1: nat, k2: nat)
    requires builder.at < |builder.blocks| && builder.blocks[builder.at] == Block([], [], None)
    modifies builder`blocks, builder`regs
    ensures k1 == 0 && k2 == 1 && builder.regs == old(builder.regs) + 2
    ensures bodyIndex == Reg(old(builder.regs)) && bodySum == Reg(old(builder.regs) + 1)
    ensures builder.blocks == old(builder.blocks)[builder.at := Block(
              [Phi(old(builder.regs), [(start, current)]), Phi(old(builder.regs) + 1, [(Const(0), current)])],
              [], None)]
  {
    bodyIndex, k1 := builder.CreatePhi();
    bodySum, k2 := builder.CreatePhi();
    builder.AddIncoming(k1, start, current);
    builder.AddIncoming(k2, Const(0), current);
    assert [] + [(start, current)] == [(start, current)] && [] + [(Const(0), current)] == [(Const(0), current)];
    assert builder.blocks[builder.at].phis
           == [Phi(old(builder.regs), [(start, current)]), Phi(old(builder.regs) + 1, [(Const(0), current)])];
  }

  /** The loop body: index and sum phis, the masked slot load, the new index and sum, the back edge. */
  method EmitLoopBody(
    builder: FunctionBuilder, block: nat, continuation: nat, start: Operand, current: nat, base: nat, numVars: nat)
    returns (newBodySum: Operand)
    requires block < |builder.blocks| && builder.blocks[block] == Block([], [], None)
    requires continuation == block + 1 && numVars >= 1 && builder.regs >= 1
    modifies builder
    ensures builder.at == block && builder.regs == old(builder.regs) + 11
    ensures newBodySum == Reg(old(builder.regs) + 9)
    ensures builder.blocks == old(builder.blocks)[block :=
              LoopBody(old(builder.regs) - 1, start, current, block, base, numVars)]
  {
    builder.SetBlock(block);
    var bodyIndex, bodySum, k1, k2 := EmitLoopPhis(builder, start, current);
    ghost var r := old(builder.regs) - 1;
    var newBodyIndex := builder.Create(Sub(bodyIndex, Const(1)));
    newBodySum := EmitSlotSum(builder, bodySum, newBodyIndex, base, numVars);
    builder.AddIncoming(k1, newBodyIndex, block);
    builder.AddIncoming(k2, newBodySum, block);
    ghost var whole := LoopBody(r, start, current, block, base, numVars);
    assert [(start, current)] + [(newBodyIndex, block)] == whole.phis[0].incoming;
    assert [(Const(0), current)] + [(newBodySum, block)] == whole.phis[1].incoming;
    assert builder.blocks[block].phis == whole.phis;
    EmitTest(builder, newBodyIndex, block, continuation);
    assert builder.blocks[block].body == whole.body;
  }

  method EmitSlotSum(builder: FunctionBuilder, bodySum: Operand, newBodyIndex: Operand, base: nat, numVars: nat)
    returns (sum: Operand)
    requires builder.at < |builder.blocks| && builder.blocks[builder.at].term.None? && numVars >= 1
    modifies builder`blocks, builder`regs
    ensures builder.regs == old(builder.regs) + 7 && sum == Reg(old(builder.regs) + 6)
    ensures var b, r := old(builder.blocks)[builder.at], old(builder.regs);
            builder.blocks == old(builder.blocks)[builder.at := b.(body := b.body + [
              Instr(r, And(newBodyIndex, Const(numVars - 1))), Instr(r + 1, ZExt(Reg(r))),
              Instr(r + 2, Shl(Reg(r + 1), 2)),
              Instr(r + 3, Add64(Const(base), Reg(r + 2))), Instr(r + 4, IntToPtr(Reg(r + 3))),
              Instr(r + 5, Load(Reg(r + 4))), Instr(r + 6, Add(bodySum, Reg(r + 5)))])]
  {
    var masked := builder.Create(And(newBodyIndex, Const(numVars - 1)));
    var wide := builder.Create(ZExt(masked));
    var offset := builder.Create(Shl(wide, 2));
    var address := builder.Create(Add64(Const(base), offset));
    var ptr := builder.Create(IntToPtr(address));
    var slot := builder.Create(Load(ptr));
    sum := builder.Create(Add(bodySum, slot));
    ghost var b, r := old(builder.blocks)[builder.at], old(builder.regs);
    assert builder.blocks[builder.at].body == b.body + [
             Instr(r, And(newBodyIndex, Const(numVars - 1))), Instr(r + 1, ZExt(Reg(r))),
             Instr(r + 2, Shl(Reg(r + 1), 2)),
             Instr(r + 3, Add64(Const(base), Reg(r + 2))), Instr(r + 4, IntToPtr(Reg(r + 3))),
             Instr(r + 5, Load(Reg(r + 4))), Instr(r + 6, Add(bodySum, Reg(r + 5)))];
  }

  method EmitLoop(builder: FunctionBuilder, vars: seq<Operand>, i: nat, base: nat, ghost b: Built)
    returns (vars': seq<Operand>, current: nat)
    requires builder.Holds(b) && vars == b.vars != [] && b.current < |b.blocks| && b.blocks[b.current].term.None?
    modifies builder
    ensures var b' := AddLoop(b, i, base); builder.Holds(b') && vars' == b'.vars && current == b'.current
  {
    current := builder.at;
    var loopBody := builder.CreateBlock();
    var continuation := builder.CreateBlock();
    var start := vars[(i / 2 + 1) % |vars|];
    EmitTest(builder, start, loopBody, continuation);
    var newBodySum := EmitLoopBody(builder, loopBody, continuation, start, current, base, |vars|);
    builder.SetBlock(continuation);
    var finalSum := EmitPhi(builder, Const(0), current, newBodySum, loopBody);
    current := continuation;
    vars' := vars[(i / 2) % |vars| := finalSum];
    assert builder.blocks[continuation] == LoopExit(b.regs, b.current, loopBody);
    assert builder.blocks == AddLoop(b, i, base).blocks;
  }

  /** Only the block being filled is still open. */
  ghost predicate OneOpen(b: Built) {
    && b.current < |b.blocks|
    && forall k | 0 <= k < |b.blocks| :: b.blocks[k].term.None? <==> k == b.current
  }

  lemma ConstructKeepsOneOpen(b: Built, i: nat, base: nat)
    requires b.vars != [] && OneOpen(b)
    ensures OneOpen(AddConstruct(b, i, base))
  {
  }

  lemma {:induction false} BuildHasOneOpen(base: nat, numVars: nat, n: nat)
    requires numVars >= 1
    ensures OneOpen(Build(base, numVars, n))
    decreases n
  {
    if n > 0 {
      BuildHasOneOpen(base, numVars, n - 1);
      NextHasOneOpen(Build(base, numVars, n - 1), n - 1, base, Build(base, numVars, n));
    }
  }

  lemma NextHasOneOpen(b: Built, i: nat, base: nat, next: Built)
    requires b.vars != [] && OneOpen(b) && next == AddConstruct(b, i, base)
    ensures OneOpen(next)
  {
    ConstructKeepsOneOpen(b, i, base);
  }

  method EmitConstruct(builder: FunctionBuilder, vars: seq<Operand>, i: nat, base: nat, ghost b: Built)
    returns (vars': seq<Operand>, current: nat)
    requires builder.Holds(b) && vars == b.vars != [] && OneOpen(b)
    modifies builder
    ensures var b' := AddConstruct(b, i, base); builder.Holds(b') && vars' == b'.vars && current == b'.current
  {
    if i % 2 == 1 {
      vars', current := EmitDiamond(builder, vars, i, b);
    } else {
      vars', current := EmitLoop(builder, vars, i, base, b);
    }
  }

  /** The IR half of run(): at the head of every iteration the builder is at `current`. */
  method BuildFunction(base: nat, numVars: nat, numConstructs: nat) returns (graph: Graph)
    requires numVars >= 1
    ensures graph == Complex(base, numVars, numConstructs)
  {
    var builder, vars := BuildEntry(base, numVars);
    var current := 0;
    var i := 0;
    ghost var b := Build(base, numVars, 0);
    BuildHasOneOpen(base, numVars, 0);
    while i < numConstructs
      invariant 0 <= i <= numConstructs
      invariant b == Build(base, numVars, i) && b.vars != [] && OneOpen(b)
      invariant builder.Holds(b) && vars == b.vars && current == builder.at
      invariant fresh(builder)
    {
      vars, current := EmitConstruct(builder, vars, i, base, b);
      ConstructKeepsOneOpen(b, i, base);
      b := AddConstruct(b, i, base);
      i := i + 1;
    }
    builder.Terminate(Ret(vars[0]));
    graph := builder.blocks;
  }
}

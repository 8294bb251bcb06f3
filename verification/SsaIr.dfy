/**
 * A small SSA intermediate representation: the instructions that the benchmark generator
 * emits, control-flow graphs with phi nodes, and how such a graph runs.
 */
module SsaIr {
  import opened Wrappers
  import opened Binary

  const TWO_32: nat := 0x1_0000_0000
  const TWO_64: nat := 0x1_0000_0000_0000_0000

  /** A 32-bit integer, as its unsigned value. */
  type Word = x: nat | x < TWO_32

  // ----- syntax -----

  datatype Operand = Const(n: nat) | Reg(id: nat)

  datatype Op =
    | Add(a: Operand, b: Operand)      // 32-bit
    | Sub(a: Operand, b: Operand)      // 32-bit
    | And(a: Operand, b: Operand)      // 32-bit
    | IcmpNe(a: Operand, b: Operand)
    | ZExt(a: Operand)                 // 32 to 64 bits
    | Shl(a: Operand, n: nat)          // 64-bit
    | Add64(a: Operand, b: Operand)
    | IntToPtr(a: Operand)
    | Load(ptr: Operand)               // of a 32-bit integer

  datatype Instr = Instr(dst: nat, op: Op)

  datatype Phi = Phi(dst: nat, incoming: seq<(Operand, nat)>)

  datatype Term = Br(target: nat) | CondBr(cond: Operand, thenBlock: nat, elseBlock: nat) | Ret(v: Operand)

  datatype Block = Block(phis: seq<Phi>, body: seq<Instr>, term: Option<Term>)

  type Graph = seq<Block>

  // ----- arithmetic -----

  function BitAnd(a: nat, b: nat): (r: nat)
    ensures r <= a && r <= b
  {
    if a == 0 || b == 0 then 0
    else 2 * BitAnd(a / 2, b / 2) + if a % 2 == 1 && b % 2 == 1 then 1 else 0
  }

  /** Bitwise and: a bit is set if and only if it is set in both numbers. */
  lemma {:induction false} BitAndBits(a: nat, b: nat, k: nat)
    ensures Bit(BitAnd(a, b), k) <==> Bit(a, k) && Bit(b, k)
    decreases k
  {
    var c := BitAnd(a, b);
    if a == 0 || b == 0 {
      NoBits(k);
    } else if k == 0 {
      LowestBit(a);
      LowestBit(b);
      LowestBit(c);
    } else {
      assert c / 2 == BitAnd(a / 2, b / 2);
      BitOfHalf(a, k);
      BitOfHalf(b, k);
      BitOfHalf(c, k);
      BitAndBits(a / 2, b / 2, k - 1);
    }
  }

  lemma {:induction false} NoBits(k: nat)
    ensures !Bit(0, k)
    decreases k
  {
    if k > 0 {
      BitOfHalf(0, k);
      NoBits(k - 1);
    }
  }

  /** Masking with one less than a power of two is taking the remainder. */
  lemma {:induction false} MaskIsRemainder(x: nat, m: nat)
    ensures BitAnd(x, Pow2(m) - 1) == x % Pow2(m)
    decreases m
  {
    if m > 0 {
      var mask := Pow2(m) - 1;
      assert mask / 2 == Pow2(m - 1) - 1 && mask % 2 == 1;
      MaskIsRemainder(x / 2, m - 1);
      HalveFirst(x, Pow2(m - 1));
      MaskedHalf(x, mask);
    }
  }

  lemma MaskedHalf(x: nat, mask: nat)
    requires mask % 2 == 1
    ensures BitAnd(x, mask) == 2 * BitAnd(x / 2, mask / 2) + x % 2
  {
  }

  /** The sizes of the words. */
  lemma WordSizes()
    ensures TWO_32 == Pow2(32) && TWO_64 == Pow2(64)
  {
    PowBytes();
    PowByteMore(32);
    PowByteMore(40);
    PowByteMore(48);
    PowByteMore(56);
  }

  /** The two's-complement difference of two 32-bit values. */
  function WrapSub(a: nat, b: nat): nat {
    (a + TWO_32 - b % TWO_32) % TWO_32
  }

  // ----- running -----

  type Env = map<nat, nat>

  /** The variable slots, at consecutive addresses four bytes apart. */
  datatype Memory = Memory(base: nat, slots: seq<Word>)

  function Read(mem: Memory, address: nat): Option<nat> {
    if mem.base <= address && (address - mem.base) % 4 == 0 && (address - mem.base) / 4 < |mem.slots| then
      Some(mem.slots[(address - mem.base) / 4])
    else None
  }

  function Value(v: Operand, env: Env): Option<nat> {
    match v
    case Const(n) => Some(n)
    case Reg(id) => if id in env then Some(env[id]) else None
  }

  function Both(a: Option<nat>, b: Option<nat>, f: (nat, nat) -> nat): Option<nat> {
    if a.Some? && b.Some? then Some(f(a.value, b.value)) else None
  }

  function Compute(op: Op, env: Env, mem: Memory): Option<nat> {
    match op
    case Add(a, b) => Both(Value(a, env), Value(b, env), (x, y) => (x + y) % TWO_32)
    case Sub(a, b) => Both(Value(a, env), Value(b, env), (x, y) => WrapSub(x, y))
    case And(a, b) => Both(Value(a, env), Value(b, env), (x, y) => BitAnd(x, y))
    case IcmpNe(a, b) => Both(Value(a, env), Value(b, env), (x, y) => if x != y then 1 else 0)
    case ZExt(a) => Value(a, env)
    case Shl(a, n) => Both(Value(a, env), Some(n), (x, k) => (x * Pow2(k)) % TWO_64)
    case Add64(a, b) => Both(Value(a, env), Value(b, env), (x, y) => (x + y) % TWO_64)
    case IntToPtr(a) => Value(a, env)
    case Load(p) => if Value(p, env).Some? then Read(mem, Value(p, env).value) else None
  }

  /** About to run instruction `pc` of a block, returned, or stopped by an undefined value or bad load. */
  datatype State = At(block: nat, pc: nat, env: Env) | Returned(v: nat) | Stuck

  function IncomingFrom(incoming: seq<(Operand, nat)>, from: nat): Option<Operand> {
    if incoming == [] then None
    else if incoming[0].1 == from then Some(incoming[0].0)
    else IncomingFrom(incoming[1..], from)
  }

  /** All phis of a block read their operands before any of them is written. */
  function RunPhis(phis: seq<Phi>, from: nat, read: Env, written: Env): Option<Env> {
    if phis == [] then Some(written)
    else
      var v := IncomingFrom(phis[0].incoming, from);
      if v.Some? && Value(v.value, read).Some? then
        RunPhis(phis[1..], from, read, written[phis[0].dst := Value(v.value, read).value])
      else None
  }

  /** Two phis that take each other's registers swap them. */
  lemma PhisReadTogether(a: nat, b: nat, from: nat, env: Env)
    requires a != b && a in env && b in env
    ensures RunPhis([Phi(a, [(Reg(b), from)]), Phi(b, [(Reg(a), from)])], from, env, env)
            == Some(env[a := env[b]][b := env[a]])
  {
    var first, second := Phi(a, [(Reg(b), from)]), Phi(b, [(Reg(a), from)]);
    assert [first, second][1..] == [second] && [second][1..] == [];
    var mid := env[a := env[b]];
    assert RunPhis([second], from, env, mid) == Some(mid[b := env[a]]);
  }

  function Enter(g: Graph, target: nat, from: nat, env: Env): State {
    if target < |g| && RunPhis(g[target].phis, from, env, env).Some? then
      At(target, 0, RunPhis(g[target].phis, from, env, env).value)
    else Stuck
  }

  function Step(g: Graph, mem: Memory, s: State): State {
    if !s.At? then s
    else if s.block >= |g| then Stuck
    else
      var b := g[s.block];
      if s.pc < |b.body| then
        var v := Compute(b.body[s.pc].op, s.env, mem);
        if v.Some? then At(s.block, s.pc + 1, s.env[b.body[s.pc].dst := v.value]) else Stuck
      else if b.term.None? then Stuck
      else
        match b.term.value
        case Br(t) => Enter(g, t, s.block, s.env)
        case CondBr(c, t, e) =>
          if Value(c, s.env).Some? then Enter(g, if Value(c, s.env).value != 0 then t else e, s.block, s.env)
          else Stuck
        case Ret(v) => if Value(v, s.env).Some? then Returned(Value(v, s.env).value) else Stuck
  }

  function Run(g: Graph, mem: Memory, s: State, n: nat): State
    decreases n
  {
    if n == 0 then s else Run(g, mem, Step(g, mem, s), n - 1)
  }

  const START: State := At(0, 0, map[])

  ghost predicate Reaches(g: Graph, mem: Memory, s: State, t: State) {
    exists n: nat :: Run(g, mem, s, n) == t
  }

  /** Running the graph from its entry block ends with the value `v`. */
  ghost predicate Returns(g: Graph, mem: Memory, v: nat) {
    Reaches(g, mem, START, Returned(v))
  }

  lemma {:induction false} RunSum(g: Graph, mem: Memory, s: State, m: nat, n: nat)
    ensures Run(g, mem, s, m + n) == Run(g, mem, Run(g, mem, s, m), n)
    decreases m
  {
    if m > 0 {
      RunSum(g, mem, Step(g, mem, s), m - 1, n);
    }
  }

  lemma ReachesTrans(g: Graph, mem: Memory, s: State, t: State, u: State)
    requires Reaches(g, mem, s, t) && Reaches(g, mem, t, u)
    ensures Reaches(g, mem, s, u)
  {
    var m: nat :| Run(g, mem, s, m) == t;
    var n: nat :| Run(g, mem, t, n) == u;
    RunSum(g, mem, s, m, n);
  }

  lemma ReachesStep(g: Graph, mem: Memory, s: State)
    ensures Reaches(g, mem, s, Step(g, mem, s))
  {
    assert Run(g, mem, s, 1) == Run(g, mem, Step(g, mem, s), 0);
  }

  lemma {:induction false} ReturnedStays(g: Graph, mem: Memory, v: nat, n: nat)
    ensures Run(g, mem, Returned(v), n) == Returned(v)
    decreases n
  {
    if n > 0 { ReturnedStays(g, mem, v, n - 1); }
  }

  /** A graph has at most one result. */
  lemma ReturnsOnce(g: Graph, mem: Memory, v: nat, w: nat)
    requires Returns(g, mem, v) && Returns(g, mem, w)
    ensures v == w
  {
    var m: nat :| Run(g, mem, START, m) == Returned(v);
    var n: nat :| Run(g, mem, START, n) == Returned(w);
    if m <= n {
      RunSum(g, mem, START, m, n - m);
      ReturnedStays(g, mem, v, n - m);
    } else {
      RunSum(g, mem, START, n, m - n);
      ReturnedStays(g, mem, w, m - n);
    }
  }

  // ----- control flow -----

  function Successors(b: Block): set<nat> {
    match b.term
    case Some(Br(t)) => {t}
    case Some(CondBr(_, t, e)) => {t, e}
    case _ => {}
  }

  function Predecessors(g: Graph, b: nat): set<nat> {
    set p | 0 <= p < |g| && b in Successors(g[p])
  }

  ghost predicate IsPath(g: Graph, path: seq<nat>) {
    && path != [] && path[0] == 0
    && (forall i | 0 <= i < |path| :: path[i] < |g|)
    && (forall i | 0 <= i < |path| - 1 :: path[i + 1] in Successors(g[path[i]]))
  }

  /** Every path from the entry block to `b` goes through `d`. */
  ghost predicate Dominates(g: Graph, d: nat, b: nat) {
    forall path | IsPath(g, path) && path[|path| - 1] == b :: d in path
  }
}

/**
 * Combining LLVM modules into one: attribute bodies and metadata of all modules are interned in
 * two common tables, and the numbers in each function body and declaration are rewritten to them.
 * Here: the lines of a module, and what reading and resolving them keeps, whatever the lines.
 */
module ModuleCombiner {
  import opened Wrappers
  import opened MetaDataResolver

  datatype Kind = Hash | Bang

  /** A piece of a body: text, or a reference `#n` to attributes or `!n` to metadata. */
  datatype Piece = Text(text: string) | Reference(kind: Kind, number: nat)

  /** What a metadata line holds. */
  datatype Shape =
    | Named(name: string)
    | Child(name: string, parent: nat)
    | Weights(weights: seq<string>)
    | Pair(a: string, b: string)

  datatype Line =
    | Declare(declaration: seq<Piece>)
    | Meta(index: nat, shape: Shape)
    | Attributes(number: nat, body: string)
    | Other

  datatype Module = Module(body: seq<Piece>, lines: seq<Line>)

  /** The body of the last attributes line with the number. */
  function AttributeBody(lines: seq<Line>, n: nat): Option<string> {
    if lines == [] then None
    else
      var last := lines[|lines| - 1];
      if last.Attributes? && last.number == n then Some(last.body) else AttributeBody(lines[..|lines| - 1], n)
  }

  /** Of several lines with one number the last counts, and other lines do not. */
  lemma LastBodyCounts(lines: seq<Line>, l: Line, n: nat)
    ensures l.Attributes? && l.number == n ==> AttributeBody(lines + [l], n) == Some(l.body)
    ensures !(l.Attributes? && l.number == n) ==> AttributeBody(lines + [l], n) == AttributeBody(lines, n)
  {
    assert (lines + [l])[..|lines|] == lines;
  }

  /** Some metadata line has the number. */
  ghost predicate HasLine(lines: seq<Line>, n: nat) {
    exists l :: l in lines && l.Meta? && l.index == n
  }

  // ----- reading -----

  function Joined(parts: seq<string>): string {
    if parts == [] then "" else parts[0] + Joined(parts[1..])
  }

  /** The key under which the combined table stores a line. */
  function Key(shape: Shape): string {
    match shape
    case Named(name) => name
    case Child(name, _) => name
    case Weights(weights) => "branch_weights" + Joined(weights)
    case Pair(a, b) => a + b
  }

  /** Weights share a key if and only if they read the same when written without a gap. */
  lemma WeightsShareKeyExactly(v: seq<string>, w: seq<string>)
    ensures Key(Weights(v)) == Key(Weights(w)) <==> Joined(v) == Joined(w)
    ensures Key(Weights(w)) == Key(Named("branch_weights" + Joined(w)))
  {
    SamePrefix("branch_weights", Joined(v), Joined(w));
  }

  lemma SamePrefix(prefix: string, a: string, b: string)
    ensures prefix + a == prefix + b <==> a == b
  {
    assert (prefix + a)[|prefix|..] == a && (prefix + b)[|prefix|..] == b;
  }

  /** Pairs share a key if and only if they do too, and a pair then shares it with a name. */
  lemma PairsShareKeyExactly(a: string, b: string, c: string, d: string)
    ensures Key(Pair(a, b)) == Key(Pair(c, d)) <==> Joined([a, b]) == Joined([c, d])
    ensures Key(Pair(a, b)) == Key(Named(Joined([a, b])))
  {
    JoinedPair(a, b);
    JoinedPair(c, d);
  }

  lemma JoinedPair(a: string, b: string)
    ensures Joined([a, b]) == a + b
  {
    assert [a, b][1..] == [b] && [b][1..] == [];
    assert Joined([b]) == b + "" == b;
  }

  /** A name has one key, with and without a parent. */
  lemma NamesShareKeyExactly(a: string, b: string, parent: nat)
    ensures Key(Named(a)) == Key(Child(b, parent)) <==> a == b
  {
  }

  /** The entry made for a line without a parent. */
  function LeafEntry(index: nat, shape: Shape): MetaData
    requires !shape.Child?
  {
    match shape
    case Named(name) => MetaData(index, Some(name), None, None)
    case Weights(weights) => MetaData(index, Some("branch_weights"), None, Some(weights))
    case Pair(a, b) => MetaData(index, None, None, Some([a, b]))
  }

  function AddLeaf(meta: Table, shape: Shape): Table
    requires !shape.Child?
  {
    if Key(shape) in meta then meta else meta[Key(shape) := LeafEntry(|meta|, shape)]
  }

  function Waiting(l: Line): Unresolved
    requires l.Meta? && l.shape.Child?
  {
    Unresolved(l.index, l.shape.name, l.shape.parent)
  }

  function LeafStep(s: State, l: Line): State
    requires l.Meta? && !l.shape.Child?
  {
    var meta := AddLeaf(s.meta, l.shape);
    State(meta, s.numbers[l.index := meta[Key(l.shape)].index], s.waiting)
  }

  function ReadStep(s: State, l: Line): State {
    if !l.Meta? then s
    else if l.shape.Child? then s.(waiting := s.waiting + [Waiting(l)])
    else LeafStep(s, l)
  }

  /** The state after reading the lines of a module onto a table. */
  function ReadAll(lines: seq<Line>, base: Table): State {
    if lines == [] then State(base, map[], [])
    else ReadStep(ReadAll(lines[..|lines| - 1], base), lines[|lines| - 1])
  }

  /** The lines that name a parent, first to last. */
  function Children(lines: seq<Line>): seq<Unresolved> {
    if lines == [] then []
    else (if lines[0].Meta? && lines[0].shape.Child? then [Waiting(lines[0])] else []) + Children(lines[1..])
  }

  lemma {:induction false} ChildrenExtend(lines: seq<Line>, l: Line)
    ensures Children(lines + [l]) == Children(lines) + Children([l])
    decreases |lines|
  {
    if lines == [] {
      assert lines + [l] == [l];
    } else {
      assert (lines + [l])[0] == lines[0] && (lines + [l])[1..] == lines[1..] + [l];
      ChildrenExtend(lines[1..], l);
    }
  }

  /** After reading, exactly the lines with a parent wait, in their order. */
  lemma {:induction false} ChildrenWaitInOrder(lines: seq<Line>, base: Table)
    ensures ReadAll(lines, base).waiting == Children(lines)
    decreases |lines|
  {
    if lines != [] {
      var init, last := lines[..|lines| - 1], lines[|lines| - 1];
      ChildrenWaitInOrder(init, base);
      ChildrenExtend(init, last);
      assert lines == init + [last] && [last][1..] == [];
    }
  }

  // ----- what every module keeps -----

  /** The module's number for the line names the entry stored under the line's key. */
  predicate Mapped(l: Line, meta: Table, numbers: map<nat, nat>)
    requires l.Meta?
  {
    l.index in numbers && Key(l.shape) in meta && numbers[l.index] == meta[Key(l.shape)].index
  }

  /** The number names the entry of one of its lines. */
  ghost predicate NumberFrom(n: nat, lines: seq<Line>, meta: Table, numbers: map<nat, nat>) {
    exists l :: l in lines && l.Meta? && l.index == n && Mapped(l, meta, numbers)
  }

  ghost predicate NumbersFrom(lines: seq<Line>, meta: Table, numbers: map<nat, nat>) {
    forall n | n in numbers :: NumberFrom(n, lines, meta, numbers)
  }

  /** Every line has its number or waits, and only lines wait. */
  ghost predicate Accounted(lines: seq<Line>, s: State) {
    && (forall l | l in lines && l.Meta? :: l.index in s.numbers || (l.shape.Child? && Waiting(l) in s.waiting))
    && (forall m | m in s.waiting :: Meta(m.index, Child(m.name, m.parent)) in lines)
  }

  /** What holds after reading some lines of any module onto `base`, and all through resolving. */
  ghost predicate Sound(lines: seq<Line>, base: Table, s: State) {
    && Dense(s.meta) && Numbered(s.meta, s.numbers) && Grows(base, s.meta)
    && NumbersFrom(lines, s.meta, s.numbers) && Accounted(lines, s)
  }

  /** The step gives the line its number, and an entry if there is none under its key. */
  ghost predicate Numbers(l: Line, s: State, t: State) {
    && l.Meta? && t.meta.Keys == s.meta.Keys + {Key(l.shape)}
    && Dense(t.meta) && Grows(s.meta, t.meta) && |s.meta| <= |t.meta|
    && t.numbers == s.numbers[l.index := t.meta[Key(l.shape)].index]
  }

  lemma GrowsTrans(a: Table, b: Table, c: Table)
    requires Grows(a, b) && Grows(b, c)
    ensures Grows(a, c)
  {
    forall k | k in a ensures k in c && c[k] == a[k] { assert k in b && b[k] == a[k]; }
  }

  lemma NumberFromStays(n: nat, lines: seq<Line>, more: seq<Line>, a: Table, p: map<nat, nat>,
                        b: Table, q: map<nat, nat>)
    requires NumberFrom(n, lines, a, p) && Grows(a, b) && n in p && n in q && q[n] == p[n]
    requires forall l | l in lines :: l in more
    ensures NumberFrom(n, more, b, q)
  {
    var l :| l in lines && l.Meta? && l.index == n && Mapped(l, a, p);
    assert l in more && Mapped(l, b, q);
  }

  lemma NumberingKeepsNumbers(lines: seq<Line>, more: seq<Line>, l: Line, s: State, t: State)
    requires NumbersFrom(lines, s.meta, s.numbers) && l in more && Numbers(l, s, t)
    requires forall e | e in lines :: e in more
    ensures NumbersFrom(more, t.meta, t.numbers)
  {
    forall n | n in t.numbers ensures NumberFrom(n, more, t.meta, t.numbers) {
      if n == l.index {
        assert Mapped(l, t.meta, t.numbers);
      } else {
        NumberFromStays(n, lines, more, s.meta, s.numbers, t.meta, t.numbers);
      }
    }
  }

  lemma NumberingKeepsAccounted(lines: seq<Line>, more: seq<Line>, l: Line, s: State, t: State)
    requires Accounted(lines, s) && l.Meta? && t.numbers.Keys == s.numbers.Keys + {l.index}
    requires (forall e | e in lines :: e in more) && (forall e | e in more :: e in lines || e == l)
    requires forall m | m in s.waiting :: m in t.waiting || (l.shape.Child? && m == Waiting(l))
    requires forall m | m in t.waiting :: m in s.waiting
    ensures Accounted(more, t)
  {
  }

  /** One line given its number: the step common to reading and resolving. */
  lemma NumberingKeepsSound(lines: seq<Line>, more: seq<Line>, base: Table, l: Line, s: State, t: State)
    requires Sound(lines, base, s) && l in more && Numbers(l, s, t)
    requires (forall e | e in lines :: e in more) && (forall e | e in more :: e in lines || e == l)
    requires forall m | m in s.waiting :: m in t.waiting || (l.shape.Child? && m == Waiting(l))
    requires forall m | m in t.waiting :: m in s.waiting
    ensures Sound(more, base, t)
  {
    NumberingKeepsTable(base, l, s, t);
    NumberingKeepsNumbers(lines, more, l, s, t);
    NumberingKeepsAccounted(lines, more, l, s, t);
    SoundParts(more, base, t);
  }

  lemma SoundParts(lines: seq<Line>, base: Table, s: State)
    requires Dense(s.meta) && Numbered(s.meta, s.numbers) && Grows(base, s.meta)
    requires NumbersFrom(lines, s.meta, s.numbers) && Accounted(lines, s)
    ensures Sound(lines, base, s)
  {
  }

  lemma NumberingKeepsTable(base: Table, l: Line, s: State, t: State)
    requires Numbered(s.meta, s.numbers) && Grows(base, s.meta) && Numbers(l, s, t)
    ensures Dense(t.meta) && Numbered(t.meta, t.numbers) && Grows(base, t.meta)
    ensures t.numbers.Keys == s.numbers.Keys + {l.index}
  {
    GrowsTrans(base, s.meta, t.meta);
    NumberAdded(s.numbers, l.index, t.numbers, |s.meta|, |t.meta|);
  }

  lemma NumberAdded(numbers: map<nat, nat>, n: nat, more: map<nat, nat>, size: nat, grown: nat)
    requires (forall i | i in numbers :: numbers[i] < size) && size <= grown
    requires n in more && more == numbers[n := more[n]] && more[n] < grown
    ensures (forall i | i in more :: more[i] < grown) && more.Keys == numbers.Keys + {n}
  {
  }

  lemma MoreLinesKeepSound(lines: seq<Line>, base: Table, l: Line, s: State)
    requires Sound(lines, base, s) && (l.Meta? ==> l.shape.Child?)
    ensures Sound(lines + [l], base, ReadStep(s, l))
  {
    var more, t := lines + [l], ReadStep(s, l);
    forall n | n in t.numbers ensures NumberFrom(n, more, t.meta, t.numbers) {
      NumberFromStays(n, lines, more, s.meta, s.numbers, t.meta, t.numbers);
    }
    forall e | e in more && e.Meta? ensures e.index in t.numbers || (e.shape.Child? && Waiting(e) in t.waiting) {
      if e in lines { assert e.index in s.numbers || (e.shape.Child? && Waiting(e) in s.waiting); }
    }
  }

  lemma LeafTable(meta: Table, shape: Shape)
    requires !shape.Child? && Dense(meta)
    ensures var m := AddLeaf(meta, shape);
            Dense(m) && Grows(meta, m) && |meta| <= |m| && m.Keys == meta.Keys + {Key(shape)}
  {
    if Key(shape) !in meta {
      AddEntry(meta, Key(shape), LeafEntry(|meta|, shape));
    }
  }

  lemma LeafNumbers(l: Line, s: State)
    requires l.Meta? && !l.shape.Child? && Dense(s.meta)
    ensures Numbers(l, s, LeafStep(s, l))
  {
    LeafTable(s.meta, l.shape);
  }

  /** Reading any line keeps indices dense, entries and other lines' numbers, and loses no line. */
  lemma ReadKeepsSound(lines: seq<Line>, base: Table, l: Line, s: State)
    requires Sound(lines, base, s)
    ensures Sound(lines + [l], base, ReadStep(s, l))
  {
    if l.Meta? && !l.shape.Child? {
      LeafNumbers(l, s);
      NumberingKeepsSound(lines, lines + [l], base, l, s, LeafStep(s, l));
    } else {
      MoreLinesKeepSound(lines, base, l, s);
    }
  }

  lemma {:induction false} ReadAllSound(lines: seq<Line>, base: Table)
    requires Dense(base)
    ensures Sound(lines, base, ReadAll(lines, base))
    decreases |lines|
  {
    if lines != [] {
      var init, last := lines[..|lines| - 1], lines[|lines| - 1];
      ReadAllSound(init, base);
      ReadKeepsSound(init, base, last, ReadAll(init, base));
      assert lines == init + [last];
    }
  }

  lemma ResolveNumbers(l: Line, s: State, i: nat)
    requires i < |s.waiting| && Resolvable(s, s.waiting[i]) && Dense(s.meta) && Numbered(s.meta, s.numbers)
    requires l == Meta(s.waiting[i].index, Child(s.waiting[i].name, s.waiting[i].parent))
    ensures Numbers(l, s, Resolve(s, i))
  {
    ResolveKeepsTable(s, i);
    ResolveGivesNumber(s, i);
  }

  lemma ResolveGivesNumber(s: State, i: nat)
    requires i < |s.waiting| && Resolvable(s, s.waiting[i])
    ensures var m, t := s.waiting[i], Resolve(s, i);
            m.name in t.meta && t.numbers == s.numbers[m.index := t.meta[m.name].index]
  {
  }

  /** Resolving any waiting entry keeps the same. */
  lemma ResolveKeepsSound(lines: seq<Line>, base: Table, s: State, i: nat)
    requires Sound(lines, base, s) && i < |s.waiting| && Resolvable(s, s.waiting[i])
    ensures Sound(lines, base, Resolve(s, i))
  {
    var m := s.waiting[i];
    var l := Meta(m.index, Child(m.name, m.parent));
    assert m in s.waiting;
    ResolveNumbers(l, s, i);
    SwapPopElements(s.waiting, i);
    NumberingKeepsSound(lines, lines, base, l, s, Resolve(s, i));
  }

  lemma PassesKeepSound(lines: seq<Line>, base: Table, s: State, n: nat)
    requires Sound(lines, base, s)
    ensures Sound(lines, base, Passes(s, n))
  {
    var inv := (t: State) => Sound(lines, base, t);
    forall t: State, i: nat | i < |t.waiting| && Resolvable(t, t.waiting[i]) && inv(t) ensures inv(Resolve(t, i)) {
      ResolveKeepsSound(lines, base, t, i);
    }
    PassesKeep(inv, s, n);
  }

  // ----- several modules -----

  /** The state after reading and resolving a module on a table. */
  function AfterModule(m: Module, base: Table): State {
    Resolved(ReadAll(m.lines, base))
  }

  /** The metadata table after some modules. */
  function TableAfter(modules: seq<Module>): Table {
    if modules == [] then map[]
    else AfterModule(modules[|modules| - 1], TableAfter(modules[..|modules| - 1])).meta
  }

  /** The table numbers of module `j`'s metadata. */
  function NumbersOf(modules: seq<Module>, j: nat): map<nat, nat>
    requires j < |modules|
  {
    AfterModule(modules[j], TableAfter(modules[..j])).numbers
  }

  /** The resolver's loop ends for module `j`. */
  ghost predicate Ends(modules: seq<Module>, j: nat)
    requires j < |modules|
  {
    WellFounded(ReadAll(modules[j].lines, TableAfter(modules[..j])))
  }

  lemma AfterModuleSound(m: Module, base: Table)
    requires Dense(base)
    ensures Sound(m.lines, base, AfterModule(m, base))
  {
    ReadAllSound(m.lines, base);
    var s := ReadAll(m.lines, base);
    PassesKeepSound(m.lines, base, s, |s.waiting|);
  }

  /** After any modules the table's indices are 0..n-1, each used once. */
  lemma {:induction false} TableIsDense(modules: seq<Module>)
    ensures Dense(TableAfter(modules))
    decreases |modules|
  {
    if modules != [] {
      TableIsDense(modules[..|modules| - 1]);
      AfterModuleSound(modules[|modules| - 1], TableAfter(modules[..|modules| - 1]));
    }
  }

  /** Entries never move: the table of the first modules is part of the table of all. */
  lemma {:induction false} TableGrows(modules: seq<Module>, j: nat)
    requires j <= |modules|
    ensures Grows(TableAfter(modules[..j]), TableAfter(modules))
    decreases |modules| - j
  {
    if j == |modules| {
      assert modules[..j] == modules;
    } else {
      var base := TableAfter(modules[..j]);
      TableIsDense(modules[..j]);
      AfterModuleSound(modules[j], base);
      assert modules[..j + 1][..j] == modules[..j];
      TableGrows(modules, j + 1);
      GrowsTrans(base, TableAfter(modules[..j + 1]), TableAfter(modules));
    }
  }

  /** Every number of a module names, in the final table, the entry of one of the number's lines. */
  lemma NumbersStay(modules: seq<Module>, j: nat, n: nat)
    requires j < |modules| && n in NumbersOf(modules, j)
    ensures NumberFrom(n, modules[j].lines, TableAfter(modules), NumbersOf(modules, j))
  {
    var base, numbers := TableAfter(modules[..j]), NumbersOf(modules, j);
    TableIsDense(modules[..j]);
    AfterModuleSound(modules[j], base);
    assert modules[..j + 1][..j] == modules[..j];
    TableGrows(modules, j + 1);
    NumberFromStays(n, modules[j].lines, modules[j].lines, AfterModule(modules[j], base).meta, numbers,
                    TableAfter(modules), numbers);
  }

  // ----- when parents stay below their children -----

  ghost predicate NamesItself(lines: seq<Line>) {
    exists l :: l in lines && l.Meta? && l.shape.Child? && l.shape.parent == l.index
  }

  lemma {:induction false} ReadAllOrdered(lines: seq<Line>, base: Table)
    requires Dense(base) && Ordered(base)
    ensures Ordered(ReadAll(lines, base).meta)
    decreases |lines|
  {
    if lines != [] { ReadAllOrdered(lines[..|lines| - 1], base); }
  }

  lemma AfterModuleOrdered(m: Module, base: Table)
    requires Dense(base) && Ordered(base) && !NamesItself(m.lines)
    ensures Ordered(AfterModule(m, base).meta)
  {
    var s := ReadAll(m.lines, base);
    ReadAllSound(m.lines, base);
    ReadAllOrdered(m.lines, base);
    forall u | u in s.waiting ensures !SelfParent(s, u) {
      assert Meta(u.index, Child(u.name, u.parent)) in m.lines;
    }
    PassesKeepOrder(s, |s.waiting|);
  }

  /** If no line names itself as its parent, every parent in the table stands below its child. */
  lemma {:induction false} TableIsOrdered(modules: seq<Module>)
    requires forall m | m in modules :: !NamesItself(m.lines)
    ensures Ordered(TableAfter(modules))
    decreases |modules|
  {
    if modules != [] {
      var init, last := modules[..|modules| - 1], modules[|modules| - 1];
      TableIsDense(init);
      TableIsOrdered(init);
      assert last in modules;
      AfterModuleOrdered(last, TableAfter(init));
    }
  }

  function SelfNamed(): Module {
    Module([], [Meta(1, Named("b")), Meta(1, Child("a", 1))])
  }

  /** A number given twice, the second time with itself as parent, is entered as its own parent. */
  lemma SelfNamedIsNotOrdered()
    ensures var meta := TableAfter([SelfNamed()]); "a" in meta && meta["a"].parent == Some(meta["a"].index)
  {
    var lines := SelfNamed().lines;
    var read := State(map["b" := MetaData(0, Some("b"), None, None)], map[1 := 0], [Unresolved(1, "a", 1)]);
    assert lines[..1][..0] == [];
    assert ReadAll(lines[..0], map[]) == State(map[], map[], []);
    assert lines[..1][..0] == lines[..0];
    assert ReadAll(lines[..1], map[]) == LeafStep(State(map[], map[], []), lines[0]);
    assert ReadAll(lines, map[]) == read;
    assert [SelfNamed()][..0] == [];
    assert TableAfter([SelfNamed()]) == Resolved(read).meta;
    assert Passes(read, 1) == Passes(PassFrom(read, 0), 0) == PassFrom(read, 0);
    assert PassFrom(read, 0) == PassFrom(Resolve(read, 0), 0) == Resolve(read, 0);
  }
}

/** What the metadata numbers of one module mean, and what reading and resolving keep of it. */
module ModuleMeaning {
  import opened Wrappers
  import opened MetaDataResolver
  import opened ModuleCombiner

  /** Metadata with its chain of parents written out. */
  datatype Node = Node(name: Option<string>, val: Option<seq<string>>, parent: Option<Node>)

  type Meanings = map<nat, Node>

  function Depth(n: Node): nat {
    if n.parent.None? then 0 else 1 + Depth(n.parent.value)
  }

  function Leaf(shape: Shape): Node
    requires !shape.Child?
  {
    match shape
    case Named(name) => Node(Some(name), None, None)
    case Weights(weights) => Node(Some("branch_weights"), Some(weights), None)
    case Pair(a, b) => Node(None, Some([a, b]), None)
  }

  /** `den` gives each metadata number of the module its meaning. */
  ghost predicate Denotes(lines: seq<Line>, den: Meanings) {
    && (forall l | l in lines && l.Meta? :: LineDenotes(l, den))
    && (forall n {:trigger HasLine(lines, n)} | n in den :: HasLine(lines, n))
  }

  ghost predicate LineDenotes(l: Line, den: Meanings)
    requires l.Meta?
  {
    && l.index in den
    && (if l.shape.Child? then
          l.shape.parent in den && den[l.index] == Node(Some(l.shape.name), None, Some(den[l.shape.parent]))
        else
          den[l.index] == Leaf(l.shape))
  }

  /** A meaning decides the key. */
  function NodeKey(n: Node): string {
    if n.val.None? then (if n.name.Some? then n.name.value else "")
    else if n.name.Some? then n.name.value + Joined(n.val.value)
    else Joined(n.val.value)
  }

  lemma MeaningDecidesKey(l: Line, den: Meanings)
    requires l.Meta? && LineDenotes(l, den)
    ensures NodeKey(den[l.index]) == Key(l.shape)
  {
    if l.shape.Pair? {
      assert [l.shape.a, l.shape.b][1..] == [l.shape.b];
      assert Joined([l.shape.b]) == l.shape.b + "";
      assert Joined([l.shape.a, l.shape.b]) == l.shape.a + Joined([l.shape.b]);
    }
  }

  lemma ParentIsAnother(lines: seq<Line>, den: Meanings, l: Line)
    requires l.Meta? && l.shape.Child? && l in lines && Denotes(lines, den)
    ensures l.shape.parent != l.index
  {
    assert LineDenotes(l, den);
    assert Depth(den[l.index]) == 1 + Depth(den[l.shape.parent]);
  }

  /** A line with a meaning never names itself as its parent. */
  lemma MeaningfulNamesNoSelf(lines: seq<Line>, den: Meanings)
    requires Denotes(lines, den)
    ensures !NamesItself(lines)
  {
    forall l | l in lines && l.Meta? && l.shape.Child? ensures l.shape.parent != l.index {
      ParentIsAnother(lines, den, l);
    }
  }

  // ----- what reading and resolving keep -----

  /** The entry says what the line says, its parent renumbered. */
  predicate Holds(entry: MetaData, l: Line, numbers: map<nat, nat>)
    requires l.Meta?
  {
    if l.shape.Child? then
      && l.shape.parent in numbers && entry.name == Some(l.shape.name) && entry.val == None
      && entry.parent == Some(numbers[l.shape.parent])
    else
      entry.name == Leaf(l.shape).name && entry.val == Leaf(l.shape).val && entry.parent == None
  }

  ghost predicate ComesFrom(key: string, entry: MetaData, lines: seq<Line>, numbers: map<nat, nat>) {
    exists l :: l in lines && l.Meta? && Key(l.shape) == key && Holds(entry, l, numbers)
  }

  /** Every line is numbered by its key's entry or waits, and every new entry says what a line says. */
  ghost predicate Meant(lines: seq<Line>, base: Table, s: State) {
    && AllMeant(lines, s)
    && (forall k | k in s.meta && k !in base :: ComesFrom(k, s.meta[k], lines, s.numbers))
  }

  /** Numbers already given out keep their value. */
  predicate Stable(a: map<nat, nat>, b: map<nat, nat>) {
    forall n | n in a :: n in b && b[n] == a[n]
  }

  /** Numbering a line again gives the same number: its meaning decides its key. */
  lemma RenumberIsStable(lines: seq<Line>, den: Meanings, l: Line, s: State, meta: Table)
    requires l.Meta? && Denotes(lines, den) && l in lines && Grows(s.meta, meta) && Key(l.shape) in meta
    requires l.index in s.numbers ==> NumberFrom(l.index, lines, s.meta, s.numbers)
    ensures Stable(s.numbers, s.numbers[l.index := meta[Key(l.shape)].index])
  {
    if l.index in s.numbers {
      var e :| e in lines && e.Meta? && e.index == l.index && Mapped(e, s.meta, s.numbers);
      MeaningDecidesKey(e, den);
      MeaningDecidesKey(l, den);
    }
  }

  lemma ComesFromStays(key: string, entry: MetaData, lines: seq<Line>, more: seq<Line>,
                       a: map<nat, nat>, b: map<nat, nat>)
    requires ComesFrom(key, entry, lines, a) && Stable(a, b) && (forall l | l in lines :: l in more)
    ensures ComesFrom(key, entry, more, b)
  {
    var l :| l in lines && l.Meta? && Key(l.shape) == key && Holds(entry, l, a);
    assert l in more && Holds(entry, l, b);
  }

  lemma MappedStays(l: Line, s: State, t: State)
    requires l.Meta? && Mapped(l, s.meta, s.numbers) && Grows(s.meta, t.meta) && Stable(s.numbers, t.numbers)
    ensures Mapped(l, t.meta, t.numbers)
  {
  }

  /** Every line is numbered by its key's entry or waits. */
  ghost predicate AllMeant(lines: seq<Line>, s: State) {
    forall l | l in lines && l.Meta? :: Mapped(l, s.meta, s.numbers) || (l.shape.Child? && Waiting(l) in s.waiting)
  }

  lemma NumberingKeepsAllMeant(lines: seq<Line>, more: seq<Line>, l: Line, s: State, t: State)
    requires AllMeant(lines, s) && Numbers(l, s, t) && Stable(s.numbers, t.numbers)
    requires forall e | e in more :: e in lines || e == l
    requires forall m | m in s.waiting :: m in t.waiting || (l.shape.Child? && m == Waiting(l))
    ensures AllMeant(more, t)
  {
    forall e | e in more && e.Meta?
      ensures Mapped(e, t.meta, t.numbers) || (e.shape.Child? && Waiting(e) in t.waiting)
    {
      if e != l && Mapped(e, s.meta, s.numbers) { MappedStays(e, s, t); }
    }
  }

  lemma NumberingKeepsMeant(lines: seq<Line>, more: seq<Line>, base: Table, l: Line, s: State, t: State)
    requires Meant(lines, base, s) && l in more && Numbers(l, s, t) && Stable(s.numbers, t.numbers)
    requires (forall e | e in lines :: e in more) && (forall e | e in more :: e in lines || e == l)
    requires Key(l.shape) in s.meta || Holds(t.meta[Key(l.shape)], l, t.numbers)
    requires forall m | m in s.waiting :: m in t.waiting || (l.shape.Child? && m == Waiting(l))
    ensures Meant(more, base, t)
  {
    NumberingKeepsAllMeant(lines, more, l, s, t);
    forall k | k in t.meta && k !in base ensures ComesFrom(k, t.meta[k], more, t.numbers) {
      if k in s.meta { ComesFromStays(k, s.meta[k], lines, more, s.numbers, t.numbers); }
    }
  }

  lemma MoreLinesKeepMeant(lines: seq<Line>, base: Table, l: Line, s: State)
    requires Meant(lines, base, s) && (l.Meta? ==> l.shape.Child?)
    ensures Meant(lines + [l], base, ReadStep(s, l))
  {
    var more, t := lines + [l], ReadStep(s, l);
    forall e | e in more && e.Meta?
      ensures Mapped(e, t.meta, t.numbers) || (e.shape.Child? && Waiting(e) in t.waiting)
    {
      if e in lines { assert Mapped(e, s.meta, s.numbers) || (e.shape.Child? && Waiting(e) in s.waiting); }
    }
    forall k | k in t.meta && k !in base ensures ComesFrom(k, t.meta[k], more, t.numbers) {
      ComesFromStays(k, s.meta[k], lines, more, s.numbers, t.numbers);
    }
  }

  lemma NumberFromMore(n: nat, lines: seq<Line>, more: seq<Line>, s: State)
    requires NumbersFrom(lines, s.meta, s.numbers) && n in s.numbers && forall e | e in lines :: e in more
    ensures NumberFrom(n, more, s.meta, s.numbers)
  {
    NumberFromStays(n, lines, more, s.meta, s.numbers, s.meta, s.numbers);
  }

  lemma LeafKeepsMeant(all: seq<Line>, den: Meanings, lines: seq<Line>, base: Table, l: Line, s: State, t: State)
    requires l in all && Denotes(all, den) && (forall e | e in lines :: e in all) && l.Meta?
    requires l.index in s.numbers ==> NumberFrom(l.index, all, s.meta, s.numbers)
    requires Meant(lines, base, s) && Numbers(l, s, t) && t.waiting == s.waiting
    requires Key(l.shape) in s.meta || Holds(t.meta[Key(l.shape)], l, t.numbers)
    ensures Meant(lines + [l], base, t)
  {
    RenumberIsStable(all, den, l, s, t.meta);
    NumberingKeepsMeant(lines, lines + [l], base, l, s, t);
  }

  lemma LeafHolds(l: Line, s: State)
    requires l.Meta? && !l.shape.Child?
    ensures var t := LeafStep(s, l); Key(l.shape) in s.meta || Holds(t.meta[Key(l.shape)], l, t.numbers)
  {
  }

  /** Reading a line of a module with meanings. */
  lemma ReadKeepsMeant(all: seq<Line>, den: Meanings, lines: seq<Line>, base: Table, l: Line, s: State)
    requires l in all && Denotes(all, den) && (forall e | e in lines :: e in all)
    requires Dense(s.meta) && NumbersFrom(lines, s.meta, s.numbers) && Meant(lines, base, s)
    ensures Meant(lines + [l], base, ReadStep(s, l))
  {
    if l.Meta? && !l.shape.Child? {
      if l.index in s.numbers { NumberFromMore(l.index, lines, all, s); }
      LeafNumbers(l, s);
      LeafHolds(l, s);
      LeafKeepsMeant(all, den, lines, base, l, s, LeafStep(s, l));
    } else {
      MoreLinesKeepMeant(lines, base, l, s);
    }
  }

  lemma {:induction false} ReadAllMeant(all: seq<Line>, den: Meanings, lines: seq<Line>, base: Table)
    requires Denotes(all, den) && (forall e | e in lines :: e in all) && Dense(base)
    ensures Meant(lines, base, ReadAll(lines, base))
    decreases |lines|
  {
    if lines != [] {
      var init, last := lines[..|lines| - 1], lines[|lines| - 1];
      ReadAllMeant(all, den, init, base);
      ReadAllSound(init, base);
      ReadKeepsMeant(all, den, init, base, last, ReadAll(init, base));
      assert lines == init + [last];
    }
  }

  lemma ResolvedHolds(l: Line, s: State, i: nat)
    requires i < |s.waiting| && Resolvable(s, s.waiting[i])
    requires l == Meta(s.waiting[i].index, Child(s.waiting[i].name, s.waiting[i].parent))
    ensures var t := Resolve(s, i); l.shape.name in s.meta || Holds(t.meta[l.shape.name], l, t.numbers)
  {
  }

  /** Resolving a waiting entry of a module with meanings. */
  lemma ResolveKeepsMeant(lines: seq<Line>, den: Meanings, base: Table, s: State, i: nat)
    requires Denotes(lines, den) && Sound(lines, base, s) && Meant(lines, base, s)
    requires i < |s.waiting| && Resolvable(s, s.waiting[i])
    ensures Meant(lines, base, Resolve(s, i))
  {
    var m, t := s.waiting[i], Resolve(s, i);
    var l := Meta(m.index, Child(m.name, m.parent));
    assert m in s.waiting;
    ResolveNumbers(l, s, i);
    RenumberIsStable(lines, den, l, s, t.meta);
    ResolvedHolds(l, s, i);
    SwapPopElements(s.waiting, i);
    NumberingKeepsMeant(lines, lines, base, l, s, t);
  }

  lemma PassesKeepMeant(lines: seq<Line>, den: Meanings, base: Table, s: State, n: nat)
    requires Denotes(lines, den) && Sound(lines, base, s) && Meant(lines, base, s)
    ensures Meant(lines, base, Passes(s, n))
  {
    var inv := (t: State) => Sound(lines, base, t) && Meant(lines, base, t);
    forall t: State, i: nat | i < |t.waiting| && Resolvable(t, t.waiting[i]) && inv(t) ensures inv(Resolve(t, i)) {
      ResolveKeepsSound(lines, base, t, i);
      ResolveKeepsMeant(lines, den, base, t, i);
    }
    PassesKeep(inv, s, n);
  }

  // ----- the resolver ends -----

  function RankIn(den: Meanings): Unresolved -> nat {
    (m: Unresolved) => if m.index in den then Depth(den[m.index]) else 0
  }

  lemma ParentWaitsOrIsKnown(lines: seq<Line>, den: Meanings, s: State, m: Unresolved)
    requires Denotes(lines, den) && Accounted(lines, s) && m in s.waiting
    ensures Resolvable(s, m) || HasLowerParent(s, RankIn(den), m)
  {
    var rank := RankIn(den);
    var l := Meta(m.index, Child(m.name, m.parent));
    assert l in lines && LineDenotes(l, den);
    assert HasLine(lines, m.parent);
    var p :| p in lines && p.Meta? && p.index == m.parent;
    assert p.index in s.numbers || (p.shape.Child? && Waiting(p) in s.waiting);
    if p.shape.Child? && Waiting(p) in s.waiting {
      assert rank(Waiting(p)) < rank(m);
    }
  }

  lemma MeaningRanks(lines: seq<Line>, den: Meanings, s: State)
    requires Denotes(lines, den) && Accounted(lines, s)
    ensures Ranked(s, RankIn(den))
  {
    forall m | m in s.waiting ensures Resolvable(s, m) || HasLowerParent(s, RankIn(den), m) {
      ParentWaitsOrIsKnown(lines, den, s, m);
    }
  }

  /** In a module whose metadata has a meaning, the resolver's loop ends, on any table. */
  lemma MeaningfulModulesResolve(lines: seq<Line>, den: Meanings, base: Table)
    requires Denotes(lines, den) && Dense(base)
    ensures WellFounded(ReadAll(lines, base))
  {
    var s := ReadAll(lines, base);
    ReadAllSound(lines, base);
    MeaningRanks(lines, den, s);
    AcyclicChainsResolve(s, RankIn(den));
  }

  function KnownChild(): Module {
    Module([], [Meta(0, Child("a", 7))])
  }

  /** A meaning is not needed: an entry whose name is known resolves although its parent is undefined. */
  lemma KnownNameResolves(base: Table)
    requires "a" in base
    ensures WellFounded(ReadAll(KnownChild().lines, base))
    ensures forall den :: !Denotes(KnownChild().lines, den)
  {
    var lines := KnownChild().lines;
    var l := Meta(0, Child("a", 7));
    assert lines[..0] == [] && lines[0] == l;
    assert ReadAll(lines, base) == State(base, map[], [] + [Unresolved(0, "a", 7)]);
    assert l in lines && !HasLine(lines, 7);
    forall den ensures !Denotes(lines, den) {
      assert Denotes(lines, den) ==> LineDenotes(l, den);
    }
  }

  /** After a module with meanings: all lines mapped, every entry from a line. */
  lemma AfterModuleMeant(m: Module, den: Meanings, base: Table)
    requires Denotes(m.lines, den) && Dense(base)
    ensures AfterModule(m, base).waiting == [] && Meant(m.lines, base, AfterModule(m, base))
  {
    var s := ReadAll(m.lines, base);
    ReadAllSound(m.lines, base);
    ReadAllMeant(m.lines, den, m.lines, base);
    PassesKeepMeant(m.lines, den, base, s, |s.waiting|);
    MeaningfulModulesResolve(m.lines, den, base);
    ResolvedExactly(s);
  }
}

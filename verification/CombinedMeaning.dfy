/** What the numbers of the combined module mean, against what they meant in the modules combined. */
module CombinedMeaning {
  import opened Wrappers
  import opened MetaDataResolver
  import opened ModuleCombiner
  import opened ModuleMeaning

  // ----- metadata -----

  /** The tables after combining: every line numbered by its key's entry, every entry from some line. */
  ghost predicate Combined(modules: seq<Module>, meta: Table, numbers: seq<map<nat, nat>>) {
    && |numbers| == |modules| && Dense(meta) && Ordered(meta)
    && (forall j | 0 <= j < |modules| :: AllMapped(modules[j].lines, meta, numbers[j]))
    && (forall k | k in meta :: FromSome(k, meta[k], modules, numbers))
  }

  ghost predicate AllMapped(lines: seq<Line>, meta: Table, numbers: map<nat, nat>) {
    forall l | l in lines && l.Meta? :: Mapped(l, meta, numbers)
  }

  ghost predicate FromSome(key: string, entry: MetaData, modules: seq<Module>, numbers: seq<map<nat, nat>>)
    requires |numbers| == |modules|
  {
    exists j :: 0 <= j < |modules| && ComesFrom(key, entry, modules[j].lines, numbers[j])
  }

  ghost predicate HasEntry(meta: Table, i: nat) {
    exists k :: k in meta && meta[k].index == i
  }

  /** The meaning of `!i` in the combined module, its chain of parents written out. */
  ghost function MeaningAt(meta: Table, i: nat): Option<Node> {
    if HasEntry(meta, i) then
      var k :| k in meta && meta[k].index == i;
      Some(Node(meta[k].name, meta[k].val,
                if meta[k].parent.Some? && meta[k].parent.value < i then MeaningAt(meta, meta[k].parent.value)
                else None))
    else None
  }

  ghost predicate AllDenote(modules: seq<Module>, dens: seq<Meanings>) {
    |dens| == |modules| && forall j | 0 <= j < |modules| :: Denotes(modules[j].lines, dens[j])
  }

  /** Every metadata number of every module means in the combined module what it meant in its own. */
  ghost predicate MeaningKept(modules: seq<Module>, dens: seq<Meanings>, meta: Table, numbers: seq<map<nat, nat>>)
    requires AllDenote(modules, dens) && Combined(modules, meta, numbers)
  {
    forall j, l | 0 <= j < |modules| && l in modules[j].lines && l.Meta? :: LineKept(l, dens[j], meta, numbers[j])
  }

  ghost predicate LineKept(l: Line, den: Meanings, meta: Table, numbers: map<nat, nat>)
    requires l.Meta?
  {
    NumberKept(l.index, den, meta, numbers)
  }

  ghost predicate NumberKept(n: nat, den: Meanings, meta: Table, numbers: map<nat, nat>) {
    n in numbers && n in den && MeaningAt(meta, numbers[n]) == Some(den[n])
  }

  /** Lines stored under one key mean the same, within a module and across modules. */
  ghost predicate KeysSeparate(modules: seq<Module>, dens: seq<Meanings>)
    requires AllDenote(modules, dens)
  {
    forall j, l, i, e | 0 <= j < |modules| && l in modules[j].lines && l.Meta?
                        && 0 <= i < |modules| && e in modules[i].lines && e.Meta? ::
      SameUnderKey(l, dens[j], e, dens[i])
  }

  ghost predicate SameUnderKey(l: Line, den: Meanings, e: Line, den': Meanings)
    requires l.Meta? && e.Meta?
  {
    Key(l.shape) == Key(e.shape) ==> l.index in den && e.index in den' && den[l.index] == den'[e.index]
  }

  lemma KeptImpliesSeparate(modules: seq<Module>, dens: seq<Meanings>, meta: Table, numbers: seq<map<nat, nat>>)
    requires AllDenote(modules, dens) && Combined(modules, meta, numbers) && MeaningKept(modules, dens, meta, numbers)
    ensures KeysSeparate(modules, dens)
  {
    forall j, l, i, e | 0 <= j < |modules| && l in modules[j].lines && l.Meta?
                        && 0 <= i < |modules| && e in modules[i].lines && e.Meta?
      ensures SameUnderKey(l, dens[j], e, dens[i])
    {
      assert LineKept(l, dens[j], meta, numbers[j]) && LineKept(e, dens[i], meta, numbers[i]);
      LineHasNumber(modules, meta, numbers, j, l);
      LineHasNumber(modules, meta, numbers, i, e);
    }
  }

  /** The meaning of an entry, found from its key. */
  lemma MeaningOfKey(meta: Table, k: string)
    requires Dense(meta) && Ordered(meta) && k in meta
    ensures MeaningAt(meta, meta[k].index) == Some(Node(meta[k].name, meta[k].val,
              if meta[k].parent.Some? then MeaningAt(meta, meta[k].parent.value) else None))
  {
    assert HasEntry(meta, meta[k].index);
  }

  /** An entry that holds what a line says means what the line means, if its parent is kept. */
  lemma OriginKept(meta: Table, k: string, lines: seq<Line>, den: Meanings, l: Line, numbers: map<nat, nat>)
    requires Dense(meta) && Ordered(meta) && k in meta
    requires l in lines && l.Meta? && Denotes(lines, den) && Holds(meta[k], l, numbers)
    requires l.shape.Child? ==> NumberKept(l.shape.parent, den, meta, numbers)
    ensures MeaningAt(meta, meta[k].index) == Some(den[l.index])
  {
    MeaningOfKey(meta, k);
    assert LineDenotes(l, den);
  }

  /** The line from which the entry of a key comes. */
  lemma OriginOf(modules: seq<Module>, meta: Table, numbers: seq<map<nat, nat>>, k: string) returns (i: nat, e: Line)
    requires Combined(modules, meta, numbers) && k in meta
    ensures i < |modules| && e in modules[i].lines && e.Meta? && Key(e.shape) == k && Holds(meta[k], e, numbers[i])
  {
    assert FromSome(k, meta[k], modules, numbers);
    i :| 0 <= i < |modules| && ComesFrom(k, meta[k], modules[i].lines, numbers[i]);
    e :| e in modules[i].lines && e.Meta? && Key(e.shape) == k && Holds(meta[k], e, numbers[i]);
  }

  lemma SameMeaning(modules: seq<Module>, dens: seq<Meanings>, j: nat, l: Line, i: nat, e: Line)
    requires AllDenote(modules, dens) && KeysSeparate(modules, dens)
    requires j < |modules| && l in modules[j].lines && l.Meta? && i < |modules| && e in modules[i].lines && e.Meta?
    requires Key(l.shape) == Key(e.shape)
    ensures l.index in dens[j] && e.index in dens[i] && dens[j][l.index] == dens[i][e.index]
  {
    assert SameUnderKey(l, dens[j], e, dens[i]);
  }

  lemma {:induction false} LineIsKept(
    modules: seq<Module>, dens: seq<Meanings>, meta: Table, numbers: seq<map<nat, nat>>, j: nat, l: Line)
    requires AllDenote(modules, dens) && Combined(modules, meta, numbers) && KeysSeparate(modules, dens)
    requires j < |modules| && l in modules[j].lines && l.Meta? && l.index in numbers[j]
    ensures LineKept(l, dens[j], meta, numbers[j])
    decreases numbers[j][l.index]
  {
    var k := Key(l.shape);
    assert Mapped(l, meta, numbers[j]);
    var i, e := OriginOf(modules, meta, numbers, k);
    SameMeaning(modules, dens, j, l, i, e);
    if e.shape.Child? {
      var p := ParentLine(modules[i].lines, dens[i], e);
      assert numbers[i][p.index] < meta[k].index;
      LineIsKept(modules, dens, meta, numbers, i, p);
    }
    OriginKept(meta, k, modules[i].lines, dens[i], e, numbers[i]);
  }

  lemma ParentLine(lines: seq<Line>, den: Meanings, e: Line) returns (p: Line)
    requires Denotes(lines, den) && e in lines && e.Meta? && e.shape.Child?
    ensures p in lines && p.Meta? && p.index == e.shape.parent
  {
    assert LineDenotes(e, den);
    assert HasLine(lines, e.shape.parent);
    p :| p in lines && p.Meta? && p.index == e.shape.parent;
  }

  lemma KeptIffSeparate(modules: seq<Module>, dens: seq<Meanings>, meta: Table, numbers: seq<map<nat, nat>>)
    requires AllDenote(modules, dens) && Combined(modules, meta, numbers)
    ensures MeaningKept(modules, dens, meta, numbers) <==> KeysSeparate(modules, dens)
  {
    if MeaningKept(modules, dens, meta, numbers) {
      KeptImpliesSeparate(modules, dens, meta, numbers);
    }
    if KeysSeparate(modules, dens) {
      SeparateImpliesKept(modules, dens, meta, numbers);
    }
  }

  lemma SeparateImpliesKept(modules: seq<Module>, dens: seq<Meanings>, meta: Table, numbers: seq<map<nat, nat>>)
    requires AllDenote(modules, dens) && Combined(modules, meta, numbers) && KeysSeparate(modules, dens)
    ensures MeaningKept(modules, dens, meta, numbers)
  {
    forall j, l | 0 <= j < |modules| && l in modules[j].lines && l.Meta?
      ensures LineKept(l, dens[j], meta, numbers[j])
    {
      LineHasNumber(modules, meta, numbers, j, l);
      LineIsKept(modules, dens, meta, numbers, j, l);
    }
  }

  lemma LineHasNumber(modules: seq<Module>, meta: Table, numbers: seq<map<nat, nat>>, j: nat, l: Line)
    requires Combined(modules, meta, numbers) && j < |modules| && l in modules[j].lines && l.Meta?
    ensures Mapped(l, meta, numbers[j])
  {
  }

  // ----- the tables that the program makes -----

  function AllNumbers(modules: seq<Module>): (r: seq<map<nat, nat>>)
    ensures |r| == |modules|
  {
    seq(|modules|, j requires 0 <= j < |modules| => NumbersOf(modules, j))
  }

  lemma MappedGrows(lines: seq<Line>, a: Table, b: Table, numbers: map<nat, nat>)
    requires AllMapped(lines, a, numbers) && Grows(a, b)
    ensures AllMapped(lines, b, numbers)
  {
    forall l | l in lines && l.Meta? ensures Mapped(l, b, numbers) { assert Mapped(l, a, numbers); }
  }

  lemma FromSomeOfMore(k: string, entry: MetaData, modules: seq<Module>, numbers: seq<map<nat, nat>>,
                       m: Module, own: map<nat, nat>)
    requires |numbers| == |modules|
    requires FromSome(k, entry, modules, numbers) || ComesFrom(k, entry, m.lines, own)
    ensures FromSome(k, entry, modules + [m], numbers + [own])
  {
    var ms, ns := modules + [m], numbers + [own];
    if FromSome(k, entry, modules, numbers) {
      var j :| 0 <= j < |modules| && ComesFrom(k, entry, modules[j].lines, numbers[j]);
      assert ComesFrom(k, entry, ms[j].lines, ns[j]);
    } else {
      assert ComesFrom(k, entry, ms[|modules|].lines, ns[|modules|]);
    }
  }

  /** One more module combined onto the tables of the others. */
  lemma CombinedExtends(modules: seq<Module>, meta: Table, numbers: seq<map<nat, nat>>, m: Module, s: State)
    requires Combined(modules, meta, numbers) && Meant(m.lines, meta, s) && s.waiting == []
    requires Dense(s.meta) && Ordered(s.meta) && Grows(meta, s.meta)
    ensures Combined(modules + [m], s.meta, numbers + [s.numbers])
  {
    var ms, ns := modules + [m], numbers + [s.numbers];
    forall j | 0 <= j < |ms| ensures AllMapped(ms[j].lines, s.meta, ns[j]) {
      if j < |modules| { MappedGrows(modules[j].lines, meta, s.meta, numbers[j]); }
    }
    forall k | k in s.meta ensures FromSome(k, s.meta[k], ms, ns) {
      FromSomeOfMore(k, s.meta[k], modules, numbers, m, s.numbers);
    }
  }

  lemma AllNumbersExtend(init: seq<Module>, m: Module)
    ensures AllNumbers(init + [m]) == AllNumbers(init) + [AfterModule(m, TableAfter(init)).numbers]
  {
    var modules := init + [m];
    forall j | 0 <= j < |modules|
      ensures NumbersOf(modules, j) == (AllNumbers(init) + [AfterModule(m, TableAfter(init)).numbers])[j]
    {
      assert modules[..j] == if j < |init| then init[..j] else init;
    }
  }

  lemma {:induction false} ProgramCombines(modules: seq<Module>, dens: seq<Meanings>)
    requires AllDenote(modules, dens)
    ensures Combined(modules, TableAfter(modules), AllNumbers(modules))
    decreases |modules|
  {
    if modules != [] {
      var n := |modules| - 1;
      var init, m := modules[..n], modules[n];
      assert modules == init + [m];
      ProgramCombines(init, dens[..n]);
      var base := TableAfter(init);
      assert Denotes(m.lines, dens[n]);
      AfterModuleSound(m, base);
      AfterModuleMeant(m, dens[n], base);
      MeaningfulNamesNoSelf(m.lines, dens[n]);
      AfterModuleOrdered(m, base);
      CombinedExtends(init, base, AllNumbers(init), m, AfterModule(m, base));
      AllNumbersExtend(init, m);
    }
  }

  /** Metadata keeps its meaning if and only if no key is shared by lines that mean different things. */
  lemma MetaDataKeptExactly(modules: seq<Module>, dens: seq<Meanings>)
    requires AllDenote(modules, dens)
    ensures Combined(modules, TableAfter(modules), AllNumbers(modules))
    ensures MeaningKept(modules, dens, TableAfter(modules), AllNumbers(modules)) <==> KeysSeparate(modules, dens)
  {
    ProgramCombines(modules, dens);
    KeptIffSeparate(modules, dens, TableAfter(modules), AllNumbers(modules));
  }

  lemma SharedKeyLosesMeaning(modules: seq<Module>, dens: seq<Meanings>, j: nat, l: Line, i: nat, e: Line)
    requires AllDenote(modules, dens)
    requires j < |modules| && l in modules[j].lines && l.Meta? && i < |modules| && e in modules[i].lines && e.Meta?
    requires !SameUnderKey(l, dens[j], e, dens[i])
    ensures Combined(modules, TableAfter(modules), AllNumbers(modules))
    ensures !MeaningKept(modules, dens, TableAfter(modules), AllNumbers(modules))
  {
    MetaDataKeptExactly(modules, dens);
  }

  function SplitWeights(): Module {
    Module([], [Meta(0, Weights(["1", "23"])), Meta(1, Weights(["12", "3"]))])
  }

  function SplitMeanings(): Meanings {
    map[0 := Leaf(Weights(["1", "23"])), 1 := Leaf(Weights(["12", "3"]))]
  }

  lemma SplitWeightsShareKey()
    ensures Key(Weights(["1", "23"])) == Key(Weights(["12", "3"]))
  {
    assert ["1", "23"][1..] == ["23"] && ["12", "3"][1..] == ["3"];
    assert Joined(["23"]) == "23" && Joined(["3"]) == "3";
    assert Joined(["1", "23"]) == "1" + "23" == "123";
    assert Joined(["12", "3"]) == "12" + "3" == "123";
  }

  /** Branch weights 1, 23 and 12, 3 share a key, so one of the two loses its meaning. */
  lemma BranchWeightsCanMerge()
    ensures AllDenote([SplitWeights()], [SplitMeanings()])
    ensures Combined([SplitWeights()], TableAfter([SplitWeights()]), AllNumbers([SplitWeights()]))
    ensures !MeaningKept([SplitWeights()], [SplitMeanings()],
                         TableAfter([SplitWeights()]), AllNumbers([SplitWeights()]))
  {
    var a, b := Meta(0, Weights(["1", "23"])), Meta(1, Weights(["12", "3"]));
    var modules, dens := [SplitWeights()], [SplitMeanings()];
    assert modules[0].lines == [a, b];
    assert a in modules[0].lines && b in modules[0].lines;
    assert Denotes(modules[0].lines, dens[0]);
    SplitWeightsShareKey();
    assert ["1", "23"][0] != ["12", "3"][0];
    SharedKeyLosesMeaning(modules, dens, 0, a, 0, b);
  }

  // ----- references -----

  /** `printed` is `pieces` with the references renumbered; attribute references name the same body as before. */
  ghost predicate Faithful(pieces: seq<Piece>, printed: seq<Piece>, lines: seq<Line>, attributes: seq<string>,
                           numbers: map<nat, nat>) {
    && |printed| == |pieces|
    && (forall k | 0 <= k < |pieces| :: PieceFaithful(pieces[k], printed[k], lines, attributes, numbers))
  }

  predicate PieceFaithful(piece: Piece, printed: Piece, lines: seq<Line>, attributes: seq<string>,
                          numbers: map<nat, nat>) {
    match piece
    case Text(_) => printed == piece
    case Reference(Hash, n) =>
      && printed.Reference? && printed.kind == Hash && printed.number < |attributes|
      && AttributeBody(lines, n) == Some(attributes[printed.number])
    case Reference(Bang, n) => n in numbers && printed == Reference(Bang, numbers[n])
  }

  /** The module defines what the piece refers to. */
  ghost predicate Defined(piece: Piece, lines: seq<Line>) {
    match piece
    case Text(_) => true
    case Reference(Hash, n) => AttributeBody(lines, n).Some?
    case Reference(Bang, n) => HasLine(lines, n)
  }

  ghost predicate AllDefined(pieces: seq<Piece>, lines: seq<Line>) {
    forall p | p in pieces :: Defined(p, lines)
  }

  lemma FaithfulGrows(pieces: seq<Piece>, printed: seq<Piece>, lines: seq<Line>, a: seq<string>, b: seq<string>,
                      numbers: map<nat, nat>)
    requires Faithful(pieces, printed, lines, a, numbers) && a <= b
    ensures Faithful(pieces, printed, lines, b, numbers)
  {
    forall k | 0 <= k < |pieces| ensures PieceFaithful(pieces[k], printed[k], lines, b, numbers) {
      assert PieceFaithful(pieces[k], printed[k], lines, a, numbers);
    }
  }
}

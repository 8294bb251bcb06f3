/** The combining program: its tables, the reading of one module, and the loop over all modules. */
module CombinerObjects {
  import opened Wrappers
  import opened Numerals
  import opened MetaDataResolver
  import opened ModuleCombiner
  import opened CombinedMeaning

  /** The result, or the end of the program on an undefined reference, or no end of the resolver's loop. */
  datatype Outcome<+T> = Done(value: T) | Raised | Diverged

  // ----- attributes -----

  /** The attribute table holds each body once, and the back map is its inverse. */
  ghost predicate Interned(attributes: seq<string>, backMap: map<string, nat>) {
    && (forall b | b in backMap :: backMap[b] < |attributes| && attributes[backMap[b]] == b)
    && (forall i | 0 <= i < |attributes| :: attributes[i] in backMap && backMap[attributes[i]] == i)
  }

  /** The module's attribute numbers name, in the table, the bodies that the lines gave them. */
  ghost predicate AttributesMapped(lines: seq<Line>, attributes: seq<string>, numbers: map<nat, nat>) {
    && (forall n | n in numbers :: numbers[n] < |attributes| && AttributeBody(lines, n) == Some(attributes[numbers[n]]))
    && (forall n | AttributeBody(lines, n).Some? :: n in numbers)
  }

  /** The attributes line has been given the number of its body; other lines change nothing. */
  ghost predicate AttributeRead(l: Line, attributes: seq<string>, numbers: map<nat, nat>, more: map<nat, nat>) {
    if l.Attributes? then
      && l.number in more && more[l.number] < |attributes| && attributes[more[l.number]] == l.body
      && more == numbers[l.number := more[l.number]]
    else
      more == numbers
  }

  lemma AttributesMappedExtends(lines: seq<Line>, l: Line, a: seq<string>, b: seq<string>,
                                numbers: map<nat, nat>, more: map<nat, nat>)
    requires AttributesMapped(lines, a, numbers) && a <= b && AttributeRead(l, b, numbers, more)
    ensures AttributesMapped(lines + [l], b, more)
  {
    forall n: nat
      ensures AttributeBody(lines + [l], n)
              == if l.Attributes? && l.number == n then Some(l.body) else AttributeBody(lines, n)
    {
      LastBodyCounts(lines, l, n);
    }
  }

  // ----- keys and declarations -----

  lemma {:induction false} JoinedExtends(parts: seq<string>, s: string)
    ensures Joined(parts + [s]) == Joined(parts) + s
    decreases |parts|
  {
    if parts == [] {
      assert ([] + [s])[1..] == [];
    } else {
      assert (parts + [s])[1..] == parts[1..] + [s];
      JoinedExtends(parts[1..], s);
    }
  }

  /** The key of a branch-weights line. */
  method JoinWeights(weights: seq<string>) returns (name: string)
    ensures name == Key(Weights(weights))
  {
    name := "branch_weights";
    for i := 0 to |weights|
      invariant name == "branch_weights" + Joined(weights[..i])
    {
      assert weights[..i + 1] == weights[..i] + [weights[i]];
      JoinedExtends(weights[..i], weights[i]);
      name := name + weights[i];
    }
    assert weights[..|weights|] == weights;
  }

  function Declared(lines: seq<Line>): seq<seq<Piece>> {
    if lines == [] then []
    else
      var last := lines[|lines| - 1];
      Declared(lines[..|lines| - 1]) + if last.Declare? then [last.declaration] else []
  }

  /** What is declared is what the declaring lines hold. */
  lemma {:induction false} DeclaredExactly(lines: seq<Line>, d: seq<Piece>)
    ensures d in Declared(lines) <==> Declare(d) in lines
    decreases |lines|
  {
    if lines != [] {
      DeclaredExactly(lines[..|lines| - 1], d);
      assert lines == lines[..|lines| - 1] + [lines[|lines| - 1]];
    }
  }

  lemma ReadExtends(lines: seq<Line>, i: nat, base: Table, a: seq<string>, b: seq<string>,
                    numbers: map<nat, nat>, more: map<nat, nat>)
    requires i < |lines| && AttributesMapped(lines[..i], a, numbers) && a <= b
    requires AttributeRead(lines[i], b, numbers, more)
    ensures ReadAll(lines[..i + 1], base) == ReadStep(ReadAll(lines[..i], base), lines[i])
    ensures AttributesMapped(lines[..i + 1], b, more)
    ensures Declared(lines[..i + 1]) == Declared(lines[..i]) + if lines[i].Declare? then [lines[i].declaration] else []
  {
    assert lines[..i + 1] == lines[..i] + [lines[i]];
    assert lines[..i + 1][..i] == lines[..i];
    AttributesMappedExtends(lines[..i], lines[i], a, b, numbers, more);
  }

  // ----- references -----

  /** What is printed for a piece, if its reference is in the maps. */
  function Remapped(piece: Piece, attributeMap: map<nat, nat>, metaDataMap: map<nat, nat>): Option<Piece> {
    match piece
    case Text(_) => Some(piece)
    case Reference(Hash, n) => if n in attributeMap then Some(Reference(Hash, attributeMap[n])) else None
    case Reference(Bang, n) => if n in metaDataMap then Some(Reference(Bang, metaDataMap[n])) else None
  }

  lemma NumberedExactly(n: nat, lines: seq<Line>, base: Table, s: State)
    requires Sound(lines, base, s) && s.waiting == []
    ensures n in s.numbers <==> HasLine(lines, n)
  {
    if HasLine(lines, n) {
      var l :| l in lines && l.Meta? && l.index == n;
    }
    if n in s.numbers {
      assert NumberFrom(n, lines, s.meta, s.numbers);
    }
  }

  lemma RemappedIsFaithful(p: Piece, lines: seq<Line>, attributes: seq<string>, attributeMap: map<nat, nat>,
                           base: Table, s: State)
    requires AttributesMapped(lines, attributes, attributeMap) && Sound(lines, base, s) && s.waiting == []
    ensures Remapped(p, attributeMap, s.numbers).Some? <==> Defined(p, lines)
    ensures Remapped(p, attributeMap, s.numbers).Some?
            ==> PieceFaithful(p, Remapped(p, attributeMap, s.numbers).value, lines, attributes, s.numbers)
  {
    if p.Reference? { NumberedExactly(p.number, lines, base, s); }
  }

  /** All the references of a module are to attributes and metadata that it defines. */
  ghost predicate Closed(m: Module) {
    AllDefined(m.body, m.lines) && forall d | d in Declared(m.lines) :: AllDefined(d, m.lines)
  }

  /** The text of a piece and of a list of pieces. */
  function Rendered(p: Piece): string {
    match p
    case Text(text) => text
    case Reference(kind, number) => (if kind == Hash then "#" else "!") + Decimal(number)
  }

  /** The reference that a text spells: the number sign for attributes, the exclamation mark for metadata. */
  function ReadReference(s: string): Option<Piece> {
    if s == "" then None
    else
      match s[0]
      case '#' => Some(Reference(Hash, DigitsValue(s[1..])))
      case '!' => Some(Reference(Bang, DigitsValue(s[1..])))
      case _ => None
  }

  /** The text of a reference gives its kind and number back. */
  lemma ReferenceReadsBack(kind: Kind, number: nat)
    ensures ReadReference(Rendered(Reference(kind, number))) == Some(Reference(kind, number))
  {
    assert Rendered(Reference(kind, number))[1..] == Decimal(number);
    DecimalReadsBack(number);
  }

  function RenderedAll(pieces: seq<Piece>): string {
    if pieces == [] then "" else RenderedAll(pieces[..|pieces| - 1]) + Rendered(pieces[|pieces| - 1])
  }

  /** The text of pieces one after another is their texts one after another. */
  lemma {:induction false} RenderedInOrder(a: seq<Piece>, b: seq<Piece>)
    ensures RenderedAll(a + b) == RenderedAll(a) + RenderedAll(b)
    decreases |b|
  {
    if b == [] {
      assert a + b == a;
    } else {
      var init, last := b[..|b| - 1], b[|b| - 1];
      RenderedInOrder(a, init);
      LastOfBoth(a, b, init, last);
      RenderedLast(a + b, a + init, last);
      RenderedLast(b, init, last);
      Regrouped(RenderedAll(a), RenderedAll(init), Rendered(last));
    }
  }

  lemma LastOfBoth<T>(a: seq<T>, b: seq<T>, init: seq<T>, last: T)
    requires b != [] && init == b[..|b| - 1] && last == b[|b| - 1]
    ensures b == init + [last] && a + b == (a + init) + [last]
  {
  }

  lemma RenderedLast(pieces: seq<Piece>, init: seq<Piece>, last: Piece)
    requires pieces == init + [last]
    ensures RenderedAll(pieces) == RenderedAll(init) + Rendered(last)
  {
    assert pieces[..|pieces| - 1] == init;
  }

  lemma Regrouped(a: string, b: string, c: string)
    ensures (a + b) + c == a + (b + c)
  {
  }

  lemma RenderedText(text: string, kind: Kind, number: nat)
    ensures RenderedAll([Text(text)]) == text
    ensures RenderedAll([Reference(kind, number)]) == Rendered(Reference(kind, number))
  {
    assert [Text(text)][..0] == [] && [Reference(kind, number)][..0] == [];
  }

  /** The declaration is in the list of texts, renumbered. */
  ghost predicate Emitted(d: seq<Piece>, texts: seq<string>, lines: seq<Line>, attributes: seq<string>,
                          numbers: map<nat, nat>) {
    exists p :: Faithful(d, p, lines, attributes, numbers) && RenderedAll(p) in texts
  }

  ghost predicate AllEmitted(m: Module, texts: seq<string>, attributes: seq<string>, numbers: map<nat, nat>) {
    forall d | d in Declared(m.lines) :: Emitted(d, texts, m.lines, attributes, numbers)
  }

  ghost predicate Distinct<T>(s: seq<T>) {
    forall i, j | 0 <= i < j < |s| :: s[i] != s[j]
  }

  lemma EmittedGrows(d: seq<Piece>, ds: seq<string>, es: seq<string>, lines: seq<Line>, a: seq<string>, b: seq<string>,
                     numbers: map<nat, nat>)
    requires Emitted(d, ds, lines, a, numbers) && ds <= es && a <= b
    ensures Emitted(d, es, lines, b, numbers)
  {
    var p :| Faithful(d, p, lines, a, numbers) && RenderedAll(p) in ds;
    FaithfulGrows(d, p, lines, a, b, numbers);
    assert RenderedAll(p) in es;
  }

  lemma AllEmittedGrows(m: Module, ds: seq<string>, es: seq<string>, a: seq<string>, b: seq<string>,
                        numbers: map<nat, nat>)
    requires AllEmitted(m, ds, a, numbers) && ds <= es && a <= b
    ensures AllEmitted(m, es, b, numbers)
  {
    forall d | d in Declared(m.lines) ensures Emitted(d, es, m.lines, b, numbers) {
      EmittedGrows(d, ds, es, m.lines, a, b, numbers);
    }
  }

  /** The first `n` declarations refer to what is defined, and are in the list of texts. */
  ghost predicate FirstEmitted(ds: seq<seq<Piece>>, n: nat, texts: seq<string>, lines: seq<Line>,
                               attributes: seq<string>, numbers: map<nat, nat>)
    requires n <= |ds|
  {
    forall i | 0 <= i < n :: AllDefined(ds[i], lines) && Emitted(ds[i], texts, lines, attributes, numbers)
  }

  lemma FirstEmittedExtends(ds: seq<seq<Piece>>, n: nat, was: seq<string>, texts: seq<string>, lines: seq<Line>,
                            attributes: seq<string>, numbers: map<nat, nat>)
    requires n < |ds| && FirstEmitted(ds, n, was, lines, attributes, numbers) && was <= texts
    requires AllDefined(ds[n], lines) && Emitted(ds[n], texts, lines, attributes, numbers)
    ensures FirstEmitted(ds, n + 1, texts, lines, attributes, numbers)
  {
    forall i | 0 <= i < n + 1 ensures AllDefined(ds[i], lines) && Emitted(ds[i], texts, lines, attributes, numbers) {
      if i < n { EmittedGrows(ds[i], was, texts, lines, attributes, attributes, numbers); }
    }
  }

  /** The text of a list of pieces, put together piece by piece. */
  method JoinPieces(pieces: seq<Piece>) returns (text: string)
    ensures text == RenderedAll(pieces)
  {
    text := "";
    for i := 0 to |pieces|
      invariant text == RenderedAll(pieces[..i])
    {
      assert pieces[..i + 1][..i] == pieces[..i];
      text := text + Rendered(pieces[i]);
    }
    assert pieces[..|pieces|] == pieces;
  }

  // ----- the program -----

  class Combiner {
    var attributes: seq<string>
    var attributesBackMap: map<string, nat>
    var metaData: Table
    var declarations: seq<string>
    // Of the module being read.
    var attributeMap: map<nat, nat>
    var metaDataMap: map<nat, nat>
    var unresolvedMetaData: seq<Unresolved>
    var ownDeclarations: seq<seq<Piece>>

    constructor ()
      ensures attributes == [] && metaData == map[] && declarations == [] && Interned(attributes, attributesBackMap)
    {
      attributes, attributesBackMap, metaData, declarations := [], map[], map[], [];
      attributeMap, metaDataMap, unresolvedMetaData, ownDeclarations := map[], map[], [], [];
    }

    function Metas(): State
      reads this
    {
      State(metaData, metaDataMap, unresolvedMetaData)
    }

    method ReadAttributes(number: nat, body: string)
      requires Interned(attributes, attributesBackMap)
      modifies this`attributes, this`attributesBackMap, this`attributeMap
      ensures Interned(attributes, attributesBackMap)
      ensures attributes == if body in old(attributes) then old(attributes) else old(attributes) + [body]
      ensures AttributeRead(Attributes(number, body), attributes, old(attributeMap), attributeMap)
    {
      if body in attributesBackMap {
        attributeMap := attributeMap[number := attributesBackMap[body]];
        assert attributes[attributesBackMap[body]] == body;
      } else {
        attributeMap := attributeMap[number := |attributes|];
        attributesBackMap := attributesBackMap[body := |attributes|];
        attributes := attributes + [body];
        assert attributes[|attributes| - 1] == body;
      }
    }

    method ReadMetaData(index: nat, shape: Shape)
      modifies this`metaData, this`metaDataMap, this`unresolvedMetaData
      ensures Metas() == ReadStep(old(Metas()), Meta(index, shape))
    {
      match shape
      case Child(name, parent) =>
        unresolvedMetaData := unresolvedMetaData + [Unresolved(index, name, parent)];
      case Named(name) =>
        if name !in metaData {
          metaData := metaData[name := MetaData(|metaData|, Some(name), None, None)];
        }
        metaDataMap := metaDataMap[index := metaData[name].index];
      case Weights(weights) =>
        var name := JoinWeights(weights);
        if name !in metaData {
          metaData := metaData[name := MetaData(|metaData|, Some("branch_weights"), None, Some(weights))];
        }
        metaDataMap := metaDataMap[index := metaData[name].index];
      case Pair(a, b) =>
        if a + b !in metaData {
          metaData := metaData[a + b := MetaData(|metaData|, None, None, Some([a, b]))];
        }
        metaDataMap := metaDataMap[index := metaData[a + b].index];
    }

    method ReadLine(line: Line)
      requires Interned(attributes, attributesBackMap)
      modifies this`attributes, this`attributesBackMap, this`attributeMap
      modifies this`metaData, this`metaDataMap, this`unresolvedMetaData, this`ownDeclarations
      ensures Interned(attributes, attributesBackMap) && old(attributes) <= attributes
      ensures AttributeRead(line, attributes, old(attributeMap), attributeMap)
      ensures Metas() == ReadStep(old(Metas()), line)
      ensures ownDeclarations == old(ownDeclarations) + if line.Declare? then [line.declaration] else []
    {
      match line
      case Declare(declaration) => ownDeclarations := ownDeclarations + [declaration];
      case Meta(index, shape) => ReadMetaData(index, shape);
      case Attributes(number, body) => ReadAttributes(number, body);
      case Other =>
    }

    /** Read the lines after a definition. */
    method ReadLines(lines: seq<Line>)
      requires Interned(attributes, attributesBackMap)
      modifies this`attributes, this`attributesBackMap, this`attributeMap
      modifies this`metaData, this`metaDataMap, this`unresolvedMetaData, this`ownDeclarations
      ensures Interned(attributes, attributesBackMap) && old(attributes) <= attributes
      ensures AttributesMapped(lines, attributes, attributeMap)
      ensures Metas() == ReadAll(lines, old(metaData))
      ensures ownDeclarations == Declared(lines)
    {
      attributeMap, metaDataMap, unresolvedMetaData, ownDeclarations := map[], map[], [], [];
      ghost var base := metaData;
      for i := 0 to |lines|
        invariant Interned(attributes, attributesBackMap) && old(attributes) <= attributes
        invariant AttributesMapped(lines[..i], attributes, attributeMap)
        invariant Metas() == ReadAll(lines[..i], base)
        invariant ownDeclarations == Declared(lines[..i])
      {
        ghost var bodies, numbers := attributes, attributeMap;
        ReadLine(lines[i]);
        ReadExtends(lines, i, base, bodies, attributes, numbers, attributeMap);
      }
      assert lines[..|lines|] == lines;
    }

    /** One pass over the waiting entries. */
    method ResolvePass()
      modifies this`metaData, this`metaDataMap, this`unresolvedMetaData
      ensures Metas() == PassFrom(old(Metas()), 0)
    {
      var index := 0;
      while index < |unresolvedMetaData|
        invariant 0 <= index <= |unresolvedMetaData|
        invariant PassFrom(Metas(), index) == PassFrom(old(Metas()), 0)
        decreases |unresolvedMetaData| - index
      {
        if unresolvedMetaData[index].name in metaData || unresolvedMetaData[index].parent in metaDataMap {
          ResolveAt(index);
        } else {
          index := index + 1;
        }
      }
    }

    /** Number the entry at `index`, move the last entry into its place, and pop. */
    method ResolveAt(index: nat)
      requires index < |unresolvedMetaData| && Resolvable(Metas(), unresolvedMetaData[index])
      modifies this`metaData, this`metaDataMap, this`unresolvedMetaData
      ensures Metas() == Resolve(old(Metas()), index)
    {
      var entry := unresolvedMetaData[index];
      if entry.name in metaData {
        metaDataMap := metaDataMap[entry.index := metaData[entry.name].index];
      } else {
        metaDataMap := metaDataMap[entry.index := |metaData|];
        var made := MetaData(|metaData|, Some(entry.name), Some(metaDataMap[entry.parent]), None);
        metaData := metaData[entry.name := made];
      }
      unresolvedMetaData := unresolvedMetaData[index := unresolvedMetaData[|unresolvedMetaData| - 1]];
      unresolvedMetaData := unresolvedMetaData[..|unresolvedMetaData| - 1];
    }

    /**
     * Passes until nothing waits. A pass that resolves nothing changes nothing, and the program
     * would repeat it for ever: then `ended` is false.
     */
    method ResolveMetaData() returns (ended: bool)
      modifies this`metaData, this`metaDataMap, this`unresolvedMetaData
      ensures ended <==> WellFounded(old(Metas()))
      ensures ended ==> Metas() == Resolved(old(Metas()))
      ensures !ended ==> Metas() == PassFrom(Metas(), 0) && unresolvedMetaData != []
    {
      while unresolvedMetaData != []
        invariant WellFounded(Metas()) <==> WellFounded(old(Metas()))
        invariant WellFounded(Metas()) ==> Resolved(Metas()) == Resolved(old(Metas()))
        decreases |unresolvedMetaData|
      {
        ghost var was := Metas();
        var size := |unresolvedMetaData|;
        ResolvePass();
        PassStep(was);
        if |unresolvedMetaData| == size {
          IdlePassChangesNothing(was, 0);
          IdlePassNeverEnds(was);
          return false;
        }
      }
      NothingUnfounded(Metas());
      return true;
    }

    /** Print pieces with their references remapped; `None` when a reference is not in the maps. */
    method Remap(pieces: seq<Piece>, ghost lines: seq<Line>, ghost base: Table) returns (r: Option<seq<Piece>>)
      requires AttributesMapped(lines, attributes, attributeMap)
      requires Sound(lines, base, Metas()) && unresolvedMetaData == []
      ensures r.Some? <==> AllDefined(pieces, lines)
      ensures r.Some? ==> Faithful(pieces, r.value, lines, attributes, metaDataMap)
    {
      var printed := [];
      for k := 0 to |pieces|
        invariant Faithful(pieces[..k], printed, lines, attributes, metaDataMap)
        invariant AllDefined(pieces[..k], lines)
      {
        var piece := Remapped(pieces[k], attributeMap, metaDataMap);
        RemappedIsFaithful(pieces[k], lines, attributes, attributeMap, base, Metas());
        if piece.None? {
          assert pieces[k] in pieces;
          return None;
        }
        printed := printed + [piece.value];
        assert pieces[..k + 1] == pieces[..k] + [pieces[k]];
      }
      assert pieces[..|pieces|] == pieces;
      return Some(printed);
    }

    /** Remap the module's declarations and keep those whose text is new. */
    method AddDeclarations(ghost lines: seq<Line>, ghost base: Table) returns (ok: bool)
      requires AttributesMapped(lines, attributes, attributeMap)
      requires Sound(lines, base, Metas()) && unresolvedMetaData == [] && Distinct(declarations)
      modifies this`declarations
      ensures ok <==> forall d | d in ownDeclarations :: AllDefined(d, lines)
      ensures Distinct(declarations) && old(declarations) <= declarations
      ensures ok ==> forall d | d in ownDeclarations :: Emitted(d, declarations, lines, attributes, metaDataMap)
    {
      for i := 0 to |ownDeclarations|
        invariant Distinct(declarations) && old(declarations) <= declarations
        invariant FirstEmitted(ownDeclarations, i, declarations, lines, attributes, metaDataMap)
      {
        ghost var was := declarations;
        var ok := AddDeclaration(ownDeclarations[i], lines, base);
        if !ok {
          assert ownDeclarations[i] in ownDeclarations;
          return false;
        }
        FirstEmittedExtends(ownDeclarations, i, was, declarations, lines, attributes, metaDataMap);
      }
      return true;
    }

    method AddDeclaration(d: seq<Piece>, ghost lines: seq<Line>, ghost base: Table) returns (ok: bool)
      requires AttributesMapped(lines, attributes, attributeMap)
      requires Sound(lines, base, Metas()) && unresolvedMetaData == [] && Distinct(declarations)
      modifies this`declarations
      ensures ok <==> AllDefined(d, lines)
      ensures Distinct(declarations) && old(declarations) <= declarations
      ensures ok ==> Emitted(d, declarations, lines, attributes, metaDataMap)
    {
      var r := Remap(d, lines, base);
      if r.None? { return false; }
      var text := JoinPieces(r.value);
      if text !in declarations {
        declarations := declarations + [text];
      }
      assert RenderedAll(r.value) in declarations;
      return true;
    }

    /** Combine one module, whatever its lines. */
    method CombineModule(m: Module) returns (r: Outcome<seq<Piece>>)
      requires Interned(attributes, attributesBackMap) && Dense(metaData) && Distinct(declarations)
      modifies this
      ensures Interned(attributes, attributesBackMap) && old(attributes) <= attributes
      ensures Distinct(declarations) && old(declarations) <= declarations
      ensures r.Diverged? <==> !WellFounded(ReadAll(m.lines, old(metaData)))
      ensures !r.Diverged? ==> Metas() == AfterModule(m, old(metaData)) && (r.Done? <==> Closed(m))
      ensures r.Done? ==> Faithful(m.body, r.value, m.lines, attributes, metaDataMap)
      ensures r.Done? ==> AllEmitted(m, declarations, attributes, metaDataMap)
    {
      ghost var base := metaData;
      ReadLines(m.lines);
      ghost var read := Metas();
      var ended := ResolveMetaData();
      if !ended { return Diverged; }
      ResolvedExactly(read);
      AfterModuleSound(m, base);
      var printed := Remap(m.body, m.lines, base);
      if printed.None? { return Raised; }
      var ok := AddDeclarations(m.lines, base);
      r := if ok then Done(printed.value) else Raised;
    }
  }

  lemma PassStep(s: State)
    requires s.waiting != []
    ensures WellFounded(PassFrom(s, 0)) <==> WellFounded(s)
    ensures WellFounded(s) ==> Resolved(PassFrom(s, 0)) == Resolved(s)
    ensures |PassFrom(s, 0).waiting| <= |s.waiting|
  {
    PassNeverGrows(s, 0);
    if WellFounded(s) {
      PassKeepsWellFounded(s, 0);
      ResolvedAfterPass(s);
    }
    if WellFounded(PassFrom(s, 0)) { PassReflectsWellFounded(s); }
  }

  lemma NothingUnfounded(s: State)
    requires s.waiting == []
    ensures WellFounded(s) && Resolved(s) == s
  {
  }

  // ----- all modules -----

  /** The printed modules and declarations keep what every module's references mean. */
  ghost predicate AllFaithful(modules: seq<Module>, printed: seq<seq<Piece>>, texts: seq<string>,
                              attributes: seq<string>) {
    && |printed| == |modules|
    && (forall j | 0 <= j < |modules| :: ModuleFaithful(modules, j, printed[j], texts, attributes))
  }

  ghost predicate ModuleFaithful(modules: seq<Module>, j: nat, printed: seq<Piece>, texts: seq<string>,
                                 attributes: seq<string>)
    requires j < |modules|
  {
    && Faithful(modules[j].body, printed, modules[j].lines, attributes, NumbersOf(modules, j))
    && AllEmitted(modules[j], texts, attributes, NumbersOf(modules, j))
  }

  lemma ModuleFaithfulGrows(modules: seq<Module>, more: seq<Module>, j: nat, printed: seq<Piece>,
                            ds: seq<string>, es: seq<string>, a: seq<string>, b: seq<string>)
    requires j < |modules| && modules <= more && ModuleFaithful(modules, j, printed, ds, a) && ds <= es && a <= b
    ensures ModuleFaithful(more, j, printed, es, b)
  {
    assert more[..j] == modules[..j];
    FaithfulGrows(modules[j].body, printed, modules[j].lines, a, b, NumbersOf(modules, j));
    AllEmittedGrows(modules[j], ds, es, a, b, NumbersOf(modules, j));
  }

  lemma AllFaithfulExtends(modules: seq<Module>, printed: seq<seq<Piece>>, ds: seq<string>, a: seq<string>,
                           m: Module, out: seq<Piece>, es: seq<string>, b: seq<string>)
    requires AllFaithful(modules, printed, ds, a) && ds <= es && a <= b
    requires ModuleFaithful(modules + [m], |modules|, out, es, b)
    ensures AllFaithful(modules + [m], printed + [out], es, b)
  {
    var ms, ps := modules + [m], printed + [out];
    forall j | 0 <= j < |ms| ensures ModuleFaithful(ms, j, ps[j], es, b) {
      if j < |modules| { ModuleFaithfulGrows(modules, ms, j, printed[j], ds, es, a, b); }
    }
  }

  /** The first `j` modules combine. */
  ghost predicate Combines(modules: seq<Module>, j: nat)
    requires j <= |modules|
  {
    forall i | 0 <= i < j :: Ends(modules, i) && Closed(modules[i])
  }

  /** What the program comes to: the first module that does not combine decides. */
  ghost predicate Ending<T>(modules: seq<Module>, r: Outcome<T>) {
    match r
    case Done(_) => Combines(modules, |modules|)
    case Raised => exists j :: 0 <= j < |modules| && Combines(modules, j) && Ends(modules, j) && !Closed(modules[j])
    case Diverged => exists j :: 0 <= j < |modules| && Combines(modules, j) && !Ends(modules, j)
  }

  /** The tables after the first `j` modules, and what was printed for them. */
  ghost predicate Progress(modules: seq<Module>, j: nat, printed: seq<seq<Piece>>, attributes: seq<string>,
                           backMap: map<string, nat>, meta: Table, texts: seq<string>)
    requires j <= |modules|
  {
    && Interned(attributes, backMap) && Distinct(texts)
    && meta == TableAfter(modules[..j]) && AllFaithful(modules[..j], printed, texts, attributes)
  }

  /** Combine the next module: it goes on, or ends as the module decides. */
  method CombineNext(c: Combiner, modules: seq<Module>, j: nat, ghost printed: seq<seq<Piece>>)
    returns (r: Outcome<seq<Piece>>)
    requires j < |modules|
    requires Progress(modules, j, printed, c.attributes, c.attributesBackMap, c.metaData, c.declarations)
    modifies c
    ensures Interned(c.attributes, c.attributesBackMap) && Distinct(c.declarations)
    ensures r.Diverged? <==> !Ends(modules, j)
    ensures !r.Diverged? ==> (r.Done? <==> Closed(modules[j]))
    ensures r.Done? ==> Progress(modules, j + 1, printed + [r.value],
                                 c.attributes, c.attributesBackMap, c.metaData, c.declarations)
  {
    ghost var attributes, texts := c.attributes, c.declarations;
    TableIsDense(modules[..j]);
    r := c.CombineModule(modules[j]);
    if r.Done? {
      NextModule(modules, j, c.metaData, c.metaDataMap);
      AllFaithfulExtends(modules[..j], printed, texts, attributes, modules[j], r.value, c.declarations, c.attributes);
    }
  }

  /**
   * Combine modules in order. Every reference printed names, in the final tables, what it named in
   * its own module. The program fails to end, or ends on an undefined reference, exactly as the
   * first module that does not combine.
   */
  method CombineAll(modules: seq<Module>) returns (c: Combiner, r: Outcome<seq<seq<Piece>>>)
    ensures Ending(modules, r) && (r.Done? <==> Combines(modules, |modules|))
    ensures r.Done? ==> AllFaithful(modules, r.value, c.declarations, c.attributes)
    ensures r.Done? ==> c.metaData == TableAfter(modules) && Dense(c.metaData)
    ensures Interned(c.attributes, c.attributesBackMap) && Distinct(c.declarations)
  {
    c := new Combiner();
    var done := [];
    ProgressStarts(modules, c.attributesBackMap);
    for j := 0 to |modules|
      invariant fresh(c) && Combines(modules, j)
      invariant Progress(modules, j, done, c.attributes, c.attributesBackMap, c.metaData, c.declarations)
    {
      var printed := CombineNext(c, modules, j, done);
      if printed.Diverged? { return c, Diverged; }
      if printed.Raised? { return c, Raised; }
      done := done + [printed.value];
    }
    ProgressEnds(modules, done, c.attributes, c.attributesBackMap, c.metaData, c.declarations);
    r := Done(done);
  }

  lemma ProgressStarts(modules: seq<Module>, backMap: map<string, nat>)
    requires Interned([], backMap)
    ensures Progress(modules, 0, [], [], backMap, map[], [])
  {
  }

  lemma ProgressEnds(modules: seq<Module>, printed: seq<seq<Piece>>, attributes: seq<string>,
                     backMap: map<string, nat>, meta: Table, texts: seq<string>)
    requires Progress(modules, |modules|, printed, attributes, backMap, meta, texts)
    ensures AllFaithful(modules, printed, texts, attributes) && meta == TableAfter(modules) && Dense(meta)
    ensures Interned(attributes, backMap) && Distinct(texts)
  {
    assert modules[..|modules|] == modules;
    TableIsDense(modules);
  }

  lemma NextModule(modules: seq<Module>, j: nat, meta: Table, numbers: map<nat, nat>)
    requires j < |modules|
    requires AfterModule(modules[j], TableAfter(modules[..j])).meta == meta
    requires AfterModule(modules[j], TableAfter(modules[..j])).numbers == numbers
    ensures modules[..j + 1] == modules[..j] + [modules[j]]
    ensures TableAfter(modules[..j + 1]) == meta && NumbersOf(modules[..j] + [modules[j]], j) == numbers
  {
    assert modules[..j + 1][..j] == modules[..j];
    assert modules[..j + 1] == modules[..j] + [modules[j]];
  }
}

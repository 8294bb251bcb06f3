/**
 * The whole generator, from a keyword table to the printed recogniser: which tables give code
 * that compiles, how far the code reads, and what it returns on every input.
 */
module KeywordGenerator {
  import opened Wrappers
  import opened KeywordTrie
  import opened WideCompare
  import opened KeywordEmitter
  import opened KeywordRecogniser

  // ----- the pipeline -----

  /** The result of coalesce() is dropped for the root, which keeps its empty prefix. */
  function Root(table: seq<(string, Token)>, weights: map<string, real>): Filled {
    FillOut(CoalesceNode(InsertAll(EmptyTrie(""), table)), "", weights)
  }

  function Recogniser(table: seq<(string, Token)>, weights: map<string, real>): seq<Stmt> {
    FillOutAddresses(CoalesceNode(InsertAll(EmptyTrie(""), table)), "", weights);
    PrintSubTree(Root(table, weights))
  }

  function MaxTokenLength(table: seq<(string, Token)>, weights: map<string, real>): nat {
    MaxLength(Root(table, weights)) + 1
  }

  lemma RootMeaning(table: seq<(string, Token)>, weights: map<string, real>)
    ensures var f := Root(table, weights);
            && WellFormed(Strip(f)) && Addressed(f) && Live(f) && f.fullPrefix == ""
            && forall w :: Lookup(Strip(f), w) == MapGet(TableMap(table), w)
  {
    var raw := InsertAll(EmptyTrie(""), table);
    InsertAllMeaning(table);
    CoalesceMeaning(raw);
    CoalesceCompresses(raw);
    FillOutMeaning(CoalesceNode(raw), "", weights);
    FillOutAddresses(CoalesceNode(raw), "", weights);
    FillOutKeepsLive(CoalesceNode(raw), "", weights);
  }

  /** The recogniser is printed from a tree whose tests come heaviest first, by the table of weights. */
  lemma HeaviestTestsFirst(table: seq<(string, Token)>, weights: map<string, real>)
    ensures Addressed(Root(table, weights)) && HeaviestFirst(Root(table, weights), weights)
    ensures Recogniser(table, weights) == PrintSubTree(Root(table, weights))
  {
    FillOutAddresses(CoalesceNode(InsertAll(EmptyTrie(""), table)), "", weights);
    FillOutHeaviestFirst(CoalesceNode(InsertAll(EmptyTrie(""), table)), "", weights);
  }

  // ----- every node leads to a keyword -----

  /** Below the root, a node without a value has kids. */
  ghost predicate Live(f: Filled)
    decreases f
  {
    forall i | 0 <= i < |f.kids| :: (f.kids[i].value.Some? || f.kids[i].kids != []) && Live(f.kids[i])
  }

  lemma {:induction false} FillOutKeepsLive(t: Trie, before: string, weights: map<string, real>)
    requires Compressed(t)
    ensures Live(FillOut(t, before, weights))
    decreases t
  {
    var f := FillOut(t, before, weights);
    var kids := FillOutKids(t.kids, before + t.prefix, weights);
    forall i | 0 <= i < |f.kids| ensures (f.kids[i].value.Some? || f.kids[i].kids != []) && Live(f.kids[i]) {
      assert f.kids[i] in kids;
      var k :| 0 <= k < |kids| && kids[k] == f.kids[i];
      FillOutKeepsLive(t.kids[k], before + t.prefix, weights);
      SortHasSameElements(FillOutKids(t.kids[k].kids, before + t.prefix + t.kids[k].prefix, weights));
    }
  }

  /** maxLength is the length of the longest word below a node. */
  lemma {:induction false} MaxLengthBounds(f: Filled, w: string)
    requires WellFormed(Strip(f)) && Addressed(f) && Lookup(Strip(f), w).Some?
    ensures |f.fullPrefix| + |w| <= MaxLength(f)
    decreases f
  {
    if w != "" {
      var i := FirstCharIndex(Strip(f).kids, w[0]);
      MaxLengthBounds(f.kids[i], w[|f.kids[i].prefix|..]);
    }
  }

  lemma {:induction false} MaxLengthAttained(f: Filled) returns (w: string)
    requires WellFormed(Strip(f)) && Addressed(f) && Live(f) && (f.value.Some? || f.kids != [])
    ensures Lookup(Strip(f), w).Some? && |f.fullPrefix| + |w| == MaxLength(f)
    decreases f
  {
    if f.kids == [] {
      w := "";
    } else {
      var i := LongestKid(f);
      assert Strip(f).kids[i] == Strip(f.kids[i]);
      var rest := MaxLengthAttained(f.kids[i]);
      LookupThroughKid(f, i, rest);
      w := f.kids[i].prefix + rest;
    }
  }

  lemma LongestKid(f: Filled) returns (i: nat)
    requires WellFormed(Strip(f)) && Addressed(f) && f.kids != []
    ensures i < |f.kids| && MaxLength(f.kids[i]) == MaxLength(f)
  {
    assert Strip(f).kids[0].prefix == f.kids[0].prefix;
    assert MaxLength(f.kids[0]) >= |f.kids[0].fullPrefix| > |f.fullPrefix|;
    i := MaxOfAttained(|f.fullPrefix|, f.kids);
  }

  lemma {:induction false} MaxOfAttained(start: nat, kids: seq<Filled>) returns (i: nat)
    requires kids != [] && MaxOf(start, kids) > start
    ensures i < |kids| && MaxLength(kids[i]) == MaxOf(start, kids)
  {
    var last := |kids| - 1;
    if MaxLength(kids[last]) > MaxOf(start, kids[..last]) {
      i := last;
    } else {
      i := MaxOfAttained(start, kids[..last]);
    }
  }

  /** The asserted token length is one more than the longest keyword. */
  lemma MaxTokenLengthIsLongestKeyword(table: seq<(string, Token)>, weights: map<string, real>)
    ensures forall k | k in TableMap(table) :: |k| < MaxTokenLength(table, weights)
    ensures TableMap(table) != map[] ==> exists k | k in TableMap(table) :: |k| + 1 == MaxTokenLength(table, weights)
    ensures TableMap(table) == map[] ==> MaxTokenLength(table, weights) == 1
  {
    var f := Root(table, weights);
    var m := TableMap(table);
    RootMeaning(table, weights);
    forall k | k in m ensures |k| < MaxTokenLength(table, weights) {
      assert Lookup(Strip(f), k) == Some(m[k]);
      MaxLengthBounds(f, k);
    }
    if f.value.Some? || f.kids != [] {
      var w := MaxLengthAttained(f);
      assert w in m;
    } else {
      assert MaxLength(f) == 0;
      assert forall k :: Lookup(Strip(f), k) == None;
    }
  }

  lemma {:induction false} LiveNodesAreAscii(f: Filled)
    requires WellFormed(Strip(f)) && Addressed(f) && Live(f) && Ascii(f.fullPrefix) && AsciiWords(f)
    ensures AllAscii(f)
    decreases f
  {
    forall i | 0 <= i < |f.kids| ensures AllAscii(f.kids[i]) {
      var kid := f.kids[i];
      assert Strip(f).kids[i] == Strip(kid);
      WordsOfKidAreAscii(f, i);
      var w := MaxLengthAttained(kid);
      assert AsciiWord(kid, w);
      PrefixIsAscii(kid.fullPrefix, w);
      LiveNodesAreAscii(kid);
    }
  }

  /** Every word below the node, with the node's full prefix in front, is ASCII. */
  ghost predicate AsciiWords(f: Filled) {
    forall w :: AsciiWord(f, w)
  }

  ghost predicate AsciiWord(f: Filled, w: string) {
    Lookup(Strip(f), w).Some? ==> Ascii(f.fullPrefix + w)
  }

  lemma WordsOfKidAreAscii(f: Filled, i: nat)
    requires WellFormed(Strip(f)) && Addressed(f) && i < |f.kids| && AsciiWords(f)
    ensures AsciiWords(f.kids[i])
  {
    var kid := f.kids[i];
    forall w ensures AsciiWord(kid, w) {
      assert AsciiWord(f, kid.prefix + w);
      WordOfKidIsAscii(f, i, w);
    }
  }

  lemma WordOfKidIsAscii(f: Filled, i: nat, w: string)
    requires WellFormed(Strip(f)) && Addressed(f) && i < |f.kids| && AsciiWord(f, f.kids[i].prefix + w)
    ensures AsciiWord(f.kids[i], w)
  {
    if Lookup(Strip(f.kids[i]), w).Some? {
      LookupThroughKid(f, i, w);
      Reassociate(f.fullPrefix, f.kids[i].prefix, w);
    }
  }

  lemma Reassociate(a: string, b: string, c: string)
    ensures (a + b) + c == a + (b + c)
  {
  }

  lemma PrefixIsAscii(p: string, w: string)
    requires Ascii(p + w)
    ensures Ascii(p)
  {
    assert p == (p + w)[..|p|];
  }

  // ----- the main theorem -----

  /** Keyword `k` stands at the start of the input and no identifier character follows it. */
  ghost predicate Stands(table: seq<(string, Token)>, units: seq<nat>, identPart: nat -> bool, k: string) {
    k in TableMap(table) && HoldsAt(units, 0, k) && !identPart(|k|)
  }

  ghost predicate AsciiTable(table: seq<(string, Token)>) {
    forall k | k in TableMap(table) :: Ascii(k)
  }

  /**
   * On every CPU, for 8-bit and 16-bit input, every weighting and every identifier predicate, the
   * printed recogniser returns the shortest keyword that stands at the start of the input, with
   * the token of its last table line and its length as the shift, and IDENT when there is none.
   * It never reads past the end.
   */
  lemma RecogniserCorrect(
    table: seq<(string, Token)>, weights: map<string, real>, buf: Buffer, identPart: nat -> bool)
    requires RealCpu(buf.cpu) && AsciiTable(table)
    requires Compiles(Recogniser(table, weights))
    requires MaxTokenLength(table, weights) <= buf.Length()
    ensures match Eval(Recogniser(table, weights), buf, identPart)
            case Fall => forall k :: !Stands(table, Units(buf), identPart, k)
            case Accept(token, shift, ident) =>
              && Stands(table, Units(buf), identPart, ident)
              && token == TableMap(table)[ident] && shift == |ident|
              && forall k | Stands(table, Units(buf), identPart, k) :: |ident| <= |k|
            case Fault => false
  {
    var f := Root(table, weights);
    var units := Units(buf);
    RootMeaning(table, weights);
    forall w ensures AsciiWord(f, w) {
      assert f.fullPrefix + w == w;
    }
    LiveNodesAreAscii(f);
    SubTreeCorrect(f, buf, units, identPart);
    forall k ensures k in MatchSet(f, units, identPart) <==> Stands(table, units, identPart, k) {
      assert f.fullPrefix + k == k;
    }
    var out := Eval(Recogniser(table, weights), buf, identPart);
    if out.Accept? {
      assert out.ident[0..] == out.ident;
    }
  }
}

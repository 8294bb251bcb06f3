/**
 * The generator as it runs: trie nodes updated in place by insert, coalesce and fillOut, and the
 * loops that print the recogniser. Each method is proved against the functions on trie values.
 */
module KeywordObjects {
  import opened Wrappers
  import opened KeywordTrie
  import opened KeywordEmitter
  import opened KeywordRecogniser
  import opened KeywordGenerator

  class TrieNode {
    var prefix: string
    var keys: seq<TrieNode>
    var value: Option<Token>
    var fullPrefix: string
    var selfWeight: real
    var weight: real

    ghost var Repr: set<TrieNode>
    ghost var model: Trie

    /** The nodes below this one form a tree, and it is the tree `model`. */
    ghost predicate Valid()
      reads this, Repr
      decreases Repr, 0
    {
      && this in Repr
      && prefix == model.prefix && value == model.value
      && Forest(keys, model.kids, Repr - {this})
    }

    constructor (prefix: string)
      ensures Valid() && fresh(Repr) && Repr == {this} && model == EmptyTrie(prefix)
    {
      this.prefix, keys, value := prefix, [], None;
      fullPrefix, selfWeight, weight := "", 0.0, 0.0;
      Repr, model := {this}, EmptyTrie(prefix);
    }

    method Insert(key: string, value: Token)
      requires Valid()
      modifies Repr
      ensures Valid() && fresh(Repr - old(Repr))
      ensures model == KeywordTrie.Insert(old(model), key, value)
      decreases |key|, 0
    {
      if key == "" {
        this.value := Some(value);
        model := model.(value := Some(value));
      } else {
        var i := KidFor(key[..1]);
        InsertByKid(old(model), model, key, value, i);
        InsertBelow(i, key[1..], value);
      }
    }

    /** Insert into kid `i`. */
    method InsertBelow(i: nat, key: string, value: Token)
      requires Valid() && i < |keys| && i < |model.kids|
      modifies Repr
      ensures Valid() && fresh(Repr - old(Repr))
      ensures model == old(model).(kids := old(model).kids[i := KeywordTrie.Insert(old(model).kids[i], key, value)])
      decreases |key|, 1
    {
      assert Forest(keys, model.kids, Repr - {this});
      assert forall j | 0 <= j < |keys| && j != i :: keys[j].Repr !! keys[i].Repr && keys[j].Valid();
      keys[i].Insert(key, value);
      assert forall j | 0 <= j < |keys| && j != i :: keys[j].Valid();
      Readopt(i);
    }

    /** Restores the node's invariant after kid `i` has changed. */
    ghost method Readopt(i: nat)
      requires this in Repr && prefix == model.prefix && value == model.value
      requires i < |keys| && |keys| == |model.kids|
      requires forall j | 0 <= j < |keys| :: this !in keys[j].Repr && keys[j].Valid()
      requires forall j | 0 <= j < |keys| && j != i ::
                 keys[j] in Repr && keys[j].Repr <= Repr && keys[j].model == model.kids[j]
      requires forall j, k | 0 <= j < k < |keys| :: keys[j].Repr !! keys[k].Repr
      modifies this`Repr, this`model
      ensures Valid() && Repr == old(Repr) + keys[i].Repr
      ensures model == old(model).(kids := old(model).kids[i := keys[i].model])
    {
      Repr := Repr + keys[i].Repr;
      model := model.(kids := model.kids[i := keys[i].model]);
    }

    /** The kid with prefix `p`, added when it is missing. */
    method KidFor(p: string) returns (i: nat)
      requires Valid()
      modifies this
      ensures Valid() && fresh(Repr - old(Repr))
      ensures i == KidIndex(old(model).kids, p)
      ensures model == old(model).(kids := old(model).kids + if i < |old(model).kids| then [] else [EmptyTrie(p)])
      ensures i < |keys|
    {
      i := IndexOfPrefix(keys, p);
      ForestPrefixes(keys, model.kids, Repr - {this});
      KidIndexUnique(model.kids, p, i);
      if i == |keys| {
        var node := new TrieNode(p);
        keys := keys + [node];
        Repr := Repr + node.Repr;
        model := model.(kids := model.kids + [node.model]);
      }
    }

    /** Leaves the node with its rebuilt dictionary, and returns it or its only kid with a longer prefix. */
    method Coalesce() returns (res: TrieNode)
      requires Valid()
      modifies Repr
      ensures Valid() && fresh(Repr - old(Repr)) && model == CoalesceNode(old(model))
      ensures res.Valid() && fresh(res.Repr - old(Repr)) && res.model == KeywordTrie.Coalesce(old(model))
      decreases Repr, 1
    {
      ghost var below;
      keys, below := CoalesceEach();
      Repr, model := {this} + below, CoalesceNode(model);
      assert Repr - {this} == below;
      if value.Some? || |keys| != 1 {
        return this;
      }
      res := Merged(prefix, keys[0]);
    }

    /** The loop of coalesce over the dictionary. */
    method CoalesceEach() returns (done: seq<TrieNode>, ghost below: set<TrieNode>)
      requires Valid()
      modifies Repr - {this}
      ensures Forest(done, CoalesceKids(model.kids), below)
      ensures this !in below && fresh(below - Repr)
      decreases Repr, 0
    {
      done, below := [], {};
      ghost var todo := Repr - {this};
      var i := 0;
      while i < |keys|
        invariant 0 <= i <= |keys|
        invariant Forest(done, CoalesceKids(model.kids[..i]), below)
        invariant Forest(keys[i..], model.kids[i..], todo)
        invariant below !! todo && todo <= Repr - {this}
        invariant this !in below && fresh(below - Repr)
      {
        ForestRest(keys, model.kids, i, todo);
        todo := todo - keys[i].Repr;
        var t := keys[i].Coalesce();
        CoalesceKidsStep(model.kids, i);
        done := PutNode(done, CoalesceKids(model.kids[..i]), below, t);
        below := below + t.Repr;
        i := i + 1;
      }
      assert model.kids[..i] == model.kids;
    }

    /** The node and everything below it hold what fillOut stores for `f`. */
    ghost predicate IsFilled(f: Filled)
      reads this, Repr
      decreases Repr, 0
    {
      && this in Repr
      && prefix == f.prefix && fullPrefix == f.fullPrefix && value == f.value
      && selfWeight == f.selfWeight && weight == f.weight
      && FilledForest(keys, f.kids, Repr - {this})
    }

    method FillOut(before: string, weights: map<string, real>)
      requires Valid()
      modifies Repr
      ensures IsFilled(KeywordEmitter.FillOut(old(model), before, weights)) && Repr == old(Repr)
      decreases Repr, 1
    {
      FillOutFields(model, before, weights);
      FillOutAs(before, weights, FillOutKids(model.kids, before + prefix, weights),
                KeywordEmitter.FillOut(model, before, weights));
    }

    /** The body of fillOut, for the values `f` and `kids` that the node and its kids are to hold. */
    method FillOutAs(before: string, weights: map<string, real>, ghost kids: seq<Filled>, ghost f: Filled)
      requires Valid() && |kids| == |model.kids|
      requires FilledFrom(kids, model.kids, f.fullPrefix, weights)
      requires f.prefix == prefix && f.fullPrefix == before + prefix && f.value == value
      requires f.selfWeight == if f.fullPrefix in weights then weights[f.fullPrefix] else 0.0
      requires f.weight == f.selfWeight + SumWeights(kids) && f.kids == SortByWeight(kids)
      modifies Repr
      ensures IsFilled(f) && Repr == old(Repr)
      decreases Repr, 0
    {
      fullPrefix := before + prefix;
      selfWeight := if fullPrefix in weights then weights[fullPrefix] else 0.0;
      var total := FillOutEach(keys, model.kids, kids, Repr - {this}, fullPrefix, selfWeight, weights);
      SortKeys(total, kids, f);
    }

    /** The end of fillOut: the dictionary becomes the sorted list. */
    method SortKeys(total: real, ghost kids: seq<Filled>, ghost f: Filled)
      requires this in Repr && FilledForest(keys, kids, Repr - {this})
      requires prefix == f.prefix && fullPrefix == f.fullPrefix && value == f.value
      requires selfWeight == f.selfWeight && total == f.weight && f.kids == SortByWeight(kids)
      modifies this`keys, this`weight
      ensures IsFilled(f)
    {
      keys := SortNodes(keys, kids, Repr - {this});
      weight := total;
    }

    method MaxLength(ghost f: Filled) returns (max: nat)
      requires IsFilled(f)
      ensures max == KeywordRecogniser.MaxLength(f)
      decreases Repr
    {
      max := |fullPrefix|;
      var i := 0;
      while i < |keys|
        invariant 0 <= i <= |keys|
        invariant max == MaxOf(|fullPrefix|, f.kids[..i])
      {
        var l := keys[i].MaxLength(f.kids[i]);
        assert f.kids[..i + 1][..i] == f.kids[..i];
        if l > max {
          max := l;
        }
        i := i + 1;
      }
      assert f.kids[..i] == f.kids;
    }

    /** The comparison printed for this node inside its parent's chain. */
    method TestAsC(rootIndex: nat, ghost f: Filled) returns (cond: Cond)
      requires IsFilled(f) && rootIndex <= |f.fullPrefix|
      ensures cond == ArmCond(rootIndex, f)
    {
      var k, baseIndex := prefix, rootIndex;
      if baseIndex > 0 && |k| == 3 {
        baseIndex := baseIndex - 1;
        k := [fullPrefix[baseIndex]] + k;
      }
      cond := if |k| == 1 then UnitTest(baseIndex, k[0]) else Macro(baseIndex, k);
    }

    /** The test and the code of kid `i`. */
    method PrintArm(i: nat, ghost f: Filled) returns (arm: Arm)
      requires IsFilled(f) && Addressed(f) && i < |keys| && i < |f.kids|
      ensures IsArmOf(arm, f.fullPrefix, f.kids[i])
      decreases Repr, 0
    {
      var cond := keys[i].TestAsC(|fullPrefix|, f.kids[i]);
      var body := keys[i].PrintSubTreeAsC(f.kids[i]);
      arm := Arm(cond, body);
    }

    method PrintSubTreeAsC(ghost f: Filled) returns (code: seq<Stmt>)
      requires IsFilled(f) && Addressed(f)
      ensures code == PrintSubTree(f)
      decreases Repr, 2
    {
      code := if value.Some? then [AcceptUnlessIdent(|fullPrefix|, fullPrefix, value.value)] else [];
      var arms := PrintAllArms(f);
      ArmsArePrinted(f.fullPrefix, f.kids, arms);
      if arms != [] {
        code := code + [Chain(arms)];
      }
    }

    /** The loop over the kids. */
    method PrintAllArms(ghost f: Filled) returns (arms: seq<Arm>)
      requires IsFilled(f) && Addressed(f)
      ensures |arms| == |f.kids|
      ensures forall j | 0 <= j < |arms| :: IsArmOf(arms[j], f.fullPrefix, f.kids[j])
      decreases Repr, 1
    {
      arms := [];
      while |arms| < |keys|
        invariant |arms| <= |keys|
        invariant forall j | 0 <= j < |arms| :: IsArmOf(arms[j], f.fullPrefix, f.kids[j])
      {
        var arm := PrintArm(|arms|, f);
        arms := arms + [arm];
      }
    }
  }

  /** The values that filling out gives the kids. */
  ghost predicate FilledFrom(fs: seq<Filled>, models: seq<Trie>, full: string, weights: map<string, real>) {
    |fs| == |models| && forall i | 0 <= i < |fs| :: fs[i] == KeywordEmitter.FillOut(models[i], full, weights)
  }

  /** The loop of fillOut over the dictionary, with the running weight. */
  method FillOutEach(
    nodes: seq<TrieNode>, ghost models: seq<Trie>, ghost fs: seq<Filled>, ghost below: set<TrieNode>,
    full: string, self: real, weights: map<string, real>)
    returns (total: real)
    requires Forest(nodes, models, below) && |fs| == |models|
    requires FilledFrom(fs, models, full, weights)
    modifies below
    ensures FilledForest(nodes, fs, below)
    ensures total == self + SumWeights(fs)
    decreases below, 3
  {
    total := self;
    ghost var done, todo := {}, below;
    var i := 0;
    while i < |nodes|
      invariant 0 <= i <= |nodes|
      invariant FilledForest(nodes[..i], fs[..i], done)
      invariant Forest(nodes[i..], models[i..], todo)
      invariant done !! todo && done + todo == below
      invariant total == self + SumWeights(fs[..i])
    {
      ghost var mine := nodes[i].Repr;
      FillOutNext(nodes, models, fs, done, todo, i, full, weights);
      SumWeightsStep(fs, i);
      total := total + nodes[i].weight;
      done, todo := done + mine, todo - mine;
      i := i + 1;
    }
    assert fs[..i] == fs && nodes[..i] == nodes;
  }

  lemma SumWeightsStep(fs: seq<Filled>, i: nat)
    requires i < |fs|
    ensures SumWeights(fs[..i + 1]) == SumWeights(fs[..i]) + fs[i].weight
  {
    assert fs[..i + 1][..i] == fs[..i];
  }

  /** One turn of that loop. */
  method FillOutNext(
    nodes: seq<TrieNode>, ghost models: seq<Trie>, ghost fs: seq<Filled>, ghost done: set<TrieNode>,
    ghost todo: set<TrieNode>, i: nat, full: string, weights: map<string, real>)
    requires i < |nodes| == |models| == |fs| && done !! todo
    requires fs[i] == KeywordEmitter.FillOut(models[i], full, weights)
    requires FilledForest(nodes[..i], fs[..i], done)
    requires Forest(nodes[i..], models[i..], todo)
    modifies todo
    ensures nodes[i].Repr == old(nodes[i].Repr) && nodes[i].Repr <= todo
    ensures nodes[i].weight == fs[i].weight
    ensures FilledForest(nodes[..i + 1], fs[..i + 1], done + nodes[i].Repr)
    ensures Forest(nodes[i + 1..], models[i + 1..], todo - nodes[i].Repr)
    decreases todo, 2
  {
    TakeFirst(nodes[i..], models[i..], todo);
    SplitAt(nodes, i);
    SplitAt(models, i);
    SplitAt(fs, i);
    nodes[i].FillOut(full, weights);
    AddFilled(nodes[..i], fs[..i], done, nodes[i], fs[i]);
  }

  lemma SplitAt<T>(s: seq<T>, i: nat)
    requires i < |s|
    ensures s[..i + 1] == s[..i] + [s[i]] && s[i..][1..] == s[i + 1..] && s[i..][0] == s[i]
  {
  }

  lemma AddFilled(roots: seq<TrieNode>, fs: seq<Filled>, nodes: set<TrieNode>, x: TrieNode, fx: Filled)
    requires FilledForest(roots, fs, nodes) && x.IsFilled(fx) && x.Repr !! nodes
    ensures FilledForest(roots + [x], fs + [fx], nodes + x.Repr)
  {
  }

  lemma FillOutFields(t: Trie, before: string, weights: map<string, real>)
    ensures var full := before + t.prefix;
            var f := KeywordEmitter.FillOut(t, before, weights);
            var kids := FillOutKids(t.kids, full, weights);
            && f.prefix == t.prefix && f.fullPrefix == full && f.value == t.value
            && f.selfWeight == (if full in weights then weights[full] else 0.0)
            && f.weight == f.selfWeight + SumWeights(kids) && f.kids == SortByWeight(kids)
  {
  }

  ghost predicate FilledForest(roots: seq<TrieNode>, fs: seq<Filled>, nodes: set<TrieNode>)
    reads nodes
    decreases nodes, 1
  {
    && |roots| == |fs|
    && (forall i | 0 <= i < |roots| ::
          && roots[i] in nodes && roots[i].Repr <= nodes && roots[i].IsFilled(fs[i]))
    && (forall i, j | 0 <= i < j < |roots| :: roots[i].Repr !! roots[j].Repr)
  }

  /** The arm that is printed for the kid. */
  ghost predicate IsArmOf(arm: Arm, full: string, kid: Filled) {
    |full| <= |kid.fullPrefix| && Addressed(kid) && arm == Arm(ArmCond(|full|, kid), PrintSubTree(kid))
  }

  lemma {:induction false} ArmsArePrinted(full: string, kids: seq<Filled>, arms: seq<Arm>)
    requires forall i | 0 <= i < |kids| :: kids[i].fullPrefix == full + kids[i].prefix && Addressed(kids[i])
    requires |arms| == |kids|
    requires forall i | 0 <= i < |kids| :: IsArmOf(arms[i], full, kids[i])
    ensures arms == PrintArms(full, kids)
  {
    if kids != [] {
      ArmsArePrinted(full, kids[1..], arms[1..]);
    }
  }

  /** sorted(..., key=weight, reverse=True) on the nodes, as an insertion sort. */
  method SortNodes(roots: seq<TrieNode>, ghost fs: seq<Filled>, ghost nodes: set<TrieNode>) returns (r: seq<TrieNode>)
    requires FilledForest(roots, fs, nodes)
    ensures FilledForest(r, SortByWeight(fs), nodes)
  {
    r := [];
    var i := 0;
    ghost var used := {};
    while i < |roots|
      invariant 0 <= i <= |roots|
      invariant FilledForest(r, SortByWeight(fs[..i]), used) && used <= nodes
      invariant forall j | i <= j < |roots| :: roots[j].Repr !! used
    {
      assert fs[..i + 1][..i] == fs[..i];
      r := InsertNode(r, SortByWeight(fs[..i]), used, roots[i], fs[i]);
      used := used + roots[i].Repr;
      i := i + 1;
    }
    assert fs[..i] == fs;
    assert FilledForest(r, SortByWeight(fs), nodes);
  }

  method InsertNode(
    roots: seq<TrieNode>, ghost fs: seq<Filled>, ghost nodes: set<TrieNode>, x: TrieNode, ghost fx: Filled)
    returns (r: seq<TrieNode>)
    requires FilledForest(roots, fs, nodes) && x.IsFilled(fx) && x.Repr !! nodes
    ensures FilledForest(r, InsertByWeight(fs, fx), nodes + x.Repr)
  {
    var p := FindPosition(roots, fs, nodes, x.weight, fx);
    InsertPosition(fs, fx, p);
    r := roots[..p] + [x] + roots[p..];
    InsertedForest(roots, fs, nodes, x, fx, p);
  }

  /** Before the first of the lighter nodes at the end. */
  method FindPosition(
    roots: seq<TrieNode>, ghost fs: seq<Filled>, ghost nodes: set<TrieNode>, weight: real, ghost fx: Filled)
    returns (p: nat)
    requires FilledForest(roots, fs, nodes) && fx.weight == weight
    ensures p <= |fs| && (p > 0 ==> fs[p - 1].weight >= fx.weight)
    ensures forall j | p <= j < |fs| :: fs[j].weight < fx.weight
  {
    p := |roots|;
    while p > 0 && roots[p - 1].weight < weight
      invariant 0 <= p <= |roots|
      invariant forall j | p <= j < |roots| :: fs[j].weight < fx.weight
    {
      assert roots[p - 1].IsFilled(fs[p - 1]);
      p := p - 1;
    }
    if p > 0 {
      assert roots[p - 1].IsFilled(fs[p - 1]);
    }
  }

  lemma InsertedForest(roots: seq<TrieNode>, fs: seq<Filled>, nodes: set<TrieNode>, x: TrieNode, fx: Filled, p: nat)
    requires FilledForest(roots, fs, nodes) && x.IsFilled(fx) && x.Repr !! nodes && p <= |roots|
    ensures FilledForest(roots[..p] + [x] + roots[p..], fs[..p] + [fx] + fs[p..], nodes + x.Repr)
  {
    var r, fr := roots[..p] + [x] + roots[p..], fs[..p] + [fx] + fs[p..];
    forall i | 0 <= i < |r|
      ensures r[i] in nodes + x.Repr && r[i].Repr <= nodes + x.Repr && r[i].IsFilled(fr[i])
    {
      if i > p { assert r[i] == roots[i - 1] && fr[i] == fs[i - 1]; }
    }
  }

  lemma {:induction false} InsertPosition(fs: seq<Filled>, x: Filled, p: nat)
    requires p <= |fs| && (p > 0 ==> fs[p - 1].weight >= x.weight)
    requires forall j | p <= j < |fs| :: fs[j].weight < x.weight
    ensures InsertByWeight(fs, x) == fs[..p] + [x] + fs[p..]
  {
    if p < |fs| {
      var init, last := fs[..|fs| - 1], fs[|fs| - 1];
      InsertPosition(init, x, p);
      assert init[..p] == fs[..p] && fs[p..] == init[p..] + [last];
    }
  }

  /** The main program: the recogniser for a table, and the token length it asserts. */
  method Generate(keywords: seq<(string, Token)>, weights: map<string, real>)
    returns (code: seq<Stmt>, maxTokenLength: nat)
    ensures code == Recogniser(keywords, weights)
    ensures maxTokenLength == MaxTokenLength(keywords, weights)
  {
    var trie := new TrieNode("");
    var i := 0;
    while i < |keywords|
      invariant 0 <= i <= |keywords|
      invariant trie.Valid() && fresh(trie.Repr) && trie.model == InsertAll(EmptyTrie(""), keywords[..i])
    {
      assert keywords[..i + 1][..i] == keywords[..i];
      trie.Insert(keywords[i].0, keywords[i].1);
      i := i + 1;
    }
    assert keywords[..i] == keywords;
    var dropped := trie.Coalesce();
    trie.FillOut("", weights);
    ghost var f := Root(keywords, weights);
    var max := trie.MaxLength(f);
    maxTokenLength := max + 1;
    FillOutAddresses(CoalesceNode(InsertAll(EmptyTrie(""), keywords)), "", weights);
    code := trie.PrintSubTreeAsC(f);
  }

  /** A new node that stands for a node with prefix `p` and its only kid. */
  method Merged(p: string, suffix: TrieNode) returns (res: TrieNode)
    requires suffix.Valid()
    ensures res.Valid() && fresh(res) && res.Repr == {res} + suffix.Repr
    ensures res.model == Trie(p + suffix.model.prefix, suffix.model.kids, suffix.model.value)
  {
    res := new TrieNode(p + suffix.prefix);
    res.value := suffix.value;
    res.keys := suffix.keys;
    res.Repr := {res} + suffix.Repr;
    res.model := Trie(p + suffix.prefix, suffix.model.kids, suffix.model.value);
  }

  /** Disjoint valid trees within `nodes`, with the given values. */
  ghost predicate Forest(roots: seq<TrieNode>, models: seq<Trie>, nodes: set<TrieNode>)
    reads nodes
    decreases nodes, 1
  {
    && |roots| == |models|
    && (forall i | 0 <= i < |roots| ::
          && roots[i] in nodes && roots[i].Repr <= nodes
          && roots[i].Valid() && roots[i].model == models[i])
    && (forall i, j | 0 <= i < j < |roots| :: roots[i].Repr !! roots[j].Repr)
  }

  lemma ForestPrefixes(roots: seq<TrieNode>, models: seq<Trie>, nodes: set<TrieNode>)
    requires Forest(roots, models, nodes)
    ensures forall i | 0 <= i < |roots| :: roots[i].prefix == models[i].prefix
  {
    forall i | 0 <= i < |roots| ensures roots[i].prefix == models[i].prefix {
      assert roots[i].Valid();
    }
  }

  lemma ForestRest(roots: seq<TrieNode>, models: seq<Trie>, i: nat, nodes: set<TrieNode>)
    requires i < |roots| && i < |models| && Forest(roots[i..], models[i..], nodes)
    ensures roots[i] in nodes && roots[i].Repr <= nodes && roots[i].Valid() && roots[i].model == models[i]
    ensures Forest(roots[i + 1..], models[i + 1..], nodes - roots[i].Repr)
  {
    TakeFirst(roots[i..], models[i..], nodes);
    assert roots[i..][0] == roots[i] && models[i..][0] == models[i];
    assert roots[i..][1..] == roots[i + 1..] && models[i..][1..] == models[i + 1..];
  }

  lemma CoalesceKidsStep(kids: seq<Trie>, i: nat)
    requires i < |kids|
    ensures CoalesceKids(kids[..i + 1]) == DictPut(CoalesceKids(kids[..i]), KeywordTrie.Coalesce(kids[i]))
  {
    assert kids[..i + 1][..i] == kids[..i];
  }

  lemma TakeFirst(roots: seq<TrieNode>, models: seq<Trie>, nodes: set<TrieNode>)
    requires Forest(roots, models, nodes) && roots != []
    ensures Forest(roots[1..], models[1..], nodes - roots[0].Repr)
  {
  }

  /** Dictionary assignment on nodes. */
  method PutNode(roots: seq<TrieNode>, ghost models: seq<Trie>, ghost nodes: set<TrieNode>, t: TrieNode)
    returns (r: seq<TrieNode>)
    requires Forest(roots, models, nodes) && t.Valid() && t.Repr !! nodes
    ensures Forest(r, DictPut(models, t.model), nodes + t.Repr)
  {
    var i := IndexOfPrefix(roots, t.prefix);
    ForestPrefixes(roots, models, nodes);
    KidIndexUnique(models, t.prefix, i);
    r := if i < |roots| then roots[i := t] else roots + [t];
  }

  method IndexOfPrefix(nodes: seq<TrieNode>, p: string) returns (i: nat)
    ensures i <= |nodes| && (i < |nodes| ==> nodes[i].prefix == p)
    ensures forall j | 0 <= j < i :: nodes[j].prefix != p
  {
    i := 0;
    while i < |nodes| && nodes[i].prefix != p
      invariant i <= |nodes| && forall j | 0 <= j < i :: nodes[j].prefix != p
    {
      i := i + 1;
    }
  }

  /** Insertion, once the kid it goes to is there. */
  lemma InsertByKid(t: Trie, extended: Trie, key: string, value: Token, i: nat)
    requires key != "" && i == KidIndex(t.kids, key[..1])
    requires extended == t.(kids := t.kids + if i < |t.kids| then [] else [EmptyTrie(key[..1])])
    ensures i < |extended.kids|
    ensures KeywordTrie.Insert(t, key, value)
            == extended.(kids := extended.kids[i := KeywordTrie.Insert(extended.kids[i], key[1..], value)])
  {
    if i == |t.kids| {
      InsertNewKid(t, extended, key, value, i);
    } else {
      assert extended.kids == t.kids;
    }
  }

  lemma InsertNewKid(t: Trie, extended: Trie, key: string, value: Token, i: nat)
    requires key != "" && i == KidIndex(t.kids, key[..1]) == |t.kids|
    requires extended == t.(kids := t.kids + [EmptyTrie(key[..1])])
    ensures KeywordTrie.Insert(t, key, value)
            == extended.(kids := extended.kids[i := KeywordTrie.Insert(extended.kids[i], key[1..], value)])
  {
    var kid := KeywordTrie.Insert(EmptyTrie(key[..1]), key[1..], value);
    assert extended.kids[i] == EmptyTrie(key[..1]);
    assert extended.kids[i := kid] == t.kids + [kid];
  }

  lemma KidIndexUnique(kids: seq<Trie>, p: string, i: nat)
    requires i <= |kids| && (i < |kids| ==> kids[i].prefix == p)
    requires forall j | 0 <= j < i :: kids[j].prefix != p
    ensures KidIndex(kids, p) == i
  {
  }
}

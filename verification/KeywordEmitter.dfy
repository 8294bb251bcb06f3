/**
 * Filling out the coalesced trie: full prefixes, weights, and siblings in the order of their
 * weights, none of which changes what a string is looked up to.
 */
module KeywordEmitter {
  import opened Wrappers
  import opened KeywordTrie

  // ----- weighing and ordering -----

  /** A node after fillOut; `kids` is now the sorted list. */
  datatype Filled = Filled(
    prefix: string, fullPrefix: string, selfWeight: real, weight: real, kids: seq<Filled>, value: Option<Token>)

  /** Every kid's full prefix continues its parent's. */
  ghost predicate Addressed(f: Filled)
    decreases f
  {
    forall i | 0 <= i < |f.kids| :: f.kids[i].fullPrefix == f.fullPrefix + f.kids[i].prefix && Addressed(f.kids[i])
  }

  function SelfWeight(weights: map<string, real>, w: string): real {
    if w in weights then weights[w] else 0.0
  }

  function SumWeights(kids: seq<Filled>): real {
    if kids == [] then 0.0 else SumWeights(kids[..|kids| - 1]) + kids[|kids| - 1].weight
  }

  function FillOut(t: Trie, before: string, weights: map<string, real>): Filled
    decreases t, 1
  {
    var full := before + t.prefix;
    var kids := FillOutKids(t.kids, full, weights);
    Filled(t.prefix, full, SelfWeight(weights, full), SelfWeight(weights, full) + SumWeights(kids),
           SortByWeight(kids), t.value)
  }

  function FillOutKids(kids: seq<Trie>, full: string, weights: map<string, real>): (r: seq<Filled>)
    ensures |r| == |kids|
    ensures forall i {:trigger r[i]} | 0 <= i < |kids| :: r[i] == FillOut(kids[i], full, weights)
    decreases kids, 0
  {
    if kids == [] then []
    else FillOutKids(kids[..|kids| - 1], full, weights) + [FillOut(kids[|kids| - 1], full, weights)]
  }

  /** Python's sorted(..., reverse=True): heaviest first, ties in their original order. */
  function SortByWeight(s: seq<Filled>): (r: seq<Filled>)
    ensures forall x | x in r :: x in s
  {
    if s == [] then [] else InsertByWeight(SortByWeight(s[..|s| - 1]), s[|s| - 1])
  }

  function InsertByWeight(s: seq<Filled>, x: Filled): (r: seq<Filled>)
    ensures forall y | y in r :: y in s || y == x
  {
    if s == [] || s[|s| - 1].weight >= x.weight then s + [x]
    else InsertByWeight(s[..|s| - 1], x) + [s[|s| - 1]]
  }

  ghost predicate NonIncreasing(s: seq<Filled>) {
    forall i, j | 0 <= i < j < |s| :: s[i].weight >= s[j].weight
  }

  /** The elements of weight `c`, in order. */
  function OfWeight(s: seq<Filled>, c: real): seq<Filled> {
    if s == [] then []
    else OfWeight(s[..|s| - 1], c) + if s[|s| - 1].weight == c then [s[|s| - 1]] else []
  }

  lemma {:induction false} InsertElements(s: seq<Filled>, x: Filled)
    ensures multiset(InsertByWeight(s, x)) == multiset(s) + multiset{x}
    ensures |InsertByWeight(s, x)| == |s| + 1
    ensures forall y :: y in InsertByWeight(s, x) <==> y in s || y == x
  {
    if !(s == [] || s[|s| - 1].weight >= x.weight) {
      var init, last := s[..|s| - 1], s[|s| - 1];
      assert s == init + [last];
      InsertElements(init, x);
    }
  }

  lemma {:induction false} InsertKeepsOrder(s: seq<Filled>, x: Filled)
    requires NonIncreasing(s)
    ensures NonIncreasing(InsertByWeight(s, x))
  {
    if !(s == [] || s[|s| - 1].weight >= x.weight) {
      var init, last := s[..|s| - 1], s[|s| - 1];
      InsertKeepsOrder(init, x);
      InsertElements(init, x);
      var r := InsertByWeight(init, x);
      forall i | 0 <= i < |r| ensures r[i].weight >= last.weight {
        assert r[i] in r;
      }
    }
  }

  lemma OfWeightAppend(s: seq<Filled>, x: Filled, c: real)
    ensures OfWeight(s + [x], c) == OfWeight(s, c) + if x.weight == c then [x] else []
  {
    assert (s + [x])[..|s|] == s;
  }

  /** A node goes behind the earlier ones of its weight, and the others keep their order. */
  lemma {:induction false} InsertIsStable(s: seq<Filled>, x: Filled, c: real)
    ensures OfWeight(InsertByWeight(s, x), c) == OfWeight(s, c) + if x.weight == c then [x] else []
    decreases |s|
  {
    if s == [] || s[|s| - 1].weight >= x.weight {
      OfWeightAppend(s, x, c);
    } else {
      var init, last := s[..|s| - 1], s[|s| - 1];
      InsertIsStable(init, x, c);
      OfWeightAppend(InsertByWeight(init, x), last, c);
      assert s == init + [last];
      OfWeightAppend(init, last, c);
      OnlyOneOfWeight(OfWeight(init, c), x, last, c);
    }
  }

  /** Two nodes of different weights: at most one of them has the weight `c`. */
  lemma OnlyOneOfWeight(s: seq<Filled>, x: Filled, y: Filled, c: real)
    requires x.weight != y.weight
    ensures var a, b := if x.weight == c then [x] else [], if y.weight == c then [y] else [];
            s + a + b == s + b + a
  {
  }

  lemma {:induction false} SortIsOrdered(s: seq<Filled>)
    ensures NonIncreasing(SortByWeight(s))
    decreases |s|
  {
    if s != [] {
      SortIsOrdered(s[..|s| - 1]);
      InsertKeepsOrder(SortByWeight(s[..|s| - 1]), s[|s| - 1]);
    }
  }

  lemma {:induction false} SortIsPermutation(s: seq<Filled>)
    ensures multiset(SortByWeight(s)) == multiset(s)
    decreases |s|
  {
    if s != [] {
      var init, last := s[..|s| - 1], s[|s| - 1];
      SortIsPermutation(init);
      InsertElements(SortByWeight(init), last);
      assert s == init + [last];
    }
  }

  /** The ordering fillOut applies is a stable, non-increasing rearrangement of the kids. */
  lemma {:induction false} SortByWeightSpec(s: seq<Filled>, c: real)
    ensures NonIncreasing(SortByWeight(s))
    ensures multiset(SortByWeight(s)) == multiset(s)
    ensures OfWeight(SortByWeight(s), c) == OfWeight(s, c)
  {
    SortIsOrdered(s);
    SortIsPermutation(s);
    SortIsStable(s, c);
  }

  lemma {:induction false} SortIsStable(s: seq<Filled>, c: real)
    ensures OfWeight(SortByWeight(s), c) == OfWeight(s, c)
    decreases |s|
  {
    if s != [] {
      SortIsStable(s[..|s| - 1], c);
      InsertIsStable(SortByWeight(s[..|s| - 1]), s[|s| - 1], c);
    }
  }

  /** The self weights of a node and everything below it. */
  function SubtreeSelfWeight(f: Filled): real
    decreases f, 1
  {
    f.selfWeight + KidsSelfWeight(f.kids)
  }

  function KidsSelfWeight(kids: seq<Filled>): real
    decreases kids, 0
  {
    if kids == [] then 0.0 else KidsSelfWeight(kids[..|kids| - 1]) + SubtreeSelfWeight(kids[|kids| - 1])
  }

  lemma {:induction false} InsertKeepsSelfWeight(s: seq<Filled>, x: Filled)
    ensures KidsSelfWeight(InsertByWeight(s, x)) == KidsSelfWeight(s) + SubtreeSelfWeight(x)
  {
    if s == [] || s[|s| - 1].weight >= x.weight {
      assert (s + [x])[..|s|] == s;
    } else {
      InsertKeepsSelfWeight(s[..|s| - 1], x);
      var r := InsertByWeight(s[..|s| - 1], x);
      assert InsertByWeight(s, x)[..|r|] == r;
    }
  }

  lemma {:induction false} SortKeepsSelfWeight(s: seq<Filled>)
    ensures KidsSelfWeight(SortByWeight(s)) == KidsSelfWeight(s)
  {
    if s != [] {
      SortKeepsSelfWeight(s[..|s| - 1]);
      InsertKeepsSelfWeight(SortByWeight(s[..|s| - 1]), s[|s| - 1]);
    }
  }

  /** fillOut stores in every node the sum of the self weights of its subtree. */
  lemma {:induction false} WeightIsSubtreeSum(t: Trie, before: string, weights: map<string, real>)
    ensures FillOut(t, before, weights).weight == SubtreeSelfWeight(FillOut(t, before, weights))
    decreases t, 1
  {
    var kids := FillOutKids(t.kids, before + t.prefix, weights);
    KidsWeightIsSum(t.kids, before + t.prefix, weights);
    SortKeepsSelfWeight(kids);
  }

  lemma {:induction false} KidsWeightIsSum(kids: seq<Trie>, full: string, weights: map<string, real>)
    ensures SumWeights(FillOutKids(kids, full, weights)) == KidsSelfWeight(FillOutKids(kids, full, weights))
    decreases kids, 0
  {
    if kids != [] {
      KidsWeightIsSum(kids[..|kids| - 1], full, weights);
      WeightIsSubtreeSum(kids[|kids| - 1], full, weights);
      var r := FillOutKids(kids, full, weights);
      assert r[..|kids| - 1] == FillOutKids(kids[..|kids| - 1], full, weights);
    }
  }

  /** The weights that the table gives to the full prefixes of a node and of everything below it. */
  function WeightBelow(f: Filled, weights: map<string, real>): real
    decreases f, 1
  {
    (if f.fullPrefix in weights then weights[f.fullPrefix] else 0.0) + WeightOfKids(f.kids, weights)
  }

  function WeightOfKids(kids: seq<Filled>, weights: map<string, real>): real
    decreases kids, 0
  {
    if kids == [] then 0.0
    else WeightOfKids(kids[..|kids| - 1], weights) + WeightBelow(kids[|kids| - 1], weights)
  }

  /** At every node no sibling weighs less than a later one. */
  ghost predicate HeaviestFirst(f: Filled, weights: map<string, real>)
    decreases f
  {
    && (forall i, j | 0 <= i < j < |f.kids| :: WeightBelow(f.kids[i], weights) >= WeightBelow(f.kids[j], weights))
    && (forall i | 0 <= i < |f.kids| :: HeaviestFirst(f.kids[i], weights))
  }

  /** Every node of the subtree holds the weight that the table gives to its full prefix. */
  ghost predicate Weighed(f: Filled, weights: map<string, real>)
    decreases f
  {
    && f.selfWeight == (if f.fullPrefix in weights then weights[f.fullPrefix] else 0.0)
    && (forall i | 0 <= i < |f.kids| :: Weighed(f.kids[i], weights))
  }

  lemma {:induction false} WeighedSum(f: Filled, weights: map<string, real>)
    requires Weighed(f, weights)
    ensures WeightBelow(f, weights) == SubtreeSelfWeight(f)
    decreases f, 1
  {
    WeighedKidsSum(f.kids, weights);
  }

  lemma {:induction false} WeighedKidsSum(kids: seq<Filled>, weights: map<string, real>)
    requires forall i | 0 <= i < |kids| :: Weighed(kids[i], weights)
    ensures WeightOfKids(kids, weights) == KidsSelfWeight(kids)
    decreases kids, 0
  {
    if kids != [] {
      WeighedKidsSum(kids[..|kids| - 1], weights);
      WeighedSum(kids[|kids| - 1], weights);
    }
  }

  /** The kid of a filled-out node is the filled-out form of one of the node's kids. */
  lemma KidIsFilledOut(t: Trie, before: string, weights: map<string, real>, i: nat) returns (k: nat)
    requires i < |FillOut(t, before, weights).kids|
    ensures k < |t.kids| && FillOut(t, before, weights).kids[i] == FillOut(t.kids[k], before + t.prefix, weights)
  {
    var kids := FillOutKids(t.kids, before + t.prefix, weights);
    var f := FillOut(t, before, weights);
    SortHasSameElements(kids);
    assert f.kids[i] in kids;
    k :| 0 <= k < |kids| && kids[k] == f.kids[i];
  }

  lemma {:induction false} FillOutWeighs(t: Trie, before: string, weights: map<string, real>)
    ensures Weighed(FillOut(t, before, weights), weights)
    decreases t
  {
    var f := FillOut(t, before, weights);
    forall i | 0 <= i < |f.kids| ensures Weighed(f.kids[i], weights) {
      var k := KidIsFilledOut(t, before, weights, i);
      FillOutWeighs(t.kids[k], before + t.prefix, weights);
    }
  }

  lemma StoredWeight(t: Trie, before: string, weights: map<string, real>)
    ensures FillOut(t, before, weights).weight == WeightBelow(FillOut(t, before, weights), weights)
  {
    WeightIsSubtreeSum(t, before, weights);
    FillOutWeighs(t, before, weights);
    WeighedSum(FillOut(t, before, weights), weights);
  }

  lemma KidWeight(t: Trie, before: string, weights: map<string, real>, i: nat)
    requires i < |FillOut(t, before, weights).kids|
    ensures var kid := FillOut(t, before, weights).kids[i]; kid.weight == WeightBelow(kid, weights)
  {
    var k := KidIsFilledOut(t, before, weights, i);
    StoredWeight(t.kids[k], before + t.prefix, weights);
  }

  /** Filling out puts the siblings that weigh most, by the table of weights, first. */
  lemma {:induction false} FillOutHeaviestFirst(t: Trie, before: string, weights: map<string, real>)
    ensures HeaviestFirst(FillOut(t, before, weights), weights)
    decreases t
  {
    var f := FillOut(t, before, weights);
    SortIsOrdered(FillOutKids(t.kids, before + t.prefix, weights));
    forall i, j | 0 <= i < j < |f.kids| ensures WeightBelow(f.kids[i], weights) >= WeightBelow(f.kids[j], weights) {
      KidWeight(t, before, weights, i);
      KidWeight(t, before, weights, j);
    }
    forall i | 0 <= i < |f.kids| ensures HeaviestFirst(f.kids[i], weights) {
      var k := KidIsFilledOut(t, before, weights, i);
      FillOutHeaviestFirst(t.kids[k], before + t.prefix, weights);
    }
  }

  // ----- a filled node still denotes the same words -----

  function Strip(f: Filled): Trie
    decreases f, 1
  {
    Trie(f.prefix, StripAll(f.kids), f.value)
  }

  function StripAll(kids: seq<Filled>): (r: seq<Trie>)
    ensures |r| == |kids|
    ensures forall i | 0 <= i < |kids| :: r[i] == Strip(kids[i])
    decreases kids, 0
  {
    if kids == [] then [] else StripAll(kids[..|kids| - 1]) + [Strip(kids[|kids| - 1])]
  }

  lemma {:induction false} SortHasSameElements(s: seq<Filled>)
    ensures |SortByWeight(s)| == |s|
    ensures forall x :: x in SortByWeight(s) <==> x in s
  {
    if s != [] {
      SortHasSameElements(s[..|s| - 1]);
      InsertElements(SortByWeight(s[..|s| - 1]), s[|s| - 1]);
      assert s == s[..|s| - 1] + [s[|s| - 1]];
    }
  }

  lemma {:induction false} FillOutAddresses(t: Trie, before: string, weights: map<string, real>)
    ensures Addressed(FillOut(t, before, weights))
    decreases t
  {
    var f := FillOut(t, before, weights);
    var kids := FillOutKids(t.kids, before + t.prefix, weights);
    forall i | 0 <= i < |f.kids|
      ensures f.kids[i].fullPrefix == f.fullPrefix + f.kids[i].prefix && Addressed(f.kids[i])
    {
      assert f.kids[i] in kids;
      var k :| 0 <= k < |kids| && kids[k] == f.kids[i];
      FillOutAddresses(t.kids[k], before + t.prefix, weights);
    }
  }

  lemma {:induction false} FillOutMeaning(t: Trie, before: string, weights: map<string, real>)
    requires WellFormed(t)
    ensures WellFormed(Strip(FillOut(t, before, weights)))
    ensures forall w :: Lookup(Strip(FillOut(t, before, weights)), w) == Lookup(t, w)
    decreases t
  {
    var f := FillOut(t, before, weights);
    var kids := FillOutKids(t.kids, before + t.prefix, weights);
    forall i | 0 <= i < |t.kids|
      ensures WellFormed(Strip(kids[i]))
      ensures forall w :: Lookup(Strip(kids[i]), w) == Lookup(t.kids[i], w)
    {
      FillOutMeaning(t.kids[i], before + t.prefix, weights);
    }
    SortKeepsDistinctFirst(t.kids, kids);
    SortKeepsWellFormed(kids);
    forall w ensures Lookup(Strip(f), w) == Lookup(t, w) {
      ReorderedMeaning(t, kids, Strip(f), w);
    }
  }

  lemma SortKeepsWellFormed(kids: seq<Filled>)
    requires forall i | 0 <= i < |kids| :: WellFormed(Strip(kids[i]))
    ensures forall i | 0 <= i < |SortByWeight(kids)| :: WellFormed(Strip(SortByWeight(kids)[i]))
  {
    forall i | 0 <= i < |SortByWeight(kids)| ensures WellFormed(Strip(SortByWeight(kids)[i])) {
      assert SortByWeight(kids)[i] in kids;
    }
  }

  /** The siblings differ in their first characters from `x`. */
  ghost predicate DiffersFrom(s: seq<Filled>, x: Filled) {
    x.prefix != "" && forall i | 0 <= i < |s| :: s[i].prefix != "" && s[i].prefix[0] != x.prefix[0]
  }

  lemma DistinctAppend(s: seq<Filled>, x: Filled)
    ensures DistinctFirst(StripAll(s + [x])) <==> DistinctFirst(StripAll(s)) && DiffersFrom(s, x)
  {
    var a, b := StripAll(s), StripAll(s + [x]);
    assert forall i | 0 <= i < |s| :: b[i].prefix == s[i].prefix && a[i].prefix == s[i].prefix;
    assert b[|s|].prefix == x.prefix;
  }

  lemma DiffersFromElements(s: seq<Filled>, t: seq<Filled>, x: Filled)
    requires DiffersFrom(s, x) && forall y | y in t :: y in s
    ensures DiffersFrom(t, x)
  {
    forall i | 0 <= i < |t| ensures t[i].prefix != "" && t[i].prefix[0] != x.prefix[0] {
      assert t[i] in s;
    }
  }

  lemma {:induction false} InsertKeepsDistinct(s: seq<Filled>, x: Filled)
    requires DistinctFirst(StripAll(s)) && DiffersFrom(s, x)
    ensures DistinctFirst(StripAll(InsertByWeight(s, x)))
    decreases |s|
  {
    if s == [] || s[|s| - 1].weight >= x.weight {
      DistinctAppend(s, x);
    } else {
      var init, last := s[..|s| - 1], s[|s| - 1];
      assert s == init + [last];
      DistinctAppend(init, last);
      InsertKeepsDistinct(init, x);
      assert DiffersFrom(init + [x], last);
      InsertElements(init, x);
      DiffersFromElements(init + [x], InsertByWeight(init, x), last);
      DistinctAppend(InsertByWeight(init, x), last);
    }
  }

  lemma {:induction false} SortKeepsDistinct(s: seq<Filled>)
    requires DistinctFirst(StripAll(s))
    ensures DistinctFirst(StripAll(SortByWeight(s)))
    decreases |s|
  {
    if s != [] {
      var init, last := s[..|s| - 1], s[|s| - 1];
      assert s == init + [last];
      DistinctAppend(init, last);
      SortKeepsDistinct(init);
      SortHasSameElements(init);
      DiffersFromElements(init, SortByWeight(init), last);
      InsertKeepsDistinct(SortByWeight(init), last);
    }
  }

  lemma SortKeepsDistinctFirst(before: seq<Trie>, kids: seq<Filled>)
    requires DistinctFirst(before) && |kids| == |before|
    requires forall i | 0 <= i < |kids| :: kids[i].prefix == before[i].prefix
    ensures DistinctFirst(StripAll(SortByWeight(kids)))
  {
    SortKeepsDistinct(kids);
  }

  /** Reordering siblings that differ in their first characters changes no lookup. */
  lemma {:induction false} ReorderedMeaning(t: Trie, kids: seq<Filled>, r: Trie, w: string)
    requires DistinctFirst(t.kids) && DistinctFirst(r.kids) && r.value == t.value
    requires |kids| == |t.kids| && forall i | 0 <= i < |kids| :: kids[i].prefix == t.kids[i].prefix
    requires forall i, u | 0 <= i < |kids| :: Lookup(Strip(kids[i]), u) == Lookup(t.kids[i], u)
    requires r.kids == StripAll(SortByWeight(kids))
    ensures Lookup(r, w) == Lookup(t, w)
  {
    if w != "" {
      SortHasSameElements(kids);
      ReorderedChoice(t, kids, SortByWeight(kids), r, w[0]);
      LookupByKid(t, w);
      LookupByKid(r, w);
      var a, b := FirstCharIndex(t.kids, w[0]), FirstCharIndex(r.kids, w[0]);
      if a < |kids| { SameLookupFrom(t.kids[a], kids[a], w); }
    }
  }

  lemma SameLookupFrom(t: Trie, f: Filled, w: string)
    requires t.prefix == f.prefix && forall u :: Lookup(Strip(f), u) == Lookup(t, u)
    ensures LookupFrom(Strip(f), w) == LookupFrom(t, w)
  {
  }

  /** The sibling that a character selects is the same before and after reordering. */
  lemma ReorderedChoice(t: Trie, kids: seq<Filled>, sorted: seq<Filled>, r: Trie, c: char)
    requires DistinctFirst(t.kids) && DistinctFirst(r.kids)
    requires |kids| == |t.kids| && forall i | 0 <= i < |kids| :: kids[i].prefix == t.kids[i].prefix
    requires r.kids == StripAll(sorted) && forall k :: k in sorted <==> k in kids
    ensures var a, b := FirstCharIndex(t.kids, c), FirstCharIndex(r.kids, c);
            (a < |kids| <==> b < |sorted|) && (a < |kids| ==> sorted[b] == kids[a])
  {
    var a, b := FirstCharIndex(t.kids, c), FirstCharIndex(r.kids, c);
    if a < |kids| {
      assert kids[a] in sorted;
      var j :| 0 <= j < |sorted| && sorted[j] == kids[a];
      assert StartsWith(r.kids[j], c);
      assert b == j;
    }
    if b < |sorted| {
      assert sorted[b] in kids;
      var j :| 0 <= j < |kids| && kids[j] == sorted[b];
      assert StartsWith(t.kids[j], c);
    }
  }
}

/**
 * The keyword trie of the lexer generator: insertion of keywords, path compression, and the
 * word-to-token map a trie denotes.
 */
module KeywordTrie {
  import opened Wrappers

  type Token = string

  /**
   * One trie node. `kids` is the node's dictionary in iteration order. The dictionary key of
   * a kid is always the kid's own `prefix`, so it is not stored a second time.
   */
  datatype Trie = Trie(prefix: string, kids: seq<Trie>, value: Option<Token>)

  function EmptyTrie(prefix: string): Trie {
    Trie(prefix, [], None)
  }

  // ----- dictionary access -----

  /** The position of the entry with key `p`, or |kids| when there is none. */
  function KidIndex(kids: seq<Trie>, p: string): (i: nat)
    ensures i <= |kids|
    ensures i < |kids| ==> kids[i].prefix == p
    ensures forall j | 0 <= j < i :: kids[j].prefix != p
  {
    if kids == [] then 0
    else if kids[0].prefix == p then 0
    else 1 + KidIndex(kids[1..], p)
  }

  /** Dictionary assignment: an existing key keeps its position, a new key goes last. */
  function DictPut(kids: seq<Trie>, t: Trie): seq<Trie> {
    var i := KidIndex(kids, t.prefix);
    if i < |kids| then kids[i := t] else kids + [t]
  }

  /** The position of the first entry whose key starts with `c`, or |kids|. */
  function FirstCharIndex(kids: seq<Trie>, c: char): (i: nat)
    ensures i <= |kids|
    ensures i < |kids| ==> StartsWith(kids[i], c)
    ensures forall j | 0 <= j < i :: !StartsWith(kids[j], c)
  {
    if kids == [] then 0
    else if StartsWith(kids[0], c) then 0
    else 1 + FirstCharIndex(kids[1..], c)
  }

  predicate StartsWith(t: Trie, c: char) {
    t.prefix != "" && t.prefix[0] == c
  }

  // ----- operations -----

  function Insert(t: Trie, key: string, value: Token): Trie
    decreases |key|
  {
    if key == "" then
      t.(value := Some(value))
    else
      var i := KidIndex(t.kids, key[..1]);
      if i < |t.kids| then
        t.(kids := t.kids[i := Insert(t.kids[i], key[1..], value)])
      else
        t.(kids := t.kids + [Insert(EmptyTrie(key[..1]), key[1..], value)])
  }

  function InsertAll(t: Trie, table: seq<(string, Token)>): Trie {
    if table == [] then t
    else
      var last := table[|table| - 1];
      Insert(InsertAll(t, table[..|table| - 1]), last.0, last.1)
  }

  /** The dictionary that `coalesce` rebuilds from its coalesced kids. */
  function CoalesceKids(kids: seq<Trie>): seq<Trie>
    decreases kids, 0
  {
    if kids == [] then []
    else
      var last := |kids| - 1;
      DictPut(CoalesceKids(kids[..last]), Coalesce(kids[last]))
  }

  /** What `coalesce` leaves in the node it was called on. */
  function CoalesceNode(t: Trie): Trie
    decreases t, 0
  {
    t.(kids := CoalesceKids(t.kids))
  }

  /** What `coalesce` returns: the node itself, or its only kid with a longer prefix. */
  function Coalesce(t: Trie): Trie
    decreases t, 1
  {
    var s := CoalesceNode(t);
    if s.value.Some? || |s.kids| != 1 then s
    else Trie(s.prefix + s.kids[0].prefix, s.kids[0].kids, s.kids[0].value)
  }

  // ----- meaning -----

  /** The token a trie gives to the word `w`, where `w` starts after the node's own prefix. */
  function Lookup(t: Trie, w: string): Option<Token>
    decreases t
  {
    if w == "" then t.value
    else
      var i := FirstCharIndex(t.kids, w[0]);
      if i < |t.kids| && t.kids[i].prefix <= w then
        Lookup(t.kids[i], w[|t.kids[i].prefix|..])
      else None
  }

  /** As Lookup, for a word that still has to spell the node's own prefix. */
  function LookupFrom(t: Trie, w: string): Option<Token> {
    if t.prefix <= w then Lookup(t, w[|t.prefix|..]) else None
  }

  /** The map a keyword table stands for: a later line for the same word wins. */
  function TableMap(table: seq<(string, Token)>): map<string, Token> {
    if table == [] then map[]
    else
      var last := table[|table| - 1];
      TableMap(table[..|table| - 1])[last.0 := last.1]
  }

  function MapGet(m: map<string, Token>, w: string): Option<Token> {
    if w in m then Some(m[w]) else None
  }

  // ----- shape -----

  ghost predicate DistinctFirst(kids: seq<Trie>) {
    && (forall i | 0 <= i < |kids| :: kids[i].prefix != "")
    && (forall i, j | 0 <= i < j < |kids| :: kids[i].prefix[0] != kids[j].prefix[0])
  }

  /** Siblings have non-empty prefixes that differ in their first character, at every node. */
  ghost predicate WellFormed(t: Trie)
    decreases t
  {
    && DistinctFirst(t.kids)
    && (forall i | 0 <= i < |t.kids| :: WellFormed(t.kids[i]))
  }

  /** A trie before compression: every edge is one character and every leaf has a value. */
  ghost predicate Uncompressed(t: Trie)
    decreases t
  {
    && (forall i | 0 <= i < |t.kids| :: |t.kids[i].prefix| == 1 && Uncompressed(t.kids[i]))
    && (forall i | 0 <= i < |t.kids| :: t.kids[i].value.Some? || t.kids[i].kids != [])
  }

  /** No node below the root is without a value and with exactly one kid. */
  ghost predicate Compressed(t: Trie)
    decreases t
  {
    forall i | 0 <= i < |t.kids| ::
      && (t.kids[i].value.Some? || |t.kids[i].kids| >= 2)
      && Compressed(t.kids[i])
  }

  // ----- insertion builds the table's map -----

  lemma {:induction false} InsertMeaning(t: Trie, key: string, value: Token)
    requires WellFormed(t) && Uncompressed(t)
    ensures WellFormed(Insert(t, key, value)) && Uncompressed(Insert(t, key, value))
    ensures Insert(t, key, value).prefix == t.prefix
    ensures Insert(t, key, value).value.Some? || Insert(t, key, value).kids != []
    ensures forall w :: Lookup(Insert(t, key, value), w) == if w == key then Some(value) else Lookup(t, w)
    decreases |key|
  {
    if key != "" {
      var i := KidIndex(t.kids, key[..1]);
      var kid := if i < |t.kids| then t.kids[i] else EmptyTrie(key[..1]);
      InsertMeaning(kid, key[1..], value);
      var r := Insert(t, key, value);
      var newKid := Insert(kid, key[1..], value);
      assert r.kids == if i < |t.kids| then t.kids[i := newKid] else t.kids + [newKid];
      InsertedShape(t, r, i, key[..1], newKid);
      forall w ensures Lookup(r, w) == if w == key then Some(value) else Lookup(t, w) {
        if w != "" {
          assert key == kid.prefix + key[1..];
          ReplacedKidMeaning(t, r, i, kid, newKid, key, value, w);
        }
      }
    }
  }

  /** What well-formed uncompressed tries ask of every kid. */
  ghost predicate RawKid(kid: Trie) {
    WellFormed(kid) && Uncompressed(kid) && |kid.prefix| == 1 && (kid.value.Some? || kid.kids != [])
  }

  lemma ShapeByKids(t: Trie)
    ensures WellFormed(t) && Uncompressed(t)
            <==> DistinctFirst(t.kids) && forall i | 0 <= i < |t.kids| :: RawKid(t.kids[i])
  {
  }

  lemma InsertedShape(t: Trie, r: Trie, i: nat, c: string, newKid: Trie)
    requires WellFormed(t) && Uncompressed(t) && RawKid(newKid) && newKid.prefix == c
    requires i == KidIndex(t.kids, c)
    requires r.kids == if i < |t.kids| then t.kids[i := newKid] else t.kids + [newKid]
    ensures WellFormed(r) && Uncompressed(r)
  {
    ShapeByKids(t);
    InsertedKids(t.kids, r.kids, i, c, newKid);
    ShapeByKids(r);
  }

  lemma InsertedKids(kids: seq<Trie>, more: seq<Trie>, i: nat, c: string, newKid: Trie)
    requires DistinctFirst(kids) && RawKid(newKid) && newKid.prefix == c && i == KidIndex(kids, c)
    requires forall j | 0 <= j < |kids| :: RawKid(kids[j])
    requires more == if i < |kids| then kids[i := newKid] else kids + [newKid]
    ensures DistinctFirst(more) && forall j | 0 <= j < |more| :: RawKid(more[j])
  {
    KidIndexFinds(kids, c, i);
    if i == |kids| { NewFirst(kids, c, newKid); }
  }

  lemma KidIndexFinds(kids: seq<Trie>, c: string, i: nat)
    requires i == KidIndex(kids, c)
    ensures i <= |kids| && (i < |kids| ==> kids[i].prefix == c) && forall j | 0 <= j < i :: kids[j].prefix != c
  {
  }

  lemma NewFirst(kids: seq<Trie>, c: string, newKid: Trie)
    requires DistinctFirst(kids) && (forall j | 0 <= j < |kids| :: |kids[j].prefix| == 1 && kids[j].prefix != c)
    requires |c| == 1 && newKid.prefix == c
    ensures DistinctFirst(kids + [newKid])
  {
    forall j | 0 <= j < |kids| ensures kids[j].prefix[0] != c[0] {
      assert kids[j].prefix == [kids[j].prefix[0]] && c == [c[0]];
    }
  }

  /** One step of a lookup after an insertion, given that the insertion is right one level down. */
  lemma {:induction false} ReplacedKidMeaning(
    t: Trie, r: Trie, i: nat, kid: Trie, newKid: Trie, key: string, value: Token, w: string)
    requires DistinctFirst(t.kids) && DistinctFirst(r.kids) && w != ""
    requires i <= |t.kids| && r.kids == if i < |t.kids| then t.kids[i := newKid] else t.kids + [newKid]
    requires if i < |t.kids| then kid == t.kids[i] else kid.kids == [] && kid.value.None?
    requires |kid.prefix| == 1 && newKid.prefix == kid.prefix && key != "" && key == kid.prefix + key[1..]
    requires forall u :: Lookup(newKid, u) == if u == key[1..] then Some(value) else Lookup(kid, u)
    ensures Lookup(r, w) == if w == key then Some(value) else Lookup(t, w)
  {
    var a := FirstCharIndex(t.kids, w[0]);
    var b := FirstCharIndex(r.kids, w[0]);
    assert forall j | 0 <= j < |t.kids| && j != i :: r.kids[j] == t.kids[j];
    assert r.kids[i] == newKid;
    if w[0] == key[0] {
      assert StartsWith(r.kids[i], w[0]) && b == i;
      assert i < |t.kids| ==> StartsWith(t.kids[i], w[0]);
      assert a == i;
      assert w == [w[0]] + w[1..];
      assert Lookup(r, w) == Lookup(newKid, w[1..]);
    } else {
      assert w != key;
      assert !StartsWith(r.kids[i], w[0]);
      assert a < |t.kids| ==> StartsWith(r.kids[a], w[0]) && b == a;
    }
  }

  lemma {:induction false} InsertAllMeaning(table: seq<(string, Token)>)
    ensures var t := InsertAll(EmptyTrie(""), table);
            && WellFormed(t) && Uncompressed(t) && t.prefix == ""
            && forall w :: Lookup(t, w) == MapGet(TableMap(table), w)
  {
    if table != [] {
      var last := table[|table| - 1];
      InsertAllMeaning(table[..|table| - 1]);
      InsertMeaning(InsertAll(EmptyTrie(""), table[..|table| - 1]), last.0, last.1);
    }
  }

  // ----- coalescing preserves the map -----

  lemma {:induction false} CoalesceKidsKeepsEach(kids: seq<Trie>)
    requires DistinctFirst(kids)
    requires forall i | 0 <= i < |kids| :: kids[i].prefix <= Coalesce(kids[i]).prefix
    ensures |CoalesceKids(kids)| == |kids|
    ensures forall i | 0 <= i < |kids| :: CoalesceKids(kids)[i] == Coalesce(kids[i])
    ensures DistinctFirst(CoalesceKids(kids))
  {
    if kids != [] {
      var last := |kids| - 1;
      var init := kids[..last];
      CoalesceKidsKeepsEach(init);
      var done := CoalesceKids(init);
      forall j | 0 <= j < |done| ensures done[j].prefix != Coalesce(kids[last]).prefix {
        assert init[j] == kids[j];
        assert kids[j].prefix[0] == done[j].prefix[0];
      }
      assert CoalesceKids(kids) == done + [Coalesce(kids[last])];
      forall i | 0 <= i < |kids|
        ensures CoalesceKids(kids)[i] == Coalesce(kids[i])
        ensures CoalesceKids(kids)[i].prefix != "" && CoalesceKids(kids)[i].prefix[0] == kids[i].prefix[0]
      {
        if i < last { assert init[i] == kids[i]; }
      }
    }
  }

  lemma {:induction false} CoalesceMeaning(t: Trie)
    requires WellFormed(t)
    ensures WellFormed(Coalesce(t)) && WellFormed(CoalesceNode(t))
    ensures t.prefix <= Coalesce(t).prefix
    ensures |CoalesceNode(t).kids| == |t.kids|
    ensures forall i | 0 <= i < |t.kids| :: CoalesceNode(t).kids[i] == Coalesce(t.kids[i])
    ensures forall w :: Lookup(CoalesceNode(t), w) == Lookup(t, w)
    ensures forall w :: LookupFrom(Coalesce(t), w) == LookupFrom(t, w)
    decreases t
  {
    forall i | 0 <= i < |t.kids|
      ensures t.kids[i].prefix <= Coalesce(t.kids[i]).prefix
      ensures WellFormed(Coalesce(t.kids[i]))
      ensures forall w :: LookupFrom(Coalesce(t.kids[i]), w) == LookupFrom(t.kids[i], w)
    {
      CoalesceMeaning(t.kids[i]);
    }
    CoalesceKidsKeepsEach(t.kids);
    forall w ensures Lookup(CoalesceNode(t), w) == Lookup(t, w) {
      AgreeingKidsMeaning(t, CoalesceNode(t), w);
    }
    forall w ensures LookupFrom(Coalesce(t), w) == LookupFrom(t, w) {
      CoalesceReturnMeaning(t, w);
    }
  }

  /** Two nodes whose kids lead to the same words pairwise give every word the same token. */
  lemma {:induction false} AgreeingKidsMeaning(a: Trie, b: Trie, w: string)
    requires DistinctFirst(a.kids) && DistinctFirst(b.kids) && a.value == b.value
    requires |a.kids| == |b.kids|
    requires forall i | 0 <= i < |a.kids| :: a.kids[i].prefix <= b.kids[i].prefix
    requires forall i, u | 0 <= i < |a.kids| :: LookupFrom(b.kids[i], u) == LookupFrom(a.kids[i], u)
    ensures Lookup(b, w) == Lookup(a, w)
  {
    if w != "" {
      LookupByKid(a, w);
      LookupByKid(b, w);
      SameFirstIndex(a.kids, b.kids, w[0]);
    }
  }

  /** Merging a node with its only kid does not change which words the node leads to. */
  lemma CoalesceReturnMeaning(t: Trie, w: string)
    requires WellFormed(CoalesceNode(t))
    requires forall u :: Lookup(CoalesceNode(t), u) == Lookup(t, u)
    ensures LookupFrom(Coalesce(t), w) == LookupFrom(t, w)
  {
    var s := CoalesceNode(t);
    if s.value.None? && |s.kids| == 1 && t.prefix <= w {
      var u := w[|t.prefix|..];
      var kid := s.kids[0];
      assert w == t.prefix + u;
      assert Lookup(s, u) == LookupFrom(kid, u) by {
        if u != "" { LookupByKid(s, u); } else { assert !(kid.prefix <= u); }
      }
      assert Coalesce(t).prefix <= w <==> kid.prefix <= u;
      if kid.prefix <= u {
        assert w[|t.prefix + kid.prefix|..] == u[|kid.prefix|..];
      }
      SameLookup(Coalesce(t), kid, u[if kid.prefix <= u then |kid.prefix| else 0..]);
    }
  }

  /** A lookup depends on a node's kids and value only. */
  lemma SameLookup(a: Trie, b: Trie, w: string)
    requires a.kids == b.kids && a.value == b.value
    ensures Lookup(a, w) == Lookup(b, w)
  {
  }

  lemma LookupByKid(t: Trie, w: string)
    requires DistinctFirst(t.kids) && w != ""
    ensures var i := FirstCharIndex(t.kids, w[0]);
            Lookup(t, w) == if i < |t.kids| then LookupFrom(t.kids[i], w) else None
  {
  }

  lemma SameFirstIndex(a: seq<Trie>, b: seq<Trie>, c: char)
    requires |a| == |b|
    requires forall i | 0 <= i < |a| :: StartsWith(a[i], c) <==> StartsWith(b[i], c)
    ensures FirstCharIndex(a, c) == FirstCharIndex(b, c)
  {
  }

  lemma {:induction false} CoalesceCompresses(t: Trie)
    requires WellFormed(t) && Uncompressed(t)
    ensures Compressed(CoalesceNode(t))
    ensures Compressed(Coalesce(t))
    ensures t.value.Some? || t.kids != [] ==> Coalesce(t).value.Some? || |Coalesce(t).kids| >= 2
    decreases t
  {
    CoalesceMeaning(t);
    forall i | 0 <= i < |t.kids|
      ensures Compressed(Coalesce(t.kids[i]))
      ensures Coalesce(t.kids[i]).value.Some? || |Coalesce(t.kids[i]).kids| >= 2
    {
      CoalesceCompresses(t.kids[i]);
    }
  }
}

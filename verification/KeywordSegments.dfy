/**
 * Which keyword tables give a recogniser that compiles: comparison macros exist for at most
 * eight characters, and a segment of the coalesced trie is a stretch of a keyword along which
 * no keyword ends and no two keywords part.
 */
module KeywordSegments {
  import opened Wrappers
  import opened KeywordTrie
  import opened WideCompare
  import opened KeywordEmitter
  import opened KeywordRecogniser
  import opened KeywordGenerator

  // ----- the condition on the table -----

  /** A keyword ends at `u`, or two keywords go on from `u` with different characters. */
  ghost predicate Stops(words: iset<string>, u: string) {
    u in words || exists a, b | a in words && b in words :: u < a && u < b && a[|u|] != b[|u|]
  }

  /** After position `i`, the word `k` goes on for nine characters with no stop before the ninth. */
  ghost predicate LongRunAt(words: iset<string>, k: string, i: nat) {
    i + 9 <= |k| && forall j | i < j < i + 9 :: !Stops(words, k[..j])
  }

  ghost predicate RunStarts(words: iset<string>, k: string, i: nat, rootStops: bool) {
    i <= |k| && if i == 0 then rootStops else Stops(words, k[..i])
  }

  ghost predicate LongRun(words: iset<string>, rootStops: bool) {
    exists k: string, i: nat | k in words :: RunStarts(words, k, i, rootStops) && LongRunAt(words, k, i)
  }

  ghost function Keywords(table: seq<(string, Token)>): iset<string> {
    iset k | k in TableMap(table)
  }

  // ----- from the printed code to the raw trie -----

  ghost predicate SegmentsFit(t: Trie)
    decreases t
  {
    forall i | 0 <= i < |t.kids| :: |t.kids[i].prefix| <= 8 && SegmentsFit(t.kids[i])
  }

  lemma {:induction false} CompilesIffSegmentsFit(f: Filled)
    requires WellFormed(Strip(f)) && Addressed(f)
    ensures Compiles(PrintSubTree(f)) <==> SegmentsFit(Strip(f))
    decreases f
  {
    forall i | 0 <= i < |f.kids| ensures Compiles(PrintSubTree(f.kids[i])) <==> SegmentsFit(Strip(f.kids[i])) {
      assert Strip(f).kids[i] == Strip(f.kids[i]);
      CompilesIffSegmentsFit(f.kids[i]);
    }
    KidsHavePrefixes(f);
    CompilesByKids(f);
    StrippedSegments(Strip(f), f.kids);
  }

  lemma CompilesByKids(f: Filled)
    requires Addressed(f) && forall i | 0 <= i < |f.kids| :: f.kids[i].prefix != ""
    requires forall i | 0 <= i < |f.kids| :: Compiles(PrintSubTree(f.kids[i])) <==> SegmentsFit(Strip(f.kids[i]))
    ensures Compiles(PrintSubTree(f)) <==> KidsFit(f.kids)
  {
    var arms := PrintArms(f.fullPrefix, f.kids);
    ArmsPrinted(f.fullPrefix, f.kids);
    NodeCompiles(f, arms);
    ArmsFit(f.fullPrefix, f.kids, arms);
    ArmByArm(arms);
  }

  lemma KidsHavePrefixes(f: Filled)
    requires WellFormed(Strip(f))
    ensures forall i | 0 <= i < |f.kids| :: f.kids[i].prefix != ""
  {
    forall i | 0 <= i < |f.kids| ensures f.kids[i].prefix != "" {
      assert Strip(f).kids[i].prefix == f.kids[i].prefix;
    }
  }

  ghost predicate ArmCompiles(arm: Arm) {
    (arm.cond.Macro? ==> 2 <= |arm.cond.chars| <= 8) && Compiles(arm.body)
  }

  lemma ArmByArm(arms: seq<Arm>)
    ensures ArmsCompile(arms) <==> forall i | 0 <= i < |arms| :: ArmCompiles(arms[i])
  {
  }

  lemma ArmsFit(full: string, kids: seq<Filled>, arms: seq<Arm>)
    requires |arms| == |kids| && forall i | 0 <= i < |kids| :: kids[i].prefix != ""
    requires forall i | 0 <= i < |kids| :: kids[i].fullPrefix == full + kids[i].prefix && Addressed(kids[i])
    requires forall i | 0 <= i < |kids| :: arms[i] == Arm(ArmCond(|full|, kids[i]), PrintSubTree(kids[i]))
    requires forall i | 0 <= i < |kids| :: Compiles(PrintSubTree(kids[i])) <==> SegmentsFit(Strip(kids[i]))
    ensures forall i | 0 <= i < |kids| :: ArmCompiles(arms[i]) <==> KidFits(kids[i])
  {
    forall i | 0 <= i < |kids| ensures ArmCompiles(arms[i]) <==> KidFits(kids[i]) {
      ArmFits(full, kids, arms, i);
    }
  }

  lemma NodeCompiles(f: Filled, arms: seq<Arm>)
    requires Addressed(f) && arms == PrintArms(f.fullPrefix, f.kids)
    ensures Compiles(PrintSubTree(f)) <==> ArmsCompile(arms)
  {
    if f.kids != [] { assert PrintSubTree(f)[|PrintSubTree(f)| - 1] == Chain(arms); }
  }

  /** An arm compiles if and only if the kid's segment has a macro and the kid's code compiles. */
  lemma ArmFits(full: string, kids: seq<Filled>, arms: seq<Arm>, i: nat)
    requires i < |arms| == |kids| && kids[i].prefix != ""
    requires kids[i].fullPrefix == full + kids[i].prefix && Addressed(kids[i])
    requires arms[i] == Arm(ArmCond(|full|, kids[i]), PrintSubTree(kids[i]))
    requires Compiles(PrintSubTree(kids[i])) <==> SegmentsFit(Strip(kids[i]))
    ensures ArmCompiles(arms[i]) <==> KidFits(kids[i])
  {
  }

  lemma {:induction false} ArmsPrinted(full: string, kids: seq<Filled>)
    requires forall i | 0 <= i < |kids| :: kids[i].fullPrefix == full + kids[i].prefix && Addressed(kids[i])
    ensures forall i | 0 <= i < |kids| ::
              PrintArms(full, kids)[i] == Arm(ArmCond(|full|, kids[i]), PrintSubTree(kids[i]))
  {
    if kids != [] {
      ArmsPrinted(full, kids[1..]);
      forall i | 0 < i < |kids|
        ensures PrintArms(full, kids)[i] == Arm(ArmCond(|full|, kids[i]), PrintSubTree(kids[i]))
      {
        assert kids[i] == kids[1..][i - 1];
        assert PrintArms(full, kids)[i] == PrintArms(full, kids[1..])[i - 1];
      }
    }
  }

  lemma {:induction false} FillOutKeepsSegments(t: Trie, before: string, weights: map<string, real>)
    ensures SegmentsFit(Strip(FillOut(t, before, weights))) <==> SegmentsFit(t)
    decreases t
  {
    var kids := FillOutKids(t.kids, before + t.prefix, weights);
    forall i | 0 <= i < |t.kids| ensures SegmentsFit(Strip(kids[i])) <==> SegmentsFit(t.kids[i]) {
      FillOutKeepsSegments(t.kids[i], before + t.prefix, weights);
    }
    SegmentsFitByKids(t, kids);
    SortHasSameElements(kids);
    SameElementsFit(kids, SortByWeight(kids));
    StrippedSegments(Strip(FillOut(t, before, weights)), SortByWeight(kids));
  }

  lemma StrippedSegments(r: Trie, kids: seq<Filled>)
    requires r.kids == StripAll(kids)
    ensures SegmentsFit(r) <==> KidsFit(kids)
  {
    forall i | 0 <= i < |kids| ensures r.kids[i] == Strip(kids[i]) && r.kids[i].prefix == kids[i].prefix { }
  }

  lemma SegmentsFitByKids(t: Trie, kids: seq<Filled>)
    requires |t.kids| == |kids|
    requires forall i | 0 <= i < |kids| ::
               t.kids[i].prefix == kids[i].prefix && (SegmentsFit(t.kids[i]) <==> SegmentsFit(Strip(kids[i])))
    ensures SegmentsFit(t) <==> KidsFit(kids)
  {
  }

  ghost predicate KidsFit(kids: seq<Filled>) {
    forall i | 0 <= i < |kids| :: KidFits(kids[i])
  }

  ghost predicate KidFits(kid: Filled) {
    |kid.prefix| <= 8 && SegmentsFit(Strip(kid))
  }

  lemma SameElementsFit(a: seq<Filled>, b: seq<Filled>)
    requires forall x :: x in a <==> x in b
    ensures KidsFit(a) <==> KidsFit(b)
  {
    assert KidsFit(a) <==> forall x | x in a :: KidFits(x);
    assert KidsFit(b) <==> forall x | x in b :: KidFits(x);
  }

  /** A node that coalescing does not merge into its only kid. */
  predicate IsStop(t: Trie) {
    t.value.Some? || |t.kids| != 1
  }

  /** The characters from a node's edge down to the next node that stays. */
  function RunLength(t: Trie): nat
    decreases t
  {
    |t.prefix| + if IsStop(t) then 0 else RunLength(t.kids[0])
  }

  ghost predicate RunsFit(t: Trie, stop: bool)
    decreases t
  {
    forall i | 0 <= i < |t.kids| :: (stop ==> RunLength(t.kids[i]) <= 8) && RunsFit(t.kids[i], IsStop(t.kids[i]))
  }

  lemma {:induction false} CoalescedRuns(t: Trie)
    requires WellFormed(t)
    ensures |Coalesce(t).prefix| == RunLength(t)
    ensures SegmentsFit(CoalesceNode(t)) <==> RunsFit(t, true)
    ensures SegmentsFit(Coalesce(t)) <==> RunsFit(t, IsStop(t))
    decreases t
  {
    CoalesceMeaning(t);
    forall i | 0 <= i < |t.kids|
      ensures |Coalesce(t.kids[i]).prefix| == RunLength(t.kids[i])
      ensures SegmentsFit(Coalesce(t.kids[i])) <==> RunsFit(t.kids[i], IsStop(t.kids[i]))
    {
      CoalescedRuns(t.kids[i]);
    }
    var s := CoalesceNode(t);
    if !IsStop(t) {
      assert Coalesce(t).kids == s.kids[0].kids;
      assert s.kids[0] == Coalesce(t.kids[0]);
      assert SegmentsFit(Coalesce(t)) <==> SegmentsFit(s.kids[0]);
      assert RunsFit(t, false) <==> RunsFit(t.kids[0], IsStop(t.kids[0]));
    }
  }

  // ----- from the raw trie to its words -----

  ghost function Words(t: Trie): iset<string> {
    iset w | Lookup(t, w).Some?
  }

  lemma {:induction false} KidWords(t: Trie, i: nat, w: string)
    requires WellFormed(t) && Uncompressed(t) && i < |t.kids|
    ensures t.kids[i].prefix + w in Words(t) <==> w in Words(t.kids[i])
  {
    var k := t.kids[i].prefix + w;
    assert StartsWith(t.kids[i], k[0]);
    assert FirstCharIndex(t.kids, k[0]) == i;
    assert k[1..] == w;
  }

  /** Every non-empty word goes through a kid. */
  lemma {:induction false} WordHasKid(t: Trie, k: string) returns (i: nat)
    requires WellFormed(t) && Uncompressed(t) && k in Words(t) && k != ""
    ensures i < |t.kids| && t.kids[i].prefix == k[..1] && k[1..] in Words(t.kids[i])
  {
    i := FirstCharIndex(t.kids, k[0]);
    assert t.kids[i].prefix == [k[0]] == k[..1];
  }

  lemma {:induction false} SomeWord(t: Trie) returns (w: string)
    requires WellFormed(t) && Uncompressed(t) && (t.value.Some? || t.kids != [])
    ensures w in Words(t)
    decreases t
  {
    if t.value.Some? {
      w := "";
    } else {
      var rest := SomeWord(t.kids[0]);
      KidWords(t, 0, rest);
      w := t.kids[0].prefix + rest;
    }
  }

  /** `below` holds what follows the character `p` in the words of `all`. */
  ghost predicate Under(all: iset<string>, below: iset<string>, p: string) {
    |p| == 1 && forall w :: w in below <==> p + w in all
  }

  lemma StopsUnder(all: iset<string>, below: iset<string>, p: string, u: string)
    requires Under(all, below, p) && Stops(below, u)
    ensures Stops(all, p + u)
  {
    if u !in below {
      var a, b :| a in below && b in below && u < a && u < b && a[|u|] != b[|u|];
      var x, y := p + a, p + b;
      assert x in all && y in all && p + u < x && p + u < y && x[|p + u|] != y[|p + u|];
    }
  }

  lemma StopsAbove(all: iset<string>, below: iset<string>, p: string, u: string)
    requires Under(all, below, p) && Stops(all, p + u)
    ensures Stops(below, u)
  {
    if p + u !in all {
      var a, b :| a in all && b in all && p + u < a && p + u < b && a[|p + u|] != b[|p + u|];
      var x, y := a[1..], b[1..];
      assert a == p + x && b == p + y;
      assert x in below && y in below && u < x && u < y && x[|u|] != y[|u|];
    }
  }

  lemma StopsBelow(t: Trie, i: nat, u: string)
    requires WellFormed(t) && Uncompressed(t) && i < |t.kids|
    ensures Stops(Words(t), t.kids[i].prefix + u) <==> Stops(Words(t.kids[i]), u)
  {
    var p := t.kids[i].prefix;
    var all, below := Words(t), Words(t.kids[i]);
    forall w ensures w in below <==> p + w in all { KidWords(t, i, w); }
    if Stops(below, u) { StopsUnder(all, below, p, u); }
    if Stops(all, p + u) { StopsAbove(all, below, p, u); }
  }

  lemma {:induction false} StopsHere(t: Trie)
    requires WellFormed(t) && Uncompressed(t) && (t.value.Some? || t.kids != [])
    ensures Stops(Words(t), "") <==> IsStop(t)
  {
    var all := Words(t);
    if t.value.None? && |t.kids| >= 2 {
      var a := SomeWord(t.kids[0]);
      var b := SomeWord(t.kids[1]);
      KidWords(t, 0, a);
      KidWords(t, 1, b);
      var x, y := t.kids[0].prefix + a, t.kids[1].prefix + b;
      assert x in all && y in all && "" < x && "" < y && x[|""|] != y[|""|];
    }
    if !IsStop(t) {
      forall a, b | a in all && b in all && "" < a && "" < b ensures a[0] == b[0] {
        var i := WordHasKid(t, a);
        var j := WordHasKid(t, b);
        assert i == 0 == j && a[..1][0] == b[..1][0];
      }
    }
  }

  /** A word that goes on for `n` characters without stopping before the last of them. */
  ghost predicate GoesOn(words: iset<string>, k: string, n: nat) {
    k in words && n <= |k| && forall j | 0 <= j < n :: !Stops(words, k[..j])
  }

  lemma {:induction false} GoesOnBelow(t: Trie, i: nat, k: string, n: nat)
    requires WellFormed(t) && Uncompressed(t) && i < |t.kids|
    ensures GoesOn(Words(t.kids[i]), k, n)
            <==> t.kids[i].prefix + k in Words(t) && n <= |k|
                 && forall j | 1 <= j < n + 1 :: !Stops(Words(t), (t.kids[i].prefix + k)[..j])
  {
    var p := t.kids[i].prefix;
    KidWords(t, i, k);
    if n <= |k| {
      forall j | 0 <= j < n ensures Stops(Words(t.kids[i]), k[..j]) <==> Stops(Words(t), (p + k)[..j + 1]) {
        assert (p + k)[..j + 1] == p + k[..j];
        StopsBelow(t, i, k[..j]);
      }
      if GoesOn(Words(t.kids[i]), k, n) {
        forall j | 1 <= j < n + 1 ensures !Stops(Words(t), (p + k)[..j]) {
          assert !Stops(Words(t.kids[i]), k[..j - 1]);
        }
      }
    }
  }

  lemma {:induction false} RunLengthByWords(t: Trie, n: nat)
    requires WellFormed(t) && Uncompressed(t) && |t.prefix| == 1 && (t.value.Some? || t.kids != [])
    ensures RunLength(t) > n <==> exists k :: GoesOn(Words(t), k, n)
    decreases n
  {
    StopsHere(t);
    if n == 0 {
      var w := SomeWord(t);
      assert GoesOn(Words(t), w, 0);
    } else if IsStop(t) {
      forall k ensures !GoesOn(Words(t), k, n) {
        assert k[..0] == "";
      }
    } else {
      var kid := t.kids[0];
      var m: nat := n - 1;
      RunLengthByWords(kid, m);
      if k :| GoesOn(Words(kid), k, m) { GoesOnAbove(t, k, m); }
      if k :| GoesOn(Words(t), k, n) { GoesOnInKid(t, k, m); }
    }
  }

  lemma GoesOnAbove(t: Trie, k: string, n: nat)
    requires WellFormed(t) && Uncompressed(t) && |t.kids| == 1 && !Stops(Words(t), "") && GoesOn(Words(t.kids[0]), k, n)
    ensures GoesOn(Words(t), t.kids[0].prefix + k, n + 1)
  {
    GoesOnBelow(t, 0, k, n);
    assert (t.kids[0].prefix + k)[..0] == "";
  }

  lemma GoesOnInKid(t: Trie, k: string, n: nat)
    requires WellFormed(t) && Uncompressed(t) && |t.kids| == 1 && GoesOn(Words(t), k, n + 1)
    ensures GoesOn(Words(t.kids[0]), k[1..], n)
  {
    var i := WordHasKid(t, k);
    assert k == t.kids[0].prefix + k[1..];
    GoesOnBelow(t, 0, k[1..], n);
  }

  /** A long run that starts below kid `i`, seen from the kid and from its parent. */
  lemma {:induction false} RunBelow(t: Trie, i: nat, k: string, n: nat, stop: bool)
    requires WellFormed(t) && Uncompressed(t) && i < |t.kids|
    ensures LongRunAt(Words(t), t.kids[i].prefix + k, n + 1) <==> LongRunAt(Words(t.kids[i]), k, n)
    ensures RunStarts(Words(t), t.kids[i].prefix + k, n + 1, stop)
            <==> RunStarts(Words(t.kids[i]), k, n, IsStop(t.kids[i]))
  {
    var p := t.kids[i].prefix;
    var kid := t.kids[i];
    StopsHere(kid);
    if n <= |k| {
      assert (p + k)[..n + 1] == p + k[..n];
      StopsBelow(t, i, k[..n]);
      assert n == 0 ==> k[..n] == "";
    }
    if n + 9 <= |k| {
      forall j | n < j < n + 9 ensures Stops(Words(t), (p + k)[..j + 1]) <==> Stops(Words(kid), k[..j]) {
        assert (p + k)[..j + 1] == p + k[..j];
        StopsBelow(t, i, k[..j]);
      }
      if LongRunAt(Words(kid), k, n) {
        forall j | n + 1 < j < n + 10 ensures !Stops(Words(t), (p + k)[..j]) {
          assert !Stops(Words(kid), k[..j - 1]);
        }
      }
    }
  }

  /** Below the node, and on its own edge, the words decide whether segments fit. */
  ghost predicate RunsDecided(t: Trie) {
    && (RunsFit(t, IsStop(t)) <==> !LongRun(Words(t), IsStop(t)))
    && (RunLength(t) > 8 <==> exists k :: GoesOn(Words(t), k, 8))
  }

  lemma {:induction false} FitsIffNoLongRun(t: Trie, stop: bool)
    requires WellFormed(t) && Uncompressed(t)
    ensures RunsFit(t, stop) <==> !LongRun(Words(t), stop)
    decreases t
  {
    forall i | 0 <= i < |t.kids| ensures RunsDecided(t.kids[i]) {
      FitsIffNoLongRun(t.kids[i], IsStop(t.kids[i]));
      RunLengthByWords(t.kids[i], 8);
    }
    if LongRun(Words(t), stop) {
      LongRunDoesNotFit(t, stop);
    }
    if !RunsFit(t, stop) {
      MisfitHasLongRun(t, stop);
    }
  }

  lemma {:induction false} LongRunDoesNotFit(t: Trie, stop: bool)
    requires WellFormed(t) && Uncompressed(t) && LongRun(Words(t), stop)
    requires forall i {:trigger RunsDecided(t.kids[i])} | 0 <= i < |t.kids| :: RunsDecided(t.kids[i])
    ensures !RunsFit(t, stop)
  {
    var k: string, n: nat :| k in Words(t) && RunStarts(Words(t), k, n, stop) && LongRunAt(Words(t), k, n);
    var i := WordHasKid(t, k);
    var kid := t.kids[i];
    assert k == kid.prefix + k[1..];
    assert RunsDecided(kid);
    if n == 0 {
      RunFromHere(t, i, k[1..]);
    } else {
      LongRunLower(t, i, k[1..], n - 1, stop);
      LongRunMisfits(kid);
    }
    KidBreaksFit(t, i, stop);
  }

  lemma LongRunMisfits(kid: Trie)
    requires RunsDecided(kid) && LongRun(Words(kid), IsStop(kid))
    ensures !RunsFit(kid, IsStop(kid))
  {
  }

  lemma KidBreaksFit(t: Trie, i: nat, stop: bool)
    requires i < |t.kids|
    requires (stop && RunLength(t.kids[i]) > 8) || !RunsFit(t.kids[i], IsStop(t.kids[i]))
    ensures !RunsFit(t, stop)
  {
  }

  lemma LongRunLower(t: Trie, i: nat, k: string, n: nat, stop: bool)
    requires WellFormed(t) && Uncompressed(t) && i < |t.kids|
    requires t.kids[i].prefix + k in Words(t) && LongRunAt(Words(t), t.kids[i].prefix + k, n + 1)
    requires RunStarts(Words(t), t.kids[i].prefix + k, n + 1, stop)
    ensures LongRun(Words(t.kids[i]), IsStop(t.kids[i]))
  {
    KidWords(t, i, k);
    RunBelow(t, i, k, n, stop);
    RunIsLong(Words(t.kids[i]), k, n, IsStop(t.kids[i]));
  }

  lemma RunFromHere(t: Trie, i: nat, k: string)
    requires WellFormed(t) && Uncompressed(t) && i < |t.kids| && RunsDecided(t.kids[i])
    requires t.kids[i].prefix + k in Words(t) && LongRunAt(Words(t), t.kids[i].prefix + k, 0)
    ensures RunLength(t.kids[i]) > 8
  {
    GoesOnBelow(t, i, k, 8);
  }

  lemma RunIsLong(words: iset<string>, k: string, n: nat, rootStops: bool)
    requires k in words && RunStarts(words, k, n, rootStops) && LongRunAt(words, k, n)
    ensures LongRun(words, rootStops)
  {
  }

  lemma {:induction false} MisfitHasLongRun(t: Trie, stop: bool)
    requires WellFormed(t) && Uncompressed(t) && !RunsFit(t, stop)
    requires forall i {:trigger RunsDecided(t.kids[i])} | 0 <= i < |t.kids| :: RunsDecided(t.kids[i])
    ensures LongRun(Words(t), stop)
  {
    var i :| 0 <= i < |t.kids|
             && !((stop ==> RunLength(t.kids[i]) <= 8) && RunsFit(t.kids[i], IsStop(t.kids[i])));
    var kid := t.kids[i];
    assert RunsDecided(kid);
    if stop && RunLength(kid) > 8 {
      var k :| GoesOn(Words(kid), k, 8);
      GoesOnBelow(t, i, k, 8);
      assert RunStarts(Words(t), kid.prefix + k, 0, stop) && LongRunAt(Words(t), kid.prefix + k, 0);
    } else {
      var k: string, n: nat :| k in Words(kid) && RunStarts(Words(kid), k, n, IsStop(kid))
                               && LongRunAt(Words(kid), k, n);
      RunBelow(t, i, k, n, stop);
      KidWords(t, i, k);
      assert RunStarts(Words(t), kid.prefix + k, n + 1, stop) && LongRunAt(Words(t), kid.prefix + k, n + 1);
    }
  }

  lemma RawWords(table: seq<(string, Token)>)
    ensures var raw := InsertAll(EmptyTrie(""), table);
            WellFormed(raw) && Uncompressed(raw) && Words(raw) == Keywords(table)
  {
    InsertAllMeaning(table);
  }

  /**
   * The printed recogniser uses only macros that exist if and only if no keyword has a stretch
   * of nine characters, starting at the root or at a stop, with no stop inside it.
   */
  lemma {:induction false} RecogniserCompiles(table: seq<(string, Token)>, weights: map<string, real>)
    ensures Compiles(Recogniser(table, weights)) <==> !LongRun(Keywords(table), true)
  {
    var raw := InsertAll(EmptyTrie(""), table);
    RawWords(table);
    assert WellFormed(Strip(Root(table, weights))) && Addressed(Root(table, weights)) by {
      RootMeaning(table, weights);
    }
    CompilesIffSegmentsFit(Root(table, weights));
    FillOutKeepsSegments(CoalesceNode(raw), "", weights);
    CoalescedRuns(raw);
    FitsIffNoLongRun(raw, true);
  }

  // ----- the generator's promise, in terms of the table alone -----

  /** Wherever the input spells a keyword, all of the keyword's units continue an identifier. */
  ghost predicate KeywordsAreIdentifiers(table: seq<(string, Token)>, units: seq<nat>, identPart: nat -> bool) {
    forall k, i | k in TableMap(table) && HoldsAt(units, 0, k) && 0 <= i < |k| :: identPart(i)
  }

  lemma StandingKeywordIsUnique(
    table: seq<(string, Token)>, units: seq<nat>, identPart: nat -> bool, j: string, k: string)
    requires KeywordsAreIdentifiers(table, units, identPart)
    requires Stands(table, units, identPart, j) && Stands(table, units, identPart, k)
    ensures j == k
  {
    assert |j| == |k|;
    forall i | 0 <= i < |k| ensures j[i] == k[i] {
      assert units[0 + i] == Code(j[i]) == Code(k[i]);
    }
  }

  /**
   * For a table without long runs whose keywords are made of identifier characters, the printed
   * recogniser returns the token of keyword `k` and shifts by its length exactly when `k` stands
   * at the start of the input, and returns IDENT exactly when no keyword does.
   */
  lemma RecogniserReturnsTheKeyword(
    table: seq<(string, Token)>, weights: map<string, real>, buf: Buffer, identPart: nat -> bool)
    requires RealCpu(buf.cpu) && AsciiTable(table) && !LongRun(Keywords(table), true)
    requires MaxTokenLength(table, weights) <= buf.Length()
    requires KeywordsAreIdentifiers(table, Units(buf), identPart)
    ensures forall k | k in TableMap(table) ::
              Eval(Recogniser(table, weights), buf, identPart) == Accept(TableMap(table)[k], |k|, k)
              <==> Stands(table, Units(buf), identPart, k)
    ensures Eval(Recogniser(table, weights), buf, identPart) == Fall
            <==> !exists k :: Stands(table, Units(buf), identPart, k)
  {
    RecogniserCompiles(table, weights);
    RecogniserCorrect(table, weights, buf, identPart);
    var out := Eval(Recogniser(table, weights), buf, identPart);
    forall k | Stands(table, Units(buf), identPart, k) ensures out.Accept? && out.ident == k {
      StandingKeywordIsUnique(table, Units(buf), identPart, out.ident, k);
    }
  }

  function NineLetters(): seq<(string, Token)> {
    [("abcdefghi", "TOKEN")]
  }

  /** A keyword of nine letters beside no other is one segment, for which there is no macro. */
  lemma NineLettersDoNotCompile(weights: map<string, real>)
    ensures !Compiles(Recogniser(NineLetters(), weights))
  {
    var table, k := NineLetters(), "abcdefghi";
    assert table[..0] == [] && TableMap(table) == map[k := "TOKEN"];
    var words := Keywords(table);
    assert k in words && forall w | w in words :: w == k;
    forall j | 0 < j < 9 ensures !Stops(words, k[..j]) {
      assert |k[..j]| == j;
    }
    assert RunStarts(words, k, 0, true) && LongRunAt(words, k, 0);
    RecogniserCompiles(table, weights);
  }

  // ----- which keyword is returned when several stand -----

  /** No keyword is the beginning of another. */
  ghost predicate PrefixFree(table: seq<(string, Token)>) {
    forall j, k | j in TableMap(table) && k in TableMap(table) && j <= k :: j == k
  }

  /** The recogniser returns the keyword, if it stands in the input. */
  ghost predicate ReturnsIt(table: seq<(string, Token)>, weights: map<string, real>, buf: Buffer,
                            identPart: nat -> bool, k: string)
    requires RealCpu(buf.cpu)
  {
    Stands(table, Units(buf), identPart, k)
    ==> Eval(Recogniser(table, weights), buf, identPart) == Accept(TableMap(table)[k], |k|, k)
  }

  /** Whatever the input and the identifier characters, every keyword that stands is returned. */
  ghost predicate ReturnsEvery(table: seq<(string, Token)>, weights: map<string, real>) {
    forall buf: Buffer, identPart: nat -> bool, k
      | RealCpu(buf.cpu) && MaxTokenLength(table, weights) <= buf.Length() ::
      ReturnsIt(table, weights, buf, identPart, k)
  }

  /** Of two strings that one input holds the shorter is the beginning of the longer. */
  lemma HeldIsPrefix(units: seq<nat>, j: string, k: string)
    requires HoldsAt(units, 0, j) && HoldsAt(units, 0, k) && |j| <= |k|
    ensures j <= k
  {
    forall i | 0 <= i < |j| ensures j[i] == k[i] {
      assert units[0 + i] == Code(j[i]) == Code(k[i]);
    }
  }

  lemma PrefixFreeReturns(table: seq<(string, Token)>, weights: map<string, real>, buf: Buffer, identPart: nat -> bool,
                          k: string)
    requires RealCpu(buf.cpu) && AsciiTable(table) && !LongRun(Keywords(table), true) && PrefixFree(table)
    requires MaxTokenLength(table, weights) <= buf.Length()
    ensures ReturnsIt(table, weights, buf, identPart, k)
  {
    RecogniserCompiles(table, weights);
    RecogniserCorrect(table, weights, buf, identPart);
    var out := Eval(Recogniser(table, weights), buf, identPart);
    if Stands(table, Units(buf), identPart, k) && out.Accept? {
      HeldIsPrefix(Units(buf), out.ident, k);
    }
  }

  /** An input of one-byte units that starts with `k` and has room for every keyword. */
  function Spelled(k: string, length: nat): Buffer
    requires Ascii(k)
  {
    Buffer(Cpu(false, false, true), false,
           seq(length, i requires 0 <= i < length => if i < |k| then Code(k[i]) else 0))
  }

  lemma SpelledHolds(k: string, length: nat, j: string)
    requires Ascii(k) && |k| <= length && j <= k
    ensures Spelled(k, length).Length() == length && HoldsAt(Units(Spelled(k, length)), 0, j)
  {
    var buf := Spelled(k, length);
    forall i | 0 <= i < |j| ensures Units(buf)[0 + i] == Code(j[i]) {
      assert UnitAt(buf, i) == buf.bytes[i];
    }
  }

  lemma PrefixIsNotReturned(table: seq<(string, Token)>, weights: map<string, real>, j: string, k: string)
    requires AsciiTable(table) && !LongRun(Keywords(table), true)
    requires j in TableMap(table) && k in TableMap(table) && j < k
    ensures !ReturnsEvery(table, weights)
  {
    var length := MaxTokenLength(table, weights);
    MaxTokenLengthIsLongestKeyword(table, weights);
    SpelledHolds(k, length, j);
    SpelledHolds(k, length, k);
    ShorterIsReturned(table, weights, Spelled(k, length), (i: nat) => false, j, k);
  }

  lemma ShorterIsReturned(table: seq<(string, Token)>, weights: map<string, real>, buf: Buffer, identPart: nat -> bool,
                          j: string, k: string)
    requires RealCpu(buf.cpu) && AsciiTable(table) && !LongRun(Keywords(table), true)
    requires MaxTokenLength(table, weights) <= buf.Length() && |j| < |k|
    requires Stands(table, Units(buf), identPart, j) && Stands(table, Units(buf), identPart, k)
    ensures !ReturnsEvery(table, weights)
  {
    RecogniserCompiles(table, weights);
    RecogniserCorrect(table, weights, buf, identPart);
    assert !ReturnsIt(table, weights, buf, identPart, k);
  }

  /**
   * Every standing keyword is returned, on every input and with every set of identifier characters,
   * if and only if no keyword is the beginning of another.
   */
  lemma ReturnsEveryExactly(table: seq<(string, Token)>, weights: map<string, real>)
    requires AsciiTable(table) && !LongRun(Keywords(table), true)
    ensures ReturnsEvery(table, weights) <==> PrefixFree(table)
  {
    if PrefixFree(table) {
      forall buf: Buffer, identPart: nat -> bool, k | RealCpu(buf.cpu) && MaxTokenLength(table, weights) <= buf.Length()
        ensures ReturnsIt(table, weights, buf, identPart, k)
      {
        PrefixFreeReturns(table, weights, buf, identPart, k);
      }
    } else {
      var j, k :| j in TableMap(table) && k in TableMap(table) && j <= k && j != k;
      PrefixIsNotReturned(table, weights, j, k);
    }
  }

  function OneBegunByAnother(): seq<(string, Token)> {
    [("a", "SHORT"), ("ab", "LONG")]
  }

  /** With the keywords "a" and "ab" there is an input on which "ab" stands and is not returned. */
  lemma LongerKeywordIsMissed(weights: map<string, real>)
    ensures !ReturnsEvery(OneBegunByAnother(), weights)
  {
    var table := OneBegunByAnother();
    assert table[..1][..0] == [] && table[..1] == [("a", "SHORT")];
    assert TableMap(table) == map["a" := "SHORT", "ab" := "LONG"];
    assert forall k | k in Keywords(table) :: |k| <= 2;
    PrefixIsNotReturned(table, weights, "a", "ab");
  }
}

/**
 * The recogniser the keyword generator prints, as a small language with an evaluator over the
 * lexer's input bytes, and its correctness: it computes exactly the keyword table.
 */
module KeywordRecogniser {
  import opened Wrappers
  import opened KeywordTrie
  import opened WideCompare
  import opened KeywordEmitter

  // ----- the printed code -----

  datatype Cond = UnitTest(index: nat, c: char) | Macro(base: nat, chars: string)

  /** An identifier check with its return, or one if / else-if chain. */
  datatype Stmt = AcceptUnlessIdent(length: nat, ident: string, token: Token) | Chain(arms: seq<Arm>)

  datatype Arm = Arm(cond: Cond, body: seq<Stmt>)

  /** The test for one kid: three-character segments re-read the character before them. */
  function ArmCond(rootIndex: nat, kid: Filled): Cond
    requires rootIndex <= |kid.fullPrefix|
  {
    var widen := rootIndex > 0 && |kid.prefix| == 3;
    var base := if widen then rootIndex - 1 else rootIndex;
    var k := if widen then [kid.fullPrefix[base]] + kid.prefix else kid.prefix;
    if |k| == 1 then UnitTest(base, k[0]) else Macro(base, k)
  }

  function PrintSubTree(f: Filled): seq<Stmt>
    requires Addressed(f)
    decreases f, 1
  {
    (if f.value.Some? then [AcceptUnlessIdent(|f.fullPrefix|, f.fullPrefix, f.value.value)] else [])
    + (if f.kids == [] then [] else [Chain(PrintArms(f.fullPrefix, f.kids))])
  }

  function PrintArms(full: string, kids: seq<Filled>): (r: seq<Arm>)
    requires forall i | 0 <= i < |kids| :: kids[i].fullPrefix == full + kids[i].prefix && Addressed(kids[i])
    ensures |r| == |kids|
    decreases kids, 0
  {
    if kids == [] then []
    else [Arm(ArmCond(|full|, kids[0]), PrintSubTree(kids[0]))] + PrintArms(full, kids[1..])
  }

  function MaxLength(f: Filled): nat
    decreases f, 1
  {
    MaxOf(|f.fullPrefix|, f.kids)
  }

  /** The running maximum of the loop in maxLength. */
  function MaxOf(start: nat, kids: seq<Filled>): (m: nat)
    ensures m >= start
    ensures forall i | 0 <= i < |kids| :: MaxLength(kids[i]) <= m
    decreases kids, 0
  {
    if kids == [] then start
    else
      var before := MaxOf(start, kids[..|kids| - 1]);
      var l := MaxLength(kids[|kids| - 1]);
      if l > before then l else before
  }

  // ----- running it -----

  /** Fall: control leaves the statements. Fault: a read past the end, or a macro that does not exist. */
  datatype Outcome = Fall | Accept(token: Token, shift: nat, ident: string) | Fault

  function EvalCond(c: Cond, buf: Buffer): Option<bool>
    requires RealCpu(buf.cpu)
  {
    match c
    case UnitTest(i, ch) => Compare1(buf, i, ch)
    case Macro(base, chars) => Compare(buf, base, chars)
  }

  /** `identPart(i)` is isIdentPartIncludingEscape at unit index i, which reads that unit. */
  function Eval(code: seq<Stmt>, buf: Buffer, identPart: nat -> bool): Outcome
    requires RealCpu(buf.cpu)
    decreases code, 1
  {
    if code == [] then Fall
    else
      var first := match code[0]
        case AcceptUnlessIdent(n, ident, token) =>
          if n >= buf.Length() then Fault
          else if identPart(n) then Fall
          else Accept(token, n, ident)
        case Chain(arms) => EvalArms(arms, buf, identPart);
      if first.Fall? then Eval(code[1..], buf, identPart) else first
  }

  function EvalArms(arms: seq<Arm>, buf: Buffer, identPart: nat -> bool): Outcome
    requires RealCpu(buf.cpu)
    decreases arms, 0
  {
    if arms == [] then Fall
    else
      match EvalCond(arms[0].cond, buf)
      case None => Fault
      case Some(true) => Eval(arms[0].body, buf, identPart)
      case Some(false) => EvalArms(arms[1..], buf, identPart)
  }

  // ----- what it should do -----

  /** The word `w` below node `f` is in the input and ends where no identifier continues. */
  ghost predicate Matches(f: Filled, units: seq<nat>, identPart: nat -> bool, w: string) {
    && Lookup(Strip(f), w).Some?
    && HoldsAt(units, 0, f.fullPrefix + w)
    && !identPart(|f.fullPrefix + w|)
  }

  ghost function MatchSet(f: Filled, units: seq<nat>, identPart: nat -> bool): iset<string> {
    iset w | Matches(f, units, identPart, w)
  }

  ghost predicate Shortest(words: iset<string>, w: string) {
    w in words && forall u | u in words :: |w| <= |u|
  }

  /** The outcome is the shortest word that matches below `f`, or Fall when there is none. */
  ghost predicate Correct(f: Filled, units: seq<nat>, identPart: nat -> bool, out: Outcome) {
    match out
    case Fall => MatchSet(f, units, identPart) == iset{}
    case Accept(token, shift, ident) =>
      && f.fullPrefix <= ident && shift == |ident|
      && Shortest(MatchSet(f, units, identPart), ident[|f.fullPrefix|..])
      && Lookup(Strip(f), ident[|f.fullPrefix|..]) == Some(token)
    case Fault => false
  }

  /** Every macro the code uses is one that exists. */
  ghost predicate Compiles(code: seq<Stmt>)
    decreases code, 1
  {
    forall i | 0 <= i < |code| :: code[i].Chain? ==> ArmsCompile(code[i].arms)
  }

  ghost predicate ArmsCompile(arms: seq<Arm>)
    decreases arms, 0
  {
    forall i | 0 <= i < |arms| ::
      (arms[i].cond.Macro? ==> 2 <= |arms[i].cond.chars| <= 8) && Compiles(arms[i].body)
  }

  // ----- correctness of one node -----

  lemma HoldsConcat(units: seq<nat>, i: nat, a: string, b: string)
    ensures HoldsAt(units, i, a + b) <==> HoldsAt(units, i, a) && HoldsAt(units, i + |a|, b)
  {
    if HoldsAt(units, i, a + b) {
      forall j | 0 <= j < |a| ensures units[i + j] == Code(a[j]) {
        assert (a + b)[j] == a[j];
      }
      forall j | 0 <= j < |b| ensures units[i + |a| + j] == Code(b[j]) {
        assert (a + b)[|a| + j] == b[j];
        assert i + |a| + j == i + (|a| + j);
      }
    }
    if HoldsAt(units, i, a) && HoldsAt(units, i + |a|, b) {
      forall j | 0 <= j < |a + b| ensures units[i + j] == Code((a + b)[j]) {
        if j >= |a| {
          assert i + j == i + |a| + (j - |a|);
        }
      }
    }
  }

  /** In the context it is printed in, a kid's test decides whether its segment comes next. */
  lemma ArmCondDecides(full: string, kid: Filled, buf: Buffer, units: seq<nat>)
    requires units == Units(buf)
    requires RealCpu(buf.cpu) && kid.fullPrefix == full + kid.prefix && kid.prefix != ""
    requires Ascii(kid.fullPrefix) && |kid.fullPrefix| < buf.Length() && HoldsAt(units, 0, full)
    requires ArmCond(|full|, kid).Macro? ==> 2 <= |ArmCond(|full|, kid).chars| <= 8
    ensures EvalCond(ArmCond(|full|, kid), buf) == Some(HoldsAt(units, |full|, kid.prefix))
  {
    assert Ascii(kid.prefix) by {
      assert forall j | 0 <= j < |kid.prefix| :: kid.prefix[j] == kid.fullPrefix[|full| + j];
    }
    if |full| > 0 && |kid.prefix| == 3 {
      WidenedTestDecides(full, kid, buf, units);
    } else if |kid.prefix| == 1 {
      Compare1Refines(buf, |full|, kid.prefix[0]);
      assert units[|full|] == units[|full| + 0];
    } else {
      CompareRefines(buf, |full|, kid.prefix);
    }
  }

  /** Re-reading the last character already matched adds nothing to a three-character test. */
  lemma {:induction false} WidenedTestDecides(full: string, kid: Filled, buf: Buffer, units: seq<nat>)
    requires units == Units(buf) && RealCpu(buf.cpu)
    requires kid.fullPrefix == full + kid.prefix && full != "" && |kid.prefix| == 3
    requires Ascii(kid.fullPrefix) && |kid.fullPrefix| < buf.Length() && HoldsAt(units, 0, full)
    ensures EvalCond(ArmCond(|full|, kid), buf) == Some(HoldsAt(units, |full|, kid.prefix))
  {
    var k := full[|full| - 1..] + kid.prefix;
    WidenedCond(full, kid, k);
    CompareRefines(buf, |full| - 1, k);
    LastIsHeld(units, full, kid.prefix);
  }

  lemma WidenedCond(full: string, kid: Filled, k: string)
    requires kid.fullPrefix == full + kid.prefix && full != "" && |kid.prefix| == 3 && Ascii(kid.fullPrefix)
    requires k == full[|full| - 1..] + kid.prefix
    ensures ArmCond(|full|, kid) == Macro(|full| - 1, k) && |k| == 4 && Ascii(k)
  {
    assert forall j | 0 <= j < |k| :: k[j] == kid.fullPrefix[|full| - 1 + j];
  }

  lemma LastIsHeld(units: seq<nat>, full: string, next: string)
    requires full != "" && HoldsAt(units, 0, full)
    ensures HoldsAt(units, |full| - 1, full[|full| - 1..] + next) <==> HoldsAt(units, |full|, next)
  {
    var n := |full|;
    HoldsConcat(units, n - 1, full[n - 1..], next);
    assert full == full[..n - 1] + full[n - 1..];
    HoldsConcat(units, 0, full[..n - 1], full[n - 1..]);
  }

  /** The position of the first kid whose segment comes next in the input, or |kids|. */
  function MatchingKid(full: string, kids: seq<Filled>, units: seq<nat>): (i: nat)
    ensures i <= |kids|
    ensures i < |kids| ==> HoldsAt(units, |full|, kids[i].prefix)
    ensures forall j | 0 <= j < i :: !HoldsAt(units, |full|, kids[j].prefix)
  {
    if kids == [] then 0
    else if HoldsAt(units, |full|, kids[0].prefix) then 0
    else 1 + MatchingKid(full, kids[1..], units)
  }

  lemma {:induction false} ArmsPickMatchingKid(
    full: string, kids: seq<Filled>, buf: Buffer, units: seq<nat>, identPart: nat -> bool)
    requires units == Units(buf)
    requires RealCpu(buf.cpu) && HoldsAt(units, 0, full)
    requires forall i | 0 <= i < |kids| :: kids[i].fullPrefix == full + kids[i].prefix && Addressed(kids[i])
    requires forall i | 0 <= i < |kids| :: kids[i].prefix != "" && Ascii(kids[i].fullPrefix)
    requires forall i | 0 <= i < |kids| :: |kids[i].fullPrefix| < buf.Length()
    requires ArmsCompile(PrintArms(full, kids))
    ensures var i := MatchingKid(full, kids, units);
            EvalArms(PrintArms(full, kids), buf, identPart)
            == if i < |kids| then Eval(PrintSubTree(kids[i]), buf, identPart) else Fall
  {
    if kids != [] {
      var arms := PrintArms(full, kids);
      FirstArmCompiles(full, kids, arms);
      ArmCondDecides(full, kids[0], buf, units);
      ArmsPickMatchingKid(full, kids[1..], buf, units, identPart);
    }
  }

  lemma {:induction false} KidsCompile(full: string, kids: seq<Filled>)
    requires forall i | 0 <= i < |kids| :: kids[i].fullPrefix == full + kids[i].prefix && Addressed(kids[i])
    requires ArmsCompile(PrintArms(full, kids))
    ensures forall i | 0 <= i < |kids| :: Compiles(PrintSubTree(kids[i]))
    decreases |kids|
  {
    if kids != [] {
      FirstArmCompiles(full, kids, PrintArms(full, kids));
      KidsCompile(full, kids[1..]);
      forall i | 0 <= i < |kids| ensures Compiles(PrintSubTree(kids[i])) {
        if i > 0 { assert kids[i] == kids[1..][i - 1]; }
      }
    }
  }

  lemma FirstArmCompiles(full: string, kids: seq<Filled>, arms: seq<Arm>)
    requires kids != []
    requires forall i | 0 <= i < |kids| :: kids[i].fullPrefix == full + kids[i].prefix && Addressed(kids[i])
    requires arms == PrintArms(full, kids) && ArmsCompile(arms)
    ensures arms[0].cond == ArmCond(|full|, kids[0]) && arms[0].body == PrintSubTree(kids[0])
    ensures Compiles(PrintSubTree(kids[0])) && arms[1..] == PrintArms(full, kids[1..]) && ArmsCompile(arms[1..])
    ensures ArmCond(|full|, kids[0]).Macro? ==> 2 <= |ArmCond(|full|, kids[0]).chars| <= 8
  {
    assert arms[0].cond == ArmCond(|full|, kids[0]);
    assert arms[1..] == PrintArms(full, kids[1..]);
    assert forall i | 0 <= i < |arms[1..]| :: arms[1..][i] == arms[i + 1];
  }

  ghost predicate AllAscii(f: Filled)
    decreases f
  {
    Ascii(f.fullPrefix) && forall i | 0 <= i < |f.kids| :: AllAscii(f.kids[i])
  }

  /** Each of `below` with `p` in front. */
  ghost function Prefixed(p: string, below: iset<string>): iset<string> {
    iset w: string | p <= w && w[|p|..] in below
  }

  /** The words that match below `f` are the picked kid's prefix followed by one that matches below that kid. */
  lemma {:induction false} MatchesByKid(f: Filled, units: seq<nat>, identPart: nat -> bool)
    requires WellFormed(Strip(f)) && Addressed(f) && HoldsAt(units, 0, f.fullPrefix)
    requires !Matches(f, units, identPart, "")
    ensures var i := MatchingKid(f.fullPrefix, f.kids, units);
            MatchSet(f, units, identPart)
            == if i < |f.kids| then Prefixed(f.kids[i].prefix, MatchSet(f.kids[i], units, identPart)) else iset{}
  {
    var i := MatchingKid(f.fullPrefix, f.kids, units);
    forall w
      ensures Matches(f, units, identPart, w)
              <==> i < |f.kids| && f.kids[i].prefix <= w
                   && Matches(f.kids[i], units, identPart, w[|f.kids[i].prefix|..])
    {
      if Matches(f, units, identPart, w) { MatchGoesThroughKid(f, units, identPart, w); }
      if i < |f.kids| && f.kids[i].prefix <= w { MatchBelowKid(f, units, identPart, w, i); }
    }
  }

  lemma MatchGoesThroughKid(f: Filled, units: seq<nat>, identPart: nat -> bool, w: string)
    requires WellFormed(Strip(f)) && Addressed(f)
    requires w != "" && Matches(f, units, identPart, w)
    ensures var i := MatchingKid(f.fullPrefix, f.kids, units); i < |f.kids| && f.kids[i].prefix <= w
  {
    SegmentComesNext(f, units, w, FirstCharIndex(Strip(f).kids, w[0]));
  }

  lemma MatchBelowKid(f: Filled, units: seq<nat>, identPart: nat -> bool, w: string, i: nat)
    requires WellFormed(Strip(f)) && Addressed(f) && i < |f.kids| && f.kids[i].prefix <= w
    ensures Matches(f, units, identPart, w) <==> Matches(f.kids[i], units, identPart, w[|f.kids[i].prefix|..])
  {
    var rest := w[|f.kids[i].prefix|..];
    Regrouped(f.fullPrefix, f.kids[i].prefix, w, rest);
    LookupThroughKid(f, i, rest);
  }

  lemma Regrouped(full: string, p: string, w: string, rest: string)
    requires p <= w && rest == w[|p|..]
    ensures w == p + rest && full + w == (full + p) + rest
  {
  }

  /** When the input holds a word that goes through kid `j`, that is the kid the tests pick. */
  lemma {:induction false} SegmentComesNext(f: Filled, units: seq<nat>, w: string, j: nat)
    requires WellFormed(Strip(f)) && Addressed(f) && w != "" && j < |f.kids|
    requires f.kids[j].prefix <= w && HoldsAt(units, 0, f.fullPrefix + w)
    ensures j == MatchingKid(f.fullPrefix, f.kids, units)
  {
    var rest := w[|f.kids[j].prefix|..];
    assert w == f.kids[j].prefix + rest;
    HoldsConcat(units, 0, f.fullPrefix, w);
    HoldsConcat(units, |f.fullPrefix|, f.kids[j].prefix, rest);
    var i := MatchingKid(f.fullPrefix, f.kids, units);
    assert Strip(f).kids[i].prefix == f.kids[i].prefix && Strip(f).kids[j].prefix == f.kids[j].prefix;
    SameFirstUnit(units, |f.fullPrefix|, f.kids[i].prefix, f.kids[j].prefix);
  }

  lemma SameFirstUnit(units: seq<nat>, i: nat, a: string, b: string)
    requires a != "" && b != "" && HoldsAt(units, i, a) && HoldsAt(units, i, b)
    ensures a[0] == b[0]
  {
    assert units[i + 0] == Code(a[0]) == Code(b[0]);
  }

  lemma {:induction false} SubTreeCorrect(f: Filled, buf: Buffer, units: seq<nat>, identPart: nat -> bool)
    requires units == Units(buf)
    requires RealCpu(buf.cpu) && WellFormed(Strip(f)) && Addressed(f) && AllAscii(f)
    requires Compiles(PrintSubTree(f)) && MaxLength(f) < buf.Length()
    requires HoldsAt(units, 0, f.fullPrefix)
    ensures Correct(f, units, identPart, Eval(PrintSubTree(f), buf, identPart))
    decreases f
  {
    var code := PrintSubTree(f);
    assert f.fullPrefix + "" == f.fullPrefix;
    EvalSplits(f, buf, identPart);
    if Matches(f, units, identPart, "") {
      assert f.fullPrefix[|f.fullPrefix|..] == "";
    } else {
      KidsCorrect(f, buf, units, identPart);
    }
  }

  /** A node's code first tries the node's own value, then its kids. */
  lemma EvalSplits(f: Filled, buf: Buffer, identPart: nat -> bool)
    requires RealCpu(buf.cpu) && Addressed(f) && |f.fullPrefix| < buf.Length()
    ensures Eval(PrintSubTree(f), buf, identPart)
            == if f.value.Some? && !identPart(|f.fullPrefix|) then
                 Accept(f.value.value, |f.fullPrefix|, f.fullPrefix)
               else EvalArms(PrintArms(f.fullPrefix, f.kids), buf, identPart)
  {
    var code := PrintSubTree(f);
    var arms := PrintArms(f.fullPrefix, f.kids);
    if f.kids != [] {
      assert Eval([Chain(arms)], buf, identPart) == EvalArms(arms, buf, identPart);
    }
    if f.value.Some? {
      assert code[1..] == if f.kids == [] then [] else [Chain(arms)];
    } else {
      assert code == if f.kids == [] then [] else [Chain(arms)];
    }
  }

  lemma {:induction false} KidsCorrect(f: Filled, buf: Buffer, units: seq<nat>, identPart: nat -> bool)
    requires units == Units(buf)
    requires RealCpu(buf.cpu) && WellFormed(Strip(f)) && Addressed(f) && AllAscii(f)
    requires Compiles(PrintSubTree(f)) && MaxLength(f) < buf.Length()
    requires HoldsAt(units, 0, f.fullPrefix) && !Matches(f, units, identPart, "")
    ensures Correct(f, units, identPart, EvalArms(PrintArms(f.fullPrefix, f.kids), buf, identPart))
    decreases f, 0
  {
    var i := MatchingKid(f.fullPrefix, f.kids, units);
    MatchesByKid(f, units, identPart);
    NodePicksKid(f, buf, units, identPart, i);
    if i < |f.kids| {
      KidReady(f, i);
      KidIsHeld(f, i, units);
      SubTreeCorrect(f.kids[i], buf, units, identPart);
      KidOutcomeLifts(f, i, units, identPart, Eval(PrintSubTree(f.kids[i]), buf, identPart));
    }
  }

  lemma NodePicksKid(f: Filled, buf: Buffer, units: seq<nat>, identPart: nat -> bool, i: nat)
    requires units == Units(buf) && i == MatchingKid(f.fullPrefix, f.kids, units)
    requires RealCpu(buf.cpu) && WellFormed(Strip(f)) && Addressed(f) && AllAscii(f)
    requires Compiles(PrintSubTree(f)) && MaxLength(f) < buf.Length() && HoldsAt(units, 0, f.fullPrefix)
    ensures EvalArms(PrintArms(f.fullPrefix, f.kids), buf, identPart)
            == if i < |f.kids| then Eval(PrintSubTree(f.kids[i]), buf, identPart) else Fall
    ensures i < |f.kids| ==> Compiles(PrintSubTree(f.kids[i]))
  {
    KidsReady(f);
    KidsCompile(f.fullPrefix, f.kids);
    ArmsPickMatchingKid(f.fullPrefix, f.kids, buf, units, identPart);
  }

  lemma KidIsHeld(f: Filled, i: nat, units: seq<nat>)
    requires i < |f.kids| && f.kids[i].fullPrefix == f.fullPrefix + f.kids[i].prefix
    requires HoldsAt(units, 0, f.fullPrefix) && HoldsAt(units, |f.fullPrefix|, f.kids[i].prefix)
    ensures HoldsAt(units, 0, f.kids[i].fullPrefix)
  {
    HoldsConcat(units, 0, f.fullPrefix, f.kids[i].prefix);
  }

  lemma KidReady(f: Filled, i: nat)
    requires WellFormed(Strip(f)) && Addressed(f) && AllAscii(f) && Compiles(PrintSubTree(f)) && i < |f.kids|
    ensures var kid := f.kids[i];
            && kid.fullPrefix == f.fullPrefix + kid.prefix && WellFormed(Strip(kid)) && Addressed(kid) && AllAscii(kid)
            && MaxLength(kid) <= MaxLength(f)
  {
    KidsReady(f);
  }

  lemma {:induction false} KidsReady(f: Filled)
    requires WellFormed(Strip(f)) && Addressed(f) && AllAscii(f) && Compiles(PrintSubTree(f))
    ensures ArmsCompile(PrintArms(f.fullPrefix, f.kids))
    ensures forall i | 0 <= i < |f.kids| :: f.kids[i].prefix != "" && Ascii(f.kids[i].fullPrefix)
    ensures forall i | 0 <= i < |f.kids| :: WellFormed(Strip(f.kids[i]))
    ensures forall i | 0 <= i < |f.kids| :: |f.kids[i].fullPrefix| <= MaxLength(f.kids[i]) <= MaxLength(f)
  {
    if f.kids != [] {
      var code := PrintSubTree(f);
      assert code[|code| - 1] == Chain(PrintArms(f.fullPrefix, f.kids));
    }
    forall i | 0 <= i < |f.kids| ensures f.kids[i].prefix != "" && WellFormed(Strip(f.kids[i])) {
      assert Strip(f).kids[i] == Strip(f.kids[i]);
    }
  }

  lemma {:induction false} KidOutcomeLifts(f: Filled, i: nat, units: seq<nat>, identPart: nat -> bool, out: Outcome)
    requires WellFormed(Strip(f)) && Addressed(f) && i < |f.kids| && Correct(f.kids[i], units, identPart, out)
    requires MatchSet(f, units, identPart) == Prefixed(f.kids[i].prefix, MatchSet(f.kids[i], units, identPart))
    ensures Correct(f, units, identPart, out)
  {
    var kid := f.kids[i];
    if out.Accept? {
      var rest := out.ident[|kid.fullPrefix|..];
      IdentSplits(f.fullPrefix, kid.prefix, out.ident, rest);
      ShortestLifts(kid.prefix, MatchSet(kid, units, identPart), rest);
      LookupThroughKid(f, i, rest);
    } else {
      NothingPrefixed(kid.prefix);
    }
  }

  lemma IdentSplits(full: string, p: string, ident: string, rest: string)
    requires full + p <= ident && rest == ident[|full + p|..]
    ensures full <= ident && ident[|full|..] == p + rest
  {
  }

  lemma NothingPrefixed(p: string)
    ensures Prefixed(p, iset{}) == iset{}
  {
  }

  lemma ShortestLifts(p: string, below: iset<string>, w: string)
    requires Shortest(below, w)
    ensures Shortest(Prefixed(p, below), p + w)
  {
    assert (p + w)[|p|..] == w;
  }

  lemma {:induction false} LookupThroughKid(f: Filled, i: nat, w: string)
    requires WellFormed(Strip(f)) && i < |f.kids|
    ensures f.kids[i].prefix != ""
    ensures Lookup(Strip(f), f.kids[i].prefix + w) == Lookup(Strip(f.kids[i]), w)
  {
    var t := Strip(f);
    var p := f.kids[i].prefix;
    assert t.kids[i].prefix == p;
    assert StartsWith(t.kids[i], (p + w)[0]);
    assert FirstCharIndex(t.kids, (p + w)[0]) == i;
    assert (p + w)[|p|..] == w;
  }
}

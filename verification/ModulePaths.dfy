/**
 * Resolving the name of a module against the directory of the module that imports it, with the
 * separator of Unix paths.
 */
module ModulePaths {
  import opened Wrappers

  datatype DirectoryName = DirectoryName(rootName: string, queryName: string)

  const SEPARATOR := '/'

  // ----- splitting and joining -----

  predicate Unseparated(pieces: seq<string>) {
    forall i | 0 <= i < |pieces| :: SEPARATOR !in pieces[i]
  }

  function Split(s: string): (r: seq<string>)
    ensures |r| >= 1
    ensures Unseparated(r)
  {
    if s == [] then [""] else Prepend(s[0], Split(s[1..]))
  }

  /** The pieces of a string with one more character in front. */
  function Prepend(c: char, pieces: seq<string>): (r: seq<string>)
    requires pieces != []
    ensures r != [] && (Unseparated(pieces) ==> Unseparated(r))
  {
    if c == SEPARATOR then [""] + pieces else [[c] + pieces[0]] + pieces[1..]
  }

  function NonEmpty(pieces: seq<string>): (r: seq<string>)
    ensures Unseparated(pieces) ==> Components(r)
  {
    if pieces == [] then []
    else (if pieces[0] == "" then [] else [pieces[0]]) + NonEmpty(pieces[1..])
  }

  function Join(pieces: seq<string>): string {
    if pieces == [] then ""
    else if |pieces| == 1 then pieces[0]
    else pieces[0] + [SEPARATOR] + Join(pieces[1..])
  }

  /** Non-empty pieces without separators: what a list of path components is. */
  predicate Components(pieces: seq<string>) {
    forall i | 0 <= i < |pieces| :: pieces[i] != "" && SEPARATOR !in pieces[i]
  }

  lemma {:induction false} SplitPiece(p: string)
    requires SEPARATOR !in p
    ensures Split(p) == [p]
    decreases |p|
  {
    if p != [] {
      SplitPiece(p[1..]);
      assert p == [p[0]] + p[1..];
    }
  }

  lemma PrependAppend(c: char, x: seq<string>, y: seq<string>)
    requires x != []
    ensures Prepend(c, x + y) == Prepend(c, x) + y
  {
    assert (x + y)[0] == x[0] && (x + y)[1..] == x[1..] + y;
  }

  /** Splitting at a separator splits the two sides. */
  lemma {:induction false} SplitAppend(a: string, b: string)
    ensures Split(a + [SEPARATOR] + b) == Split(a) + Split(b)
    decreases |a|
  {
    if a == [] {
      assert a + [SEPARATOR] + b == [SEPARATOR] + b;
      assert ([SEPARATOR] + b)[1..] == b;
    } else {
      var t := a + [SEPARATOR] + b;
      assert t[0] == a[0] && t[1..] == a[1..] + [SEPARATOR] + b;
      SplitAppend(a[1..], b);
      PrependAppend(a[0], Split(a[1..]), Split(b));
    }
  }

  lemma {:induction false} NonEmptyAppend(a: seq<string>, b: seq<string>)
    ensures NonEmpty(a + b) == NonEmpty(a) + NonEmpty(b)
    decreases |a|
  {
    if a == [] {
      assert a + b == b;
    } else {
      assert (a + b)[0] == a[0] && (a + b)[1..] == a[1..] + b;
      NonEmptyAppend(a[1..], b);
      var head := if a[0] == "" then [] else [a[0]];
      assert head + (NonEmpty(a[1..]) + NonEmpty(b)) == (head + NonEmpty(a[1..])) + NonEmpty(b);
    }
  }

  /** Splitting undoes joining. */
  lemma {:induction false} SplitJoin(pieces: seq<string>)
    requires pieces != [] && Components(pieces)
    ensures Split(Join(pieces)) == pieces
    decreases |pieces|
  {
    SplitPiece(pieces[0]);
    if |pieces| > 1 {
      SplitAppend(pieces[0], Join(pieces[1..]));
      SplitJoin(pieces[1..]);
    }
  }

  lemma {:induction false} NonEmptyComponents(pieces: seq<string>)
    requires Components(pieces)
    ensures NonEmpty(pieces) == pieces
    decreases |pieces|
  {
    if pieces != [] { NonEmptyComponents(pieces[1..]); }
  }

  lemma ComponentsOfJoin(pieces: seq<string>)
    requires Components(pieces)
    ensures NonEmpty(Split(Join(pieces))) == pieces
  {
    if pieces == [] {
      assert NonEmpty([""]) == [] + NonEmpty([""][1..]);
    } else {
      SplitJoin(pieces);
      NonEmptyComponents(pieces);
    }
  }

  lemma JoinIsInjective(p: seq<string>, q: seq<string>)
    requires Components(p) && Components(q) && Join(p) == Join(q)
    ensures p == q
  {
    ComponentsOfJoin(p);
    ComponentsOfJoin(q);
  }

  lemma {:induction false} JoinLast(pieces: seq<string>)
    requires |pieces| > 1
    ensures Join(pieces) == Join(pieces[..|pieces| - 1]) + [SEPARATOR] + pieces[|pieces| - 1]
    decreases |pieces|
  {
    if |pieces| > 2 {
      JoinLast(pieces[1..]);
      assert pieces[1..][..|pieces| - 2] == pieces[..|pieces| - 1][1..];
    } else {
      assert pieces[1..] == [pieces[1]] && pieces[..1] == [pieces[0]];
    }
  }

  // ----- walking a name -----

  function Walk(pieces: seq<string>, queries: seq<string>): seq<string>
    decreases |queries|
  {
    if queries == [] then pieces
    else if queries[0] == ".." then Walk(if pieces == [] then [] else pieces[..|pieces| - 1], queries[1..])
    else if queries[0] == "" || queries[0] == "." then Walk(pieces, queries[1..])
    else Walk(pieces + [queries[0]], queries[1..])
  }

  predicate StartsWithRoot(queries: seq<string>) {
    queries != [] && queries[0] == ""
  }

  /** The name starts at the root: it is empty or begins with a separator. */
  predicate Rooted(name: string) {
    name == "" || name[0] == SEPARATOR
  }

  lemma RootedByText(name: string)
    ensures StartsWithRoot(Split(name)) <==> Rooted(name)
  {
  }

  /** The components of the directory that a name is resolved against. */
  function Base(dir: DirectoryName, queries: seq<string>): (r: seq<string>)
    ensures Components(r)
  {
    if StartsWithRoot(queries) then [] else NonEmpty(Split(dir.queryName))
  }

  function ResolvedPieces(dir: DirectoryName, name: string): seq<string> {
    Walk(Base(dir, Split(name)), Split(name))
  }

  function Resolve(dir: DirectoryName, name: string): string {
    dir.rootName + Join(ResolvedPieces(dir, name))
  }

  lemma {:induction false} WalkAppend(pieces: seq<string>, a: seq<string>, b: seq<string>)
    ensures Walk(pieces, a + b) == Walk(Walk(pieces, a), b)
    decreases |a|
  {
    if a == [] {
      assert a + b == b;
    } else {
      assert (a + b)[1..] == a[1..] + b;
      if a[0] == ".." {
        WalkAppend(if pieces == [] then [] else pieces[..|pieces| - 1], a[1..], b);
      } else if a[0] == "" || a[0] == "." {
        WalkAppend(pieces, a[1..], b);
      } else {
        WalkAppend(pieces + [a[0]], a[1..], b);
      }
    }
  }

  lemma {:induction false} WalkComponents(pieces: seq<string>, queries: seq<string>)
    requires Components(pieces) && Unseparated(queries)
    ensures Components(Walk(pieces, queries))
    decreases |queries|
  {
    if queries != [] {
      if queries[0] == ".." {
        WalkComponents(if pieces == [] then [] else pieces[..|pieces| - 1], queries[1..]);
      } else if queries[0] == "" || queries[0] == "." {
        WalkComponents(pieces, queries[1..]);
      } else {
        WalkComponents(pieces + [queries[0]], queries[1..]);
      }
    }
  }

  lemma ResolvedComponents(dir: DirectoryName, name: string)
    ensures Components(ResolvedPieces(dir, name))
  {
    WalkComponents(Base(dir, Split(name)), Split(name));
  }

  // ----- directories of files -----

  /** A root name ends in its only separator. */
  predicate IsRoot(root: string) {
    root != [] && root[|root| - 1] == SEPARATOR && SEPARATOR !in root[..|root| - 1]
  }

  function FirstSeparator(s: string): (i: nat)
    ensures i <= |s| && SEPARATOR !in s[..i] && (i < |s| ==> s[i] == SEPARATOR)
  {
    if s == [] || s[0] == SEPARATOR then 0
    else
      var i := FirstSeparator(s[1..]);
      assert s[..i + 1] == [s[0]] + s[1..][..i];
      i + 1
  }

  function LastSeparator(s: string): (i: nat)
    requires SEPARATOR in s
    ensures i < |s| && s[i] == SEPARATOR && SEPARATOR !in s[i + 1..]
  {
    if s[|s| - 1] == SEPARATOR then |s| - 1
    else
      assert s == s[..|s| - 1] + [s[|s| - 1]];
      var i := LastSeparator(s[..|s| - 1]);
      assert s[i + 1..] == s[..|s| - 1][i + 1..] + [s[|s| - 1]];
      i
  }

  function DirectoryOf(path: string): Option<DirectoryName> {
    if SEPARATOR !in path then None
    else
      var first, last := FirstSeparator(path), LastSeparator(path);
      if first >= last then Some(DirectoryName(path[..first + 1], ""))
      else Some(DirectoryName(path[..first + 1], path[first + 1..last]))
  }

  lemma FirstSeparatorIs(s: string, i: nat)
    requires i < |s| && s[i] == SEPARATOR && SEPARATOR !in s[..i]
    ensures FirstSeparator(s) == i
  {
    var j := FirstSeparator(s);
    assert forall k | 0 <= k < i :: s[k] == s[..i][k];
    assert forall k | 0 <= k < j :: s[k] == s[..j][k];
  }

  lemma LastSeparatorIs(s: string, i: nat)
    requires i < |s| && s[i] == SEPARATOR && SEPARATOR !in s[i + 1..]
    ensures LastSeparator(s) == i
  {
    var j := LastSeparator(s);
    assert forall k | i < k < |s| :: s[k] == s[i + 1..][k - i - 1];
    assert forall k | j < k < |s| :: s[k] == s[j + 1..][k - j - 1];
  }

  lemma DirectoryOfRootFile(root: string, file: string)
    requires IsRoot(root) && SEPARATOR !in file
    ensures DirectoryOf(root + file) == Some(DirectoryName(root, ""))
  {
    var n := |root| - 1;
    var s := root + file;
    assert s[n] == SEPARATOR && s[..n] == root[..n] && s[n + 1..] == file && s[..n + 1] == root;
    FirstSeparatorIs(s, n);
    LastSeparatorIs(s, n);
  }

  /** The directory of a file is the root and what stands between the root and the file's name. */
  lemma DirectoryOfDeepFile(root: string, query: string, file: string)
    requires IsRoot(root) && SEPARATOR !in file
    ensures DirectoryOf(root + query + [SEPARATOR] + file) == Some(DirectoryName(root, query))
  {
    var n, m := |root| - 1, |root| + |query|;
    var s := root + query + [SEPARATOR] + file;
    assert s[n] == SEPARATOR && s[..n] == root[..n] && s[..n + 1] == root;
    assert s[m] == SEPARATOR && s[m + 1..] == file && s[n + 1..m] == query;
    FirstSeparatorIs(s, n);
    LastSeparatorIs(s, m);
  }

  // ----- composition -----

  lemma ResolveFromPieces(root: string, pieces: seq<string>, b: string)
    requires Components(pieces)
    ensures ResolvedPieces(DirectoryName(root, Join(pieces)), b)
            == Walk(if StartsWithRoot(Split(b)) then [] else pieces, Split(b))
  {
    ComponentsOfJoin(pieces);
  }

  lemma BaseOfAppend(dir: DirectoryName, a: string, b: string)
    ensures ResolvedPieces(dir, a + [SEPARATOR] + b) == Walk(ResolvedPieces(dir, a), Split(b))
  {
    SplitAppend(a, b);
    assert Split(a + [SEPARATOR] + b)[0] == Split(a)[0];
    WalkAppend(Base(dir, Split(a)), Split(a), Split(b));
  }

  /** How many of the pieces that it starts from a walk removes. */
  function Removed(queries: seq<string>): nat {
    RemovedFrom(queries, 0)
  }

  /** The same, for a walk that has pushed `pushed` pieces of its own. */
  function RemovedFrom(queries: seq<string>, pushed: nat): nat {
    if queries == [] then 0
    else if queries[0] == ".." then
      (if pushed == 0 then 1 + RemovedFrom(queries[1..], 0) else RemovedFrom(queries[1..], pushed - 1))
    else if queries[0] == "" || queries[0] == "." then RemovedFrom(queries[1..], pushed)
    else RemovedFrom(queries[1..], pushed + 1)
  }

  function Kept(pieces: seq<string>, removed: nat): seq<string> {
    if removed >= |pieces| then [] else pieces[..|pieces| - removed]
  }

  lemma {:induction false} WalkKeepsFrom(pieces: seq<string>, own: seq<string>, queries: seq<string>)
    ensures Walk(pieces + own, queries) == Kept(pieces, RemovedFrom(queries, |own|)) + Walk(own, queries)
    decreases |queries|
  {
    if queries == [] {
    } else if queries[0] == ".." {
      if own != [] {
        assert (pieces + own)[..|pieces + own| - 1] == pieces + own[..|own| - 1];
        WalkKeepsFrom(pieces, own[..|own| - 1], queries[1..]);
      } else if pieces == [] {
        assert pieces + own == [];
        WalkKeepsFrom([], [], queries[1..]);
      } else {
        var rest := pieces[..|pieces| - 1];
        assert pieces + own == pieces && rest + [] == rest;
        WalkKeepsFrom(rest, [], queries[1..]);
        KeptLess(pieces, RemovedFrom(queries[1..], 0));
      }
    } else if queries[0] == "" || queries[0] == "." {
      WalkKeepsFrom(pieces, own, queries[1..]);
    } else {
      assert pieces + own + [queries[0]] == pieces + (own + [queries[0]]);
      WalkKeepsFrom(pieces, own + [queries[0]], queries[1..]);
    }
  }

  lemma KeptLess(pieces: seq<string>, n: nat)
    requires pieces != []
    ensures Kept(pieces[..|pieces| - 1], n) == Kept(pieces, n + 1)
  {
  }

  /** A walk keeps a prefix of what it starts from, and adds what it would add to nothing. */
  lemma WalkKeeps(pieces: seq<string>, queries: seq<string>)
    ensures Walk(pieces, queries) == Kept(pieces, Removed(queries)) + Walk([], queries)
  {
    assert pieces + [] == pieces;
    WalkKeepsFrom(pieces, [], queries);
  }

  /**
   * Resolving `a/b` is resolving `b` in the directory that `a` resolves to, if and only if `b` does
   * not start at the root or removes everything that `a` leaves.
   */
  lemma ResolutionComposesExactly(dir: DirectoryName, a: string, b: string)
    requires IsRoot(dir.rootName)
    ensures DirectoryOf(Resolve(dir, a) + [SEPARATOR]).Some?
    ensures Resolve(dir, a + [SEPARATOR] + b) == Resolve(DirectoryOf(Resolve(dir, a) + [SEPARATOR]).value, b)
            <==> !Rooted(b) || Removed(Split(b)) >= |ResolvedPieces(dir, a)|
  {
    RootedByText(b);
    var pieces, q := ResolvedPieces(dir, a), Split(b);
    ResolvedComponents(dir, a);
    var text := Join(pieces);
    assert dir.rootName + text + [SEPARATOR] == dir.rootName + text + [SEPARATOR] + "";
    DirectoryOfDeepFile(dir.rootName, text, "");
    ResolveFromPieces(dir.rootName, pieces, b);
    BaseOfAppend(dir, a, b);
    SamePath(dir.rootName, Walk(pieces, q), Walk(if StartsWithRoot(q) then [] else pieces, q), pieces, q);
  }

  lemma SamePath(root: string, x: seq<string>, y: seq<string>, pieces: seq<string>, q: seq<string>)
    requires Components(pieces) && Unseparated(q)
    requires x == Walk(pieces, q) && y == Walk(if StartsWithRoot(q) then [] else pieces, q)
    ensures root + Join(x) == root + Join(y) <==> !StartsWithRoot(q) || Removed(q) >= |pieces|
  {
    WalkComponents(pieces, q);
    WalkComponents([], q);
    WalkKeeps(pieces, q);
    assert StartsWithRoot(q) ==> x == Kept(pieces, Removed(q)) + y && |x| == |Kept(pieces, Removed(q))| + |y|;
    assert StartsWithRoot(q) && Removed(q) >= |pieces| ==> x == y;
    if root + Join(x) == root + Join(y) {
      assert Join(x) == (root + Join(x))[|root|..] == Join(y);
      JoinIsInjective(x, y);
    }
  }

  lemma DirectoryOfResolved(root: string, pieces: seq<string>)
    requires IsRoot(root) && Components(pieces)
    ensures DirectoryOf(root + Join(pieces)) == Some(DirectoryName(root, Join(Kept(pieces, 1))))
  {
    var path := Join(pieces);
    if |pieces| <= 1 {
      DirectoryOfRootFile(root, path);
    } else {
      DirectoryOfLast(root, pieces, path);
    }
  }

  lemma DirectoryOfLast(root: string, pieces: seq<string>, path: string)
    requires IsRoot(root) && Components(pieces) && |pieces| > 1 && path == Join(pieces)
    ensures DirectoryOf(root + path) == Some(DirectoryName(root, Join(Kept(pieces, 1))))
  {
    var rest, file := Join(pieces[..|pieces| - 1]), pieces[|pieces| - 1];
    JoinLast(pieces);
    AppendAssociates(root, rest, file);
    DirectoryOfDeepFile(root, rest, file);
  }

  lemma AppendAssociates(a: string, b: string, c: string)
    ensures a + (b + [SEPARATOR] + c) == a + b + [SEPARATOR] + c
  {
  }

  lemma ResolveParent(dir: DirectoryName, a: string, b: string)
    ensures ResolvedPieces(dir, a + "/../" + b) == Walk(Kept(ResolvedPieces(dir, a), 1), Split(b))
  {
    var up := a + [SEPARATOR] + "..";
    assert a + "/../" + b == up + [SEPARATOR] + b;
    BaseOfAppend(dir, up, b);
    BaseOfAppend(dir, a, "..");
    SplitPiece("..");
    assert Walk(ResolvedPieces(dir, a), [".."]) == Kept(ResolvedPieces(dir, a), 1);
  }

  lemma ResolveInDirectoryOf(dir: DirectoryName, a: string, b: string)
    requires IsRoot(dir.rootName) && !Rooted(b)
    ensures DirectoryOf(Resolve(dir, a)).Some?
    ensures Resolve(DirectoryOf(Resolve(dir, a)).value, b)
            == dir.rootName + Join(Walk(Kept(ResolvedPieces(dir, a), 1), Split(b)))
  {
    var pieces := ResolvedPieces(dir, a);
    RootedByText(b);
    ResolvedComponents(dir, a);
    DirectoryOfResolved(dir.rootName, pieces);
    ResolveFromPieces(dir.rootName, Kept(pieces, 1), b);
  }

  /** A name that does not start at the root, imported by module `a`, is the name `a/../b`. */
  lemma ReferrerComposes(dir: DirectoryName, a: string, b: string)
    requires IsRoot(dir.rootName) && !Rooted(b)
    ensures DirectoryOf(Resolve(dir, a)).Some?
    ensures Resolve(DirectoryOf(Resolve(dir, a)).value, b) == Resolve(dir, a + "/../" + b)
  {
    ResolveInDirectoryOf(dir, a, b);
    ResolveParent(dir, a, b);
  }

  /** It is the name `a/b` only if it removes everything that `a` leaves. */
  lemma ReferrerIsNotDirectoryExactly(dir: DirectoryName, a: string, b: string)
    requires IsRoot(dir.rootName) && !Rooted(b)
    ensures DirectoryOf(Resolve(dir, a)).Some?
    ensures Resolve(DirectoryOf(Resolve(dir, a)).value, b) == Resolve(dir, a + [SEPARATOR] + b)
            <==> Removed(Split(b)) >= |ResolvedPieces(dir, a)|
  {
    var pieces, q := ResolvedPieces(dir, a), Split(b);
    ResolveInDirectoryOf(dir, a, b);
    BaseOfAppend(dir, a, b);
    ResolvedComponents(dir, a);
    SameBelow(dir.rootName, pieces, q);
  }

  lemma SameBelow(root: string, pieces: seq<string>, q: seq<string>)
    requires Components(pieces) && Unseparated(q)
    ensures root + Join(Walk(Kept(pieces, 1), q)) == root + Join(Walk(pieces, q)) <==> Removed(q) >= |pieces|
  {
    var x, y := Walk(Kept(pieces, 1), q), Walk(pieces, q);
    WalkComponents(pieces, q);
    WalkComponents(Kept(pieces, 1), q);
    WalkKeeps(pieces, q);
    WalkKeeps(Kept(pieces, 1), q);
    assert Removed(q) >= |pieces| ==> x == y;
    assert Removed(q) < |pieces| ==> |x| < |y|;
    if root + Join(x) == root + Join(y) {
      assert Join(x) == (root + Join(x))[|root|..] == Join(y);
      JoinIsInjective(x, y);
    }
  }

  // ----- names, read from their text -----

  /** A name from the root forgets the directory. */
  lemma RootedNameStartsAfresh(dir: DirectoryName, name: string)
    requires Rooted(name)
    ensures ResolvedPieces(dir, name) == Walk([], Split(name))
  {
    RootedByText(name);
  }

  /** Any other name keeps the directory but for what it removes, and adds what it would add to nothing. */
  lemma OtherNameStaysBelow(dir: DirectoryName, name: string)
    requires !Rooted(name)
    ensures ResolvedPieces(dir, name)
            == Kept(NonEmpty(Split(dir.queryName)), Removed(Split(name))) + Walk([], Split(name))
  {
    RootedByText(name);
    WalkKeeps(NonEmpty(Split(dir.queryName)), Split(name));
  }

  /** What one piece does to a list of components. */
  function Applied(pieces: seq<string>, piece: string): seq<string> {
    match piece
    case ".." => if pieces == [] then [] else pieces[..|pieces| - 1]
    case "." => pieces
    case "" => pieces
    case _ => pieces + [piece]
  }

  lemma WalkOne(pieces: seq<string>, piece: string)
    ensures Walk(pieces, [piece]) == Applied(pieces, piece)
  {
    assert [piece][1..] == [];
  }

  /** One more piece at the end of a name goes up, stays, or goes down by that component. */
  lemma PieceByPiece(dir: DirectoryName, name: string, piece: string)
    requires SEPARATOR !in piece
    ensures ResolvedPieces(dir, name + [SEPARATOR] + piece) == Applied(ResolvedPieces(dir, name), piece)
    ensures piece != "" ==> ResolvedPieces(dir, piece) == Applied(NonEmpty(Split(dir.queryName)), piece)
    ensures ResolvedPieces(dir, "") == []
  {
    SplitPiece(piece);
    SplitPiece("");
    BaseOfAppend(dir, name, piece);
    WalkOne(ResolvedPieces(dir, name), piece);
    WalkOne(NonEmpty(Split(dir.queryName)), piece);
    WalkOne([], "");
  }

  // ----- canonical results -----

  predicate Canonical(pieces: seq<string>) {
    Components(pieces) && forall i | 0 <= i < |pieces| :: pieces[i] != "." && pieces[i] != ".."
  }

  lemma {:induction false} WalkFromNothing(own: seq<string>, queries: seq<string>)
    requires Canonical(own) && Unseparated(queries)
    ensures Canonical(Walk(own, queries))
    decreases |queries|
  {
    if queries != [] {
      if queries[0] == ".." {
        WalkFromNothing(if own == [] then [] else own[..|own| - 1], queries[1..]);
      } else if queries[0] == "" || queries[0] == "." {
        WalkFromNothing(own, queries[1..]);
      } else {
        WalkFromNothing(own + [queries[0]], queries[1..]);
      }
    }
  }

  /** A result is canonical if and only if the part of the base directory that it keeps is. */
  lemma ResultCanonicalExactly(dir: DirectoryName, name: string)
    ensures Canonical(ResolvedPieces(dir, name)) <==> Canonical(Kept(Base(dir, Split(name)), Removed(Split(name))))
  {
    var q := Split(name);
    var kept, added := Kept(Base(dir, q), Removed(q)), Walk([], q);
    WalkKeeps(Base(dir, q), q);
    WalkFromNothing([], q);
    ResolvedComponents(dir, name);
    assert forall i | 0 <= i < |kept| :: (kept + added)[i] == kept[i];
  }

  /** With a canonical base directory no result has an empty, "." or ".." component. */
  lemma ResultCanonical(dir: DirectoryName, name: string)
    requires Rooted(name) || Canonical(NonEmpty(Split(dir.queryName)))
    ensures Canonical(ResolvedPieces(dir, name))
  {
    RootedByText(name);
    ResultCanonicalExactly(dir, name);
    var base, n := Base(dir, Split(name)), Removed(Split(name));
    assert forall i | 0 <= i < |Kept(base, n)| :: Kept(base, n)[i] == base[i];
  }

  lemma {:induction false} WalkShrinks(own: seq<string>, queries: seq<string>)
    ensures |Walk(own, queries)| <= |own| + |queries|
    ensures (exists i :: 0 <= i < |queries| && (queries[i] == "." || queries[i] == ".."))
            ==> |Walk(own, queries)| < |own| + |queries|
    decreases |queries|
  {
    if queries != [] {
      if queries[0] == ".." {
        WalkShrinks(if own == [] then [] else own[..|own| - 1], queries[1..]);
      } else if queries[0] == "" || queries[0] == "." {
        WalkShrinks(own, queries[1..]);
      } else {
        WalkShrinks(own + [queries[0]], queries[1..]);
      }
    }
  }

  lemma {:induction false} WalkCanonical(own: seq<string>, queries: seq<string>)
    requires Canonical(queries)
    ensures Walk(own, queries) == own + queries
    decreases |queries|
  {
    if queries != [] {
      WalkCanonical(own + [queries[0]], queries[1..]);
      assert own + [queries[0]] + queries[1..] == own + queries;
    }
  }

  lemma SkipEmpty(own: seq<string>, queries: seq<string>)
    ensures Walk(own, [""] + queries) == Walk(own, queries)
  {
    assert ([""] + queries)[1..] == queries;
  }

  lemma WalkJoined(pieces: seq<string>)
    requires Components(pieces)
    ensures Walk([], Split(Join(pieces))) == Walk([], pieces)
  {
    if pieces == [] {
      SkipEmpty([], []);
      assert [""] + [] == [""];
    } else {
      SplitJoin(pieces);
    }
  }

  lemma SplitRooted(path: string)
    ensures Split("/" + path) == [""] + Split(path)
  {
    assert "" + [SEPARATOR] + path == "/" + path;
    SplitAppend("", path);
  }

  /** An absolute path splits into an empty piece and the components. */
  lemma SplitAbsolute(pieces: seq<string>)
    requires Components(pieces)
    ensures StartsWithRoot(Split("/" + Join(pieces)))
    ensures Walk([], Split("/" + Join(pieces))) == Walk([], pieces)
  {
    var path := Join(pieces);
    SplitRooted(path);
    SkipEmpty([], Split(path));
    WalkJoined(pieces);
  }

  /** Resolving a result again gives it back if and only if it is canonical. */
  lemma ReresolvingIsIdentityExactly(dir: DirectoryName, name: string, from: DirectoryName)
    requires dir.rootName == from.rootName == "/"
    ensures Resolve(from, Resolve(dir, name)) == Resolve(dir, name) <==> Canonical(ResolvedPieces(dir, name))
  {
    var pieces := ResolvedPieces(dir, name);
    ResolvedComponents(dir, name);
    SplitAbsolute(pieces);
    var again := Walk([], pieces);
    WalkComponents([], pieces);
    assert ResolvedPieces(from, Resolve(dir, name)) == again;
    WalkShrinks([], pieces);
    if Canonical(pieces) {
      WalkCanonical([], pieces);
      assert again == pieces;
    }
    if "/" + Join(again) == "/" + Join(pieces) {
      assert Join(again) == ("/" + Join(again))[1..] == Join(pieces);
      JoinIsInjective(again, pieces);
    }
  }

  // ----- the program -----

  /** The first separator at or after `from`, or the length. */
  method Find(s: string, from: nat) returns (i: nat)
    requires from <= |s|
    ensures from <= i <= |s| && SEPARATOR !in s[from..i] && (i < |s| ==> s[i] == SEPARATOR)
  {
    i := from;
    while i < |s| && s[i] != SEPARATOR
      invariant from <= i <= |s| && SEPARATOR !in s[from..i]
    {
      assert s[from..i + 1] == s[from..i] + [s[i]];
      i := i + 1;
    }
  }

  /** The last separator. */
  method ReverseFind(s: string) returns (i: nat)
    requires SEPARATOR in s
    ensures i == LastSeparator(s)
  {
    i := |s| - 1;
    while s[i] != SEPARATOR
      invariant i < |s| && SEPARATOR in s[..i + 1] && SEPARATOR !in s[i + 1..]
      decreases i
    {
      assert s[..i + 1] == s[..i] + [s[i]];
      assert s[i..] == [s[i]] + s[i + 1..];
      i := i - 1;
    }
    LastSeparatorIs(s, i);
  }

  lemma SplitAt(s: string, from: nat, end: nat)
    requires from <= end < |s| && s[end] == SEPARATOR && SEPARATOR !in s[from..end]
    ensures Split(s[from..]) == [s[from..end]] + Split(s[end + 1..])
  {
    assert s[from..] == s[from..end] + [SEPARATOR] + s[end + 1..];
    SplitAppend(s[from..end], s[end + 1..]);
    SplitPiece(s[from..end]);
  }

  function Entries(s: string, allowEmpty: bool): seq<string> {
    if allowEmpty then Split(s) else NonEmpty(Split(s))
  }

  lemma EntriesAt(s: string, allowEmpty: bool, from: nat, end: nat)
    requires from <= end < |s| && s[end] == SEPARATOR && SEPARATOR !in s[from..end]
    ensures Entries(s[from..], allowEmpty)
            == (if allowEmpty || from != end then [s[from..end]] else []) + Entries(s[end + 1..], allowEmpty)
  {
    SplitAt(s, from, end);
    NonEmptyAppend([s[from..end]], Split(s[end + 1..]));
    assert NonEmpty([s[from..end]]) == if from != end then [s[from..end]] else [];
  }

  lemma EntriesEnd(s: string, allowEmpty: bool)
    requires SEPARATOR !in s
    ensures Entries(s, allowEmpty) == if allowEmpty || s != "" then [s] else []
  {
    SplitPiece(s);
    assert NonEmpty([s]) == if s == "" then [] else [s];
  }

  method SplitString(s: string, allowEmpty: bool) returns (result: seq<string>)
    ensures result == Entries(s, allowEmpty)
  {
    result := [];
    var start := 0;
    ghost var all := Entries(s, allowEmpty);
    var end := Find(s, start);
    assert s[0..] == s;
    while end < |s|
      invariant start <= end <= |s| && SEPARATOR !in s[start..end] && (end < |s| ==> s[end] == SEPARATOR)
      invariant all == result + Entries(s[start..], allowEmpty)
      decreases |s| - end
    {
      result := SplitOne(s, allowEmpty, start, end, result, all);
      start := end + 1;
      end := Find(s, start);
    }
    assert s[start..end] == s[start..];
    EntriesEnd(s[start..], allowEmpty);
    if allowEmpty || start != |s| {
      result := result + [s[start..]];
    }
  }

  /** Append the piece up to the separator at `end`, unless it is empty and empty ones are dropped. */
  method SplitOne(s: string, allowEmpty: bool, start: nat, end: nat, result: seq<string>, ghost all: seq<string>)
    returns (more: seq<string>)
    requires start <= end < |s| && s[end] == SEPARATOR && SEPARATOR !in s[start..end]
    requires all == result + Entries(s[start..], allowEmpty)
    ensures all == more + Entries(s[end + 1..], allowEmpty)
  {
    EntriesAt(s, allowEmpty, start, end);
    var head := if allowEmpty || start != end then [s[start..end]] else [];
    MoveOver(result, head, Entries(s[end + 1..], allowEmpty), all);
    more := result + head;
  }

  lemma MoveOver(a: seq<string>, b: seq<string>, c: seq<string>, all: seq<string>)
    requires all == a + (b + c)
    ensures all == (a + b) + c
  {
  }

  method ExtractDirectoryName(path: string) returns (r: Option<DirectoryName>)
    ensures r == DirectoryOf(path)
  {
    var first := Find(path, 0);
    assert path[0..first] == path[..first];
    if first == |path| {
      assert path[..first] == path;
      return None;
    }
    assert path[first] in path;
    FirstSeparatorIs(path, first);
    var root := path[..first + 1];
    var last := ReverseFind(path);
    if first == last {
      r := Some(DirectoryName(root, ""));
    } else {
      NotBefore(path, first, last);
      r := Some(DirectoryName(root, path[first + 1..last]));
    }
  }

  lemma NotBefore(s: string, first: nat, last: nat)
    requires first < |s| && last < |s| && s[last] == SEPARATOR && SEPARATOR !in s[..first]
    ensures first <= last
  {
    assert forall k | 0 <= k < first :: s[k] == s[..first][k];
  }

  lemma {:induction false} JoinFrom(pieces: seq<string>, i: nat)
    requires i < |pieces|
    ensures Join(pieces[i..]) == pieces[i] + if i + 1 != |pieces| then [SEPARATOR] + Join(pieces[i + 1..]) else ""
  {
    assert pieces[i..][1..] == pieces[i + 1..];
  }

  /** The path of `name` from the directory. */
  method ResolvePath(dir: DirectoryName, name: string) returns (path: string)
    ensures path == Resolve(dir, name)
  {
    var queries := SplitString(name, true);
    var pieces := SplitString(dir.queryName, false);
    if queries != [] && queries[0] == "" {
      pieces := [];
    }
    ghost var result := Walk(pieces, queries);
    for i := 0 to |queries|
      invariant Walk(pieces, queries[i..]) == result
    {
      assert queries[i..][1..] == queries[i + 1..];
      if queries[i] == ".." {
        if pieces != [] { pieces := pieces[..|pieces| - 1]; }
      } else if queries[i] != "" && queries[i] != "." {
        pieces := pieces + [queries[i]];
      }
    }
    path := dir.rootName;
    for i := 0 to |pieces|
      invariant path + Join(pieces[i..]) == dir.rootName + Join(pieces)
    {
      JoinFrom(pieces, i);
      path := path + pieces[i];
      if i + 1 != |pieces| {
        path := path + [SEPARATOR];
      }
    }
  }

  // ----- names for which the promises fail -----

  lemma {:induction false} SplitPieces(a: string, b: string)
    requires SEPARATOR !in a && SEPARATOR !in b
    ensures Split(a) == [a] && Split(a + [SEPARATOR] + b) == [a, b]
  {
    SplitPiece(a);
    SplitPiece(b);
    SplitAppend(a, b);
  }

  const DOTTED := DirectoryName("/", "a/..")

  lemma DottedDirectory()
    ensures DirectoryOf("/a/../m") == Some(DOTTED)
  {
    assert "/" + "a/.." + [SEPARATOR] + "m" == "/a/../m";
    DirectoryOfDeepFile("/", "a/..", "m");
  }

  lemma DottedPieces()
    ensures NonEmpty(Split("a/..")) == ["a", ".."]
  {
    assert "a" + [SEPARATOR] + ".." == "a/..";
    SplitPieces("a", "..");
    NonEmptyComponents(["a", ".."]);
  }

  lemma DottedResult()
    ensures ResolvedPieces(DOTTED, "x") == ["a", "..", "x"]
  {
    DottedPieces();
    SplitPiece("x");
    WalkCanonical(["a", ".."], ["x"]);
    assert ["a", ".."] + ["x"] == ["a", "..", "x"];
  }

  /** The directory of the path "/a/../m" is not canonical, nor is a name resolved in it. */
  lemma DottedDirectoryStays()
    ensures DirectoryOf("/a/../m") == Some(DOTTED) && !Canonical(ResolvedPieces(DOTTED, "x"))
    ensures Resolve(DirectoryName("/", ""), Resolve(DOTTED, "x")) != Resolve(DOTTED, "x")
  {
    DottedDirectory();
    DottedResult();
    assert ResolvedPieces(DOTTED, "x")[1] == "..";
    ReresolvingIsIdentityExactly(DOTTED, "x", DirectoryName("/", ""));
  }

  /** A name imported by module "x" of the root directory is not a name below "x". */
  lemma ModuleIsNotDirectory()
    ensures DirectoryOf(Resolve(DirectoryName("/", ""), "x")).Some?
    ensures Resolve(DirectoryOf(Resolve(DirectoryName("/", ""), "x")).value, "y")
            != Resolve(DirectoryName("/", ""), "x" + [SEPARATOR] + "y")
  {
    var dir := DirectoryName("/", "");
    SplitPiece("");
    SplitPiece("x");
    SplitPiece("y");
    assert NonEmpty([""]) == NonEmpty([""][1..]) && ["x"][1..] == [] && ["y"][1..] == [];
    assert ResolvedPieces(dir, "x") == [] + ["x"];
    assert Removed(["y"]) == RemovedFrom(["y"][1..], 1) == 0;
    ReferrerIsNotDirectoryExactly(dir, "x", "y");
  }

  /** A second name from the root starts afresh, where the joined name goes on. */
  lemma RootedNameDoesNotCompose()
    ensures DirectoryOf(Resolve(DirectoryName("/", ""), "x") + [SEPARATOR]).Some?
    ensures Resolve(DirectoryName("/", ""), "x" + [SEPARATOR] + "/y")
            != Resolve(DirectoryOf(Resolve(DirectoryName("/", ""), "x") + [SEPARATOR]).value, "/y")
  {
    var dir := DirectoryName("/", "");
    SplitPieces("", "y");
    assert "" + [SEPARATOR] + "y" == "/y";
    SplitPiece("x");
    assert NonEmpty([""]) == NonEmpty([""][1..]) && ["x"][1..] == [] && ["", "y"][1..] == ["y"] && ["y"][1..] == [];
    assert ResolvedPieces(dir, "x") == [] + ["x"];
    assert Removed(["", "y"]) == RemovedFrom(["y"], 0) == RemovedFrom(["y"][1..], 1) == 0;
    ResolutionComposesExactly(dir, "x", "/y");
  }
}

/** The canonical dependency text behind the layer hash (scripts/layer_manifest.py). The hash itself is a
    function of this text and is not modelled. */
module Manifest {
  import opened Prelude
  import opened Text
  import opened Sorting

  const MARK := "---lockfile---"

  /** The stripped dependencies in code-point order. */
  function SortedDeps(deps: seq<string>): seq<string> {
    SortBy(StringLe, Map(Strip, deps))
  }

  /** The text that is hashed. */
  function Canonical(deps: seq<string>, lockfile: Option<string>): string {
    var text := Join(SortedDeps(deps), '\n');
    if lockfile.Some? then text + "\n" + MARK + "\n" + lockfile.value else text
  }

  /** A dependency that is one line of the text, and not the marker. */
  predicate OneLine(dep: string) {
    '\n' !in Strip(dep) && Strip(dep) != MARK
  }

  /** A dependency line that cannot be mistaken for anything else. */
  predicate Plain(dep: string) {
    Strip(dep) != "" && OneLine(dep)
  }

  /** Dependencies whose text is empty: none, or a single blank one. */
  predicate NoText(deps: seq<string>) {
    deps == [] || (|deps| == 1 && Strip(deps[0]) == "")
  }

  lemma StringLeSeparates()
    ensures forall a: string, b: string :: StringLe(a, b) && StringLe(b, a) ==> a == b
  {
    forall a: string, b: string | StringLe(a, b) && StringLe(b, a) ensures a == b {
      StringAntisymmetric(a, b);
    }
  }

  /** The sorted list determines, and is determined by, the multiset of stripped dependencies. */
  lemma SortedDepsIff(deps: seq<string>, others: seq<string>)
    ensures SortedDeps(deps) == SortedDeps(others) <==> multiset(Map(Strip, deps)) == multiset(Map(Strip, others))
  {
    hide Strip, StringLe;
    var xs, ys := Map(Strip, deps), Map(Strip, others);
    StringLeIsTotalPreorder();
    StringLeSeparates();
    SortBySorted(StringLe, xs);
    SortBySorted(StringLe, ys);
    if multiset(xs) == multiset(ys) {
      SortedPermutation(StringLe, SortBy(StringLe, xs), SortBy(StringLe, ys));
    } else {
      assert multiset(SortBy(StringLe, xs)) != multiset(SortBy(StringLe, ys));
    }
  }

  /** The order of the sorted list is that of the code points. */
  lemma SortedDepsAscend(deps: seq<string>, j: nat, k: nat)
    requires j < k < |SortedDeps(deps)|
    ensures var s, t := SortedDeps(deps)[j], SortedDeps(deps)[k];
            s <= t || exists n :: 0 <= n < |s| && n < |t| && s[..n] == t[..n] && s[n] as int < t[n] as int
  {
    hide Strip, StringLe;
    StringLeIsTotalPreorder();
    SortBySorted(StringLe, Map(Strip, deps));
    StringLeIff(SortedDeps(deps)[j], SortedDeps(deps)[k]);
  }

  /** The text: the sorted dependencies one to a line, and after a marker line the lockfile. */
  lemma CanonicalIs(deps: seq<string>, content: string)
    ensures Canonical(deps, None) == Join(SortedDeps(deps), '\n')
    ensures Canonical(deps, Some(content)) == Join(SortedDeps(deps), '\n') + "\n---lockfile---\n" + content
  {
    hide Join, SortedDeps;
  }

  // ---- The lines of the text ----

  /** Joining no strings looks like joining one empty string. */
  function Shown(lines: seq<string>): seq<string> {
    if lines == [] then [""] else lines
  }

  /** The lines that a list of dependencies takes up. */
  function LinesOf(deps: seq<string>): seq<string> {
    if deps == [] then [] else Split(deps[0], '\n') + LinesOf(deps[1..])
  }

  function DepLines(deps: seq<string>): seq<string> {
    LinesOf(Shown(SortedDeps(deps)))
  }

  function LockLines(lockfile: Option<string>): seq<string> {
    match lockfile
    case None => []
    case Some(content) => [MARK] + Split(content, '\n')
  }

  lemma {:induction false} SplitConcat(a: string, b: string)
    ensures Split(a + "\n" + b, '\n') == Split(a, '\n') + Split(b, '\n')
  {
    var s := a + "\n" + b;
    if a == [] {
      assert s[1..] == b;
    } else {
      assert s[0] == a[0] && s[1..] == a[1..] + "\n" + b;
      SplitConcat(a[1..], b);
    }
  }

  lemma {:induction false} SplitOfJoined(parts: seq<string>)
    requires parts != []
    ensures Split(Join(parts, '\n'), '\n') == LinesOf(parts)
  {
    hide Split;
    if |parts| == 1 {
      assert LinesOf(parts[1..]) == [];
    } else {
      SplitOfJoined(parts[1..]);
      SplitConcat(parts[0], Join(parts[1..], '\n'));
    }
  }

  lemma MarkedText(text: string, mark: string, content: string)
    requires '\n' !in mark
    ensures Split(text + "\n" + mark + "\n" + content, '\n') == Split(text, '\n') + ([mark] + Split(content, '\n'))
  {
    hide Split;
    assert text + "\n" + mark + "\n" + content == text + "\n" + (mark + "\n" + content);
    SplitConcat(text, mark + "\n" + content);
    SplitConcat(mark, content);
    SplitOfPart(mark, '\n');
  }

  lemma MarkIsOneLine()
    ensures '\n' !in MARK
  {}

  lemma LinesOfJoin(lines: seq<string>)
    ensures Split(Join(lines, '\n'), '\n') == LinesOf(Shown(lines))
  {
    hide Split, LinesOf;
    SplitOfJoined(Shown(lines));
  }

  /** The text read line by line: the dependencies' lines, then the marker and the lockfile's. */
  lemma LinesOfCanonical(deps: seq<string>, lockfile: Option<string>)
    ensures Split(Canonical(deps, lockfile), '\n') == DepLines(deps) + LockLines(lockfile)
  {
    hide Split, MARK, SortedDeps, LinesOf, Join, Shown;
    MarkIsOneLine();
    LinesOfJoin(SortedDeps(deps));
    match lockfile
    case None => assert DepLines(deps) + [] == DepLines(deps);
    case Some(content) => MarkedText(Join(SortedDeps(deps), '\n'), MARK, content);
  }

  /** For any two inputs at all: the texts are equal exactly when they have the same lines. */
  lemma CanonicalMergesIff(deps: seq<string>, lockfile: Option<string>, others: seq<string>, otherLock: Option<string>)
    ensures Canonical(deps, lockfile) == Canonical(others, otherLock)
       <==> DepLines(deps) + LockLines(lockfile) == DepLines(others) + LockLines(otherLock)
  {
    hide Split, Join, Canonical, DepLines, LockLines;
    LinesOfCanonical(deps, lockfile);
    LinesOfCanonical(others, otherLock);
    JoinOfSplit(Canonical(deps, lockfile), '\n');
    JoinOfSplit(Canonical(others, otherLock), '\n');
  }

  /** A list splits in only one way at its first marker. */
  lemma FirstMarker(a: seq<string>, b: seq<string>, c: seq<string>, d: seq<string>)
    requires MARK !in a && MARK !in c && a + [MARK] + b == c + [MARK] + d
    ensures a == c && b == d
  {
    hide MARK;
    if |a| < |c| {
      MarkerIsLater(a, b, c, d);
    } else if |c| < |a| {
      MarkerIsLater(c, d, a, b);
    } else {
      var s := a + [MARK] + b;
      assert a == s[..|a|] && c == s[..|a|] && b == s[|a| + 1..] && d == s[|a| + 1..];
    }
  }

  lemma MarkerIsLater(a: seq<string>, b: seq<string>, c: seq<string>, d: seq<string>)
    requires a + [MARK] + b == c + [MARK] + d && |a| < |c|
    ensures MARK in c
  {
    hide MARK;
    assert (a + [MARK] + b)[|a|] == MARK && (c + [MARK] + d)[|a|] == c[|a|];
  }

  lemma LockedHasMark(x: seq<string>, lockfile: Option<string>)
    requires MARK !in x
    ensures MARK in x + LockLines(lockfile) <==> lockfile.Some?
    ensures lockfile.None? ==> x + LockLines(lockfile) == x
  {
    hide MARK, Split;
    if lockfile.Some? { assert (x + LockLines(lockfile))[|x|] == MARK; }
  }

  lemma LockedLinesInjective(x: seq<string>, a: string, y: seq<string>, b: string)
    requires MARK !in x && MARK !in y
    requires x + LockLines(Some(a)) == y + LockLines(Some(b))
    ensures x == y && a == b
  {
    hide MARK, Split, Join;
    var p, q := Split(a, '\n'), Split(b, '\n');
    assert x + [MARK] + p == x + LockLines(Some(a)) && y + [MARK] + q == y + LockLines(Some(b));
    FirstMarker(x, p, y, q);
    JoinOfSplit(a, '\n');
    JoinOfSplit(b, '\n');
  }

  lemma MarkedLinesInjective(x: seq<string>, lockA: Option<string>, y: seq<string>, lockB: Option<string>)
    requires MARK !in x && MARK !in y
    ensures x + LockLines(lockA) == y + LockLines(lockB) <==> x == y && lockA == lockB
  {
    hide MARK, LockLines;
    LockedHasMark(x, lockA);
    LockedHasMark(y, lockB);
    if x + LockLines(lockA) == y + LockLines(lockB) && lockA.Some? {
      LockedLinesInjective(x, lockA.value, y, lockB.value);
    }
  }

  // ---- Dependencies of one line ----

  lemma {:induction false} LinesOfOneLiners(lines: seq<string>)
    requires forall l :: l in lines ==> '\n' !in l
    ensures LinesOf(lines) == lines
  {
    hide Split;
    if lines != [] {
      SplitOfPart(lines[0], '\n');
      LinesOfOneLiners(lines[1..]);
      assert lines == [lines[0]] + lines[1..];
    }
  }

  lemma SortedDepsElements(deps: seq<string>)
    ensures forall l :: l in SortedDeps(deps) ==> exists d :: d in deps && Strip(d) == l
  {
    hide Strip, StringLe;
    var stripped := Map(Strip, deps);
    SortByElements(StringLe, stripped);
    forall l | l in stripped ensures exists d :: d in deps && Strip(d) == l {
      var k :| 0 <= k < |deps| && stripped[k] == l;
      assert deps[k] in deps;
    }
  }

  lemma DepLinesOfOneLiners(deps: seq<string>)
    requires forall d :: d in deps ==> '\n' !in Strip(d)
    ensures DepLines(deps) == Shown(SortedDeps(deps))
  {
    hide Strip, SortedDeps, LinesOf;
    SortedDepsElements(deps);
    LinesOfOneLiners(Shown(SortedDeps(deps)));
  }

  lemma MarkIsNoDependency(deps: seq<string>)
    requires forall d :: d in deps ==> Strip(d) != MARK
    ensures MARK !in Shown(SortedDeps(deps))
  {
    assert MARK != "";
    hide Strip, SortedDeps, MARK;
    SortedDepsElements(deps);
  }

  lemma SortedDepsLength(deps: seq<string>)
    ensures |SortedDeps(deps)| == |deps|
    ensures |deps| == 1 ==> SortedDeps(deps) == [Strip(deps[0])]
  {
    hide Strip, StringLe;
    StringLeIsTotalPreorder();
    var stripped := Map(Strip, deps);
    SortBySorted(StringLe, stripped);
    assert multiset(SortBy(StringLe, stripped)) == multiset(stripped);
    assert |multiset(SortBy(StringLe, stripped))| == |SortBy(StringLe, stripped)|;
    assert |multiset(stripped)| == |stripped|;
    if |deps| == 1 {
      assert stripped == [Strip(deps[0])];
      SortOfSorted(StringLe, stripped);
    }
  }

  lemma ShownIff(deps: seq<string>, others: seq<string>)
    ensures Shown(SortedDeps(deps)) == Shown(SortedDeps(others))
       <==> multiset(Map(Strip, deps)) == multiset(Map(Strip, others)) || (NoText(deps) && NoText(others))
  {
    hide Strip, SortedDeps;
    SortedDepsIff(deps, others);
    SortedDepsLength(deps);
    SortedDepsLength(others);
  }

  /** The exact theorem on dependencies of one line, the marker excluded: the texts are equal exactly when
      the lockfiles (absent, or present with their content) are, and the multisets of stripped dependencies
      are - or one input has no dependencies at all and the other a single blank one. */
  lemma CanonicalExactly(deps: seq<string>, lockfile: Option<string>, others: seq<string>, otherLock: Option<string>)
    requires forall d :: d in deps || d in others ==> OneLine(d)
    ensures Canonical(deps, lockfile) == Canonical(others, otherLock)
       <==> && lockfile == otherLock
            && (multiset(Map(Strip, deps)) == multiset(Map(Strip, others)) || (NoText(deps) && NoText(others)))
  {
    hide Canonical, SortedDeps, Shown, DepLines, LockLines, NoText, MARK, Strip;
    CanonicalMergesIff(deps, lockfile, others, otherLock);
    DepLinesOfOneLiners(deps);
    DepLinesOfOneLiners(others);
    MarkIsNoDependency(deps);
    MarkIsNoDependency(others);
    MarkedLinesInjective(DepLines(deps), lockfile, DepLines(others), otherLock);
    ShownIff(deps, others);
  }

  /** On plain dependencies the text merges no two different inputs and splits no two equal ones. */
  lemma CanonicalIff(deps: seq<string>, lockfile: Option<string>, others: seq<string>, otherLock: Option<string>)
    requires forall d :: d in deps || d in others ==> Plain(d)
    ensures Canonical(deps, lockfile) == Canonical(others, otherLock)
       <==> multiset(Map(Strip, deps)) == multiset(Map(Strip, others)) && lockfile == otherLock
  {
    hide Canonical, Strip, OneLine;
    CanonicalExactly(deps, lockfile, others, otherLock);
    assert NoText(deps) ==> deps == [] by { assert deps != [] ==> Plain(deps[0]); }
    assert NoText(others) ==> others == [] by { assert others != [] ==> Plain(others[0]); }
  }

  // ---- Each exclusion is needed ----

  /** A blank dependency is lost exactly when it is the only one. */
  lemma BlankVanishesIff(dep: string, deps: seq<string>, lockfile: Option<string>)
    requires Strip(dep) == ""
    ensures Canonical([dep] + deps, lockfile) == Canonical(deps, lockfile) <==> deps == []
  {
    hide Canonical, Strip, LockLines, LinesOf;
    CanonicalMergesIff([dep] + deps, lockfile, deps, lockfile);
    BlankIsFirstLine(dep, deps);
    SortedDepsLength(deps);
    var lines, longer := DepLines(deps), DepLines([dep] + deps);
    if deps == [] {
      assert lines == longer;
    } else {
      assert |longer + LockLines(lockfile)| == |lines + LockLines(lockfile)| + 1;
    }
  }

  lemma BlankSortsFirst(dep: string, deps: seq<string>)
    requires Strip(dep) == ""
    ensures SortedDeps([dep] + deps) == [""] + SortedDeps(deps)
  {
    hide Strip;
    var xs := Map(Strip, deps);
    assert Map(Strip, [dep] + deps) == [""] + xs;
    assert ([""] + xs)[1..] == xs;
    assert Codes("") == [];
  }

  lemma BlankIsFirstLine(dep: string, deps: seq<string>)
    requires Strip(dep) == ""
    ensures DepLines([dep] + deps) == [""] + if deps == [] then [] else DepLines(deps)
  {
    assert Split("", '\n') == [""];
    hide Strip, SortedDeps, Split;
    SortedDepsLength(deps);
    BlankSortsFirst(dep, deps);
    var sorted := SortedDeps(deps);
    assert ([""] + sorted)[1..] == sorted;
    assert LinesOf([""] + sorted) == [""] + LinesOf(sorted);
    assert deps == [] ==> LinesOf(sorted) == [];
  }

  /** With the same lockfile, texts are equal exactly when the dependencies' lines are. So a dependency
      with line breaks is taken for dependencies of one line exactly when its lines, in order, are theirs. */
  lemma LineBreakMergesIff(dep: string, deps: seq<string>, lockfile: Option<string>)
    requires forall d :: d in deps ==> '\n' !in Strip(d)
    ensures Canonical([dep], lockfile) == Canonical(deps, lockfile)
       <==> Split(Strip(dep), '\n') == Shown(SortedDeps(deps))
  {
    hide Canonical, Strip, LockLines, Split, SortedDeps;
    CanonicalMergesIff([dep], lockfile, deps, lockfile);
    DepLinesOfOneLiners(deps);
    SortedDepsLength([dep]);
    assert [Strip(dep)][1..] == [];
    assert LinesOf([Strip(dep)]) == Split(Strip(dep), '\n') + LinesOf([]);
    assert DepLines([dep]) == Split(Strip(dep), '\n');
    SameEnd(DepLines([dep]), DepLines(deps), LockLines(lockfile));
  }

  lemma SameEnd(x: seq<string>, y: seq<string>, z: seq<string>)
    ensures x + z == y + z <==> x == y
  {
    if x + z == y + z {
      assert x == (x + z)[..|x|] && y == (y + z)[..|y|];
    }
  }

  /** Dependencies alone are taken for others with a lockfile exactly when their lines are the others',
      then the marker, then the lockfile's. */
  lemma MarkerMergesIff(deps: seq<string>, others: seq<string>, content: string)
    ensures Canonical(deps, None) == Canonical(others, Some(content))
       <==> DepLines(deps) == DepLines(others) + [MARK] + Split(content, '\n')
  {
    hide Canonical, DepLines, Split, MARK;
    CanonicalMergesIff(deps, None, others, Some(content));
    assert DepLines(deps) + LockLines(None) == DepLines(deps);
    assert DepLines(others) + LockLines(Some(content)) == DepLines(others) + [MARK] + Split(content, '\n');
  }

  // ---- Inputs that do merge ----

  lemma MapOfStripped(deps: seq<string>)
    requires forall d :: d in deps ==> Strip(d) == d
    ensures Map(Strip, deps) == deps
  {}

  lemma JoinOne(a: string)
    ensures Join([a], '\n') == a
  {}

  lemma JoinMore(a: string, more: seq<string>)
    requires more != []
    ensures Join([a] + more, '\n') == a + "\n" + Join(more, '\n')
  {
    assert ([a] + more)[1..] == more;
  }

  lemma SortedDepsOfSorted(deps: seq<string>)
    requires (forall d :: d in deps ==> Strip(d) == d) && Sorted(StringLe, deps)
    ensures SortedDeps(deps) == deps
  {
    hide Strip, StringLe;
    MapOfStripped(deps);
    SortOfSorted(StringLe, deps);
  }

  /** For example: one dependency "a LF b" against the two dependencies a and b, when these sort in that order. */
  lemma LineBreakSplitsDependency(a: string, b: string, lockfile: Option<string>)
    requires Strip(a) == a && Strip(b) == b && Strip(a + "\n" + b) == a + "\n" + b && StringLe(a, b)
    ensures Canonical([a + "\n" + b], lockfile) == Canonical([a, b], lockfile)
  {
    hide Strip, StringLe, MARK, SortedDeps, Join;
    SortedDepsOfSorted([a + "\n" + b]);
    SortedDepsOfSorted([a, b]);
    JoinOne(a + "\n" + b);
    JoinOne(b);
    JoinMore(a, [b]);
    assert [a] + [b] == [a, b];
  }

  lemma MarkIsStripped()
    ensures Strip(MARK) == MARK
  {
    hide Strip;
    assert MARK[0] == '-' && MARK[|MARK| - 1] == '-';
  }

  /** For example: the marker as a dependency, with others that sort before and after it. */
  lemma MarkerForgesLockfile(a: string, b: string)
    requires Strip(a) == a && Strip(b) == b && StringLe(a, MARK) && StringLe(MARK, b) && StringLe(a, b)
    ensures Canonical([a, MARK, b], None) == Canonical([a], Some(b))
  {
    hide Strip, StringLe, MARK, SortedDeps, Join;
    MarkIsStripped();
    SortedDepsOfSorted([a, MARK, b]);
    SortedDepsOfSorted([a]);
    JoinOne(a);
    JoinOne(b);
    JoinMore(MARK, [b]);
    JoinMore(a, [MARK] + [b]);
    assert [a] + ([MARK] + [b]) == [a, MARK, b];
    assert a + "\n" + (MARK + "\n" + b) == a + "\n" + MARK + "\n" + b;
  }
}

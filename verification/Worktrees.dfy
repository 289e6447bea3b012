/** Worktrees of scripts/issue_tool/worktree.py: the porcelain listing, branch names, lookup by issue
    number, and fresh directory names. */
module Worktrees {
  import opened Prelude
  import opened Text
  import opened Issues
  import opened Queue

  // ---- Lines ----

  /** Where `str.splitlines()` ends a line. */
  predicate IsLineBreak(c: char) {
    var u := c as int;
    10 <= u <= 13 || 28 <= u <= 30 || u == 0x85 || u == 0x2028 || u == 0x2029
  }

  predicate OneLine(s: string) {
    forall i :: 0 <= i < |s| ==> !IsLineBreak(s[i])
  }

  function SplitLines(s: string): (lines: seq<string>)
    ensures s != [] ==> lines != []
  {
    if s == [] then []
    else if s[0] == '\r' && |s| > 1 && s[1] == '\n' then [[]] + SplitLines(s[2..])
    else if IsLineBreak(s[0]) then [[]] + SplitLines(s[1..])
    else if |s| == 1 then [s]
    else
      var rest := SplitLines(s[1..]);
      [[s[0]] + rest[0]] + rest[1..]
  }

  function Unlines(lines: seq<string>): string {
    if lines == [] then [] else lines[0] + "\n" + Unlines(lines[1..])
  }

  lemma {:induction false} SplitFirstLine(line: string, rest: string)
    requires OneLine(line)
    ensures SplitLines(line + "\n" + rest) == [line] + SplitLines(rest)
  {
    var s := line + "\n" + rest;
    if line == [] {
      assert s[1..] == rest;
    } else {
      assert s[0] == line[0] && s[1..] == line[1..] + "\n" + rest;
      assert OneLine(line[1..]);
      SplitFirstLine(line[1..], rest);
      assert [line[0]] + line[1..] == line;
      assert ([line[1..]] + SplitLines(rest))[1..] == SplitLines(rest);
    }
  }

  lemma {:induction false} SplitOfUnlines(lines: seq<string>)
    requires forall l :: l in lines ==> OneLine(l)
    ensures SplitLines(Unlines(lines)) == lines
  {
    if lines != [] {
      SplitOfUnlines(lines[1..]);
      SplitFirstLine(lines[0], Unlines(lines[1..]));
    }
  }

  // ---- The porcelain listing ----

  datatype WorktreeInfo = WorktreeInfo(path: string, head: string, branch: string, isPrimary: bool)

  const DETACHED := "(detached)"

  const WORKTREE := "worktree "
  const HEAD := "HEAD "
  const BRANCH := "branch refs/heads/"

  /** The block being read: no path means between blocks. */
  datatype Cursor = Cursor(path: Option<string>, head: string, branch: string)

  const BETWEEN := Cursor(None, "", DETACHED)

  function Flushed(cur: Cursor): seq<WorktreeInfo> {
    if cur.path.Some? then [WorktreeInfo(cur.path.value, cur.head, cur.branch, false)] else []
  }

  /** What one line of the listing does: the worktree it completes, if any, and the block after it.
      `resolve` stands for resolving a path in the file system. */
  function Advance(resolve: string -> string, line: string, cur: Cursor): (seq<WorktreeInfo>, Cursor) {
    if WORKTREE <= line then (Flushed(cur), Cursor(Some(resolve(line[|WORKTREE|..])), "", DETACHED))
    else if HEAD <= line then ([], cur.(head := line[|HEAD|..]))
    else if BRANCH <= line then ([], cur.(branch := line[|BRANCH|..]))
    else if Strip(line) == "" && cur.path.Some? then (Flushed(cur), BETWEEN)
    else ([], cur)
  }

  function ParseLines(resolve: string -> string, lines: seq<string>, cur: Cursor): seq<WorktreeInfo> {
    if lines == [] then Flushed(cur)
    else
      var (done, next) := Advance(resolve, lines[0], cur);
      done + ParseLines(resolve, lines[1..], next)
  }

  lemma ParseStep(resolve: string -> string, line: string, rest: seq<string>, cur: Cursor)
    ensures var (done, next) := Advance(resolve, line, cur);
            ParseLines(resolve, [line] + rest, cur) == done + ParseLines(resolve, rest, next)
  {
    assert ([line] + rest)[1..] == rest && ([line] + rest)[0] == line;
  }

  function MarkPrimary(entries: seq<WorktreeInfo>): seq<WorktreeInfo> {
    if entries == [] then []
    else
      var primary := entries[0].path;
      Map((e: WorktreeInfo) => e.(isPrimary := e.path == primary), entries)
  }

  method ListWorktrees(resolve: string -> string, text: string) returns (entries: seq<WorktreeInfo>)
    ensures entries == MarkPrimary(ParseLines(resolve, SplitLines(text), BETWEEN))
  {
    hide Strip, SplitLines, WORKTREE, HEAD, BRANCH, DETACHED, MarkPrimary, ParseLines, Flushed;
    var lines := SplitLines(text);
    var found: seq<WorktreeInfo> := [];
    var curPath: Option<string> := None;
    var curHead := "";
    var curBranch := DETACHED;
    for k := 0 to |lines|
      invariant ParseLines(resolve, lines, BETWEEN)
             == found + ParseLines(resolve, lines[k..], Cursor(curPath, curHead, curBranch))
    {
      var line := lines[k];
      assert lines[k..] == [line] + lines[k + 1..];
      ParseStep(resolve, line, lines[k + 1..], Cursor(curPath, curHead, curBranch));
      if WORKTREE <= line {
        found := found + Flushed(Cursor(curPath, curHead, curBranch));
        curPath, curHead, curBranch := Some(resolve(line[|WORKTREE|..])), "", DETACHED;
      } else if HEAD <= line {
        curHead := line[|HEAD|..];
      } else if BRANCH <= line {
        curBranch := line[|BRANCH|..];
      } else if Strip(line) == "" {
        if curPath.Some? {
          found := found + Flushed(Cursor(curPath, curHead, curBranch));
          curPath, curHead, curBranch := None, "", DETACHED;
        }
      }
    }
    ParseNothing(resolve, Cursor(curPath, curHead, curBranch));
    found := found + Flushed(Cursor(curPath, curHead, curBranch));
    assert lines[|lines|..] == [];
    entries := MarkPrimary(found);
  }

  lemma ParseNothing(resolve: string -> string, cur: Cursor)
    ensures ParseLines(resolve, [], cur) == Flushed(cur)
  {}

  // ---- What git prints: the Porcelain Format of git-worktree(1) ----

  datatype Checkout = Bare | Detached(commit: string) | OnBranch(commit: string, name: string)

  datatype Note = Locked(reason: string) | Prunable(reason: string)

  datatype GitWorktree = GitWorktree(path: string, checkout: Checkout, notes: seq<Note>)

  function CheckoutLines(c: Checkout): seq<string> {
    match c
    case Bare => ["bare"]
    case Detached(commit) => [HEAD + commit, "detached"]
    case OnBranch(commit, name) => [HEAD + commit, BRANCH + name]
  }

  function NoteLine(n: Note): string {
    match n
    case Locked(reason) => if reason == "" then "locked" else "locked " + reason
    case Prunable(reason) => if reason == "" then "prunable" else "prunable " + reason
  }

  function WorktreeLines(w: GitWorktree): seq<string> {
    [WORKTREE + w.path] + CheckoutLines(w.checkout) + Map(NoteLine, w.notes) + [""]
  }

  function PorcelainLines(ws: seq<GitWorktree>): seq<string> {
    if ws == [] then [] else WorktreeLines(ws[0]) + PorcelainLines(ws[1..])
  }

  function Porcelain(ws: seq<GitWorktree>): string {
    Unlines(PorcelainLines(ws))
  }

  predicate PrintableCheckout(c: Checkout) {
    match c
    case Bare => true
    case Detached(commit) => OneLine(commit)
    case OnBranch(commit, name) => OneLine(commit) && OneLine(name)
  }

  /** Without the -z option git can only list names that hold no line break. */
  predicate Printable(w: GitWorktree) {
    OneLine(w.path) && PrintableCheckout(w.checkout) && forall n :: n in w.notes ==> OneLine(n.reason)
  }

  function Info(w: GitWorktree): WorktreeInfo {
    match w.checkout
    case Bare => WorktreeInfo(w.path, "", DETACHED, false)
    case Detached(commit) => WorktreeInfo(w.path, commit, DETACHED, false)
    case OnBranch(commit, name) => WorktreeInfo(w.path, commit, name, false)
  }

  lemma OneLineConcat(a: string, b: string)
    requires OneLine(a) && OneLine(b)
    ensures OneLine(a + b)
  {}

  lemma NoteIsOneLine(n: Note)
    requires OneLine(n.reason)
    ensures OneLine(NoteLine(n))
  {
    OneLineConcat("locked ", n.reason);
    OneLineConcat("prunable ", n.reason);
  }

  lemma WorktreeLinesAreLines(w: GitWorktree)
    requires Printable(w)
    ensures forall l :: l in WorktreeLines(w) ==> OneLine(l)
  {
    OneLineConcat(WORKTREE, w.path);
    assert forall l :: l in CheckoutLines(w.checkout) ==> OneLine(l) by {
      match w.checkout
      case Bare =>
      case Detached(commit) => OneLineConcat(HEAD, commit);
      case OnBranch(commit, name) =>
        OneLineConcat(HEAD, commit);
        OneLineConcat(BRANCH, name);
    }
    forall l | l in Map(NoteLine, w.notes) ensures OneLine(l) {
      var k :| 0 <= k < |w.notes| && Map(NoteLine, w.notes)[k] == l;
      NoteIsOneLine(w.notes[k]);
    }
    hide OneLine, CheckoutLines, NoteLine;
  }

  lemma {:induction false} PorcelainLinesAreLines(ws: seq<GitWorktree>)
    requires forall w :: w in ws ==> Printable(w)
    ensures forall l :: l in PorcelainLines(ws) ==> OneLine(l)
  {
    hide Printable, OneLine, WorktreeLines;
    if ws != [] {
      WorktreeLinesAreLines(ws[0]);
      PorcelainLinesAreLines(ws[1..]);
    }
  }

  /** A line that no case of the parser takes. */
  predicate IsIgnored(line: string) {
    !(WORKTREE <= line) && !(HEAD <= line) && !(BRANCH <= line) && Strip(line) != ""
  }

  lemma StartsWithLetter(line: string)
    requires line != "" && (line[0] == 'b' || line[0] == 'd' || line[0] == 'l' || line[0] == 'p')
    ensures Strip(line) != "" && !(WORKTREE <= line) && !(HEAD <= line)
    ensures line[0] != 'b' ==> !(BRANCH <= line)
  {
    Initials();
    assert !IsSpace(line[0]);
    hide WORKTREE, HEAD, BRANCH, StripLeft, StripRight, IsSpace;
    assert StripLeft(IsSpace, line) == line;
    StripRightKeeps(line);
  }

  lemma Initials()
    ensures forall line: string :: WORKTREE <= line ==> line[0] == 'w'
    ensures forall line: string :: HEAD <= line ==> line[0] == 'H'
    ensures forall line: string :: BRANCH <= line ==> line[0] == 'b'
  {
    assert WORKTREE[0] == 'w' && HEAD[0] == 'H' && BRANCH[0] == 'b';
  }

  lemma {:induction false} StripRightKeeps(line: string)
    requires line != "" && !IsSpace(line[0])
    ensures StripRight(IsSpace, line) != ""
  {
    if IsSpace(line[|line| - 1]) {
      StripRightKeeps(line[..|line| - 1]);
    }
  }

  lemma NotesAreIgnored(n: Note)
    ensures IsIgnored(NoteLine(n))
  {
    hide NoteLine, WORKTREE, HEAD, BRANCH, Strip;
    NoteStart(n);
    StartsWithLetter(NoteLine(n));
  }

  lemma NoteStart(n: Note)
    ensures NoteLine(n) != "" && (NoteLine(n)[0] == 'l' || NoteLine(n)[0] == 'p')
  {
    assert "locked"[0] == "locked "[0] == 'l' && "prunable"[0] == "prunable "[0] == 'p';
  }

  lemma {:induction false} SkipNotes(resolve: string -> string, notes: seq<Note>, rest: seq<string>, cur: Cursor)
    ensures ParseLines(resolve, Map(NoteLine, notes) + rest, cur) == ParseLines(resolve, rest, cur)
  {
    hide NoteLine, Strip, ParseLines, WORKTREE, HEAD, BRANCH;
    var lines := Map(NoteLine, notes) + rest;
    if notes == [] {
      assert lines == rest;
    } else {
      var others := Map(NoteLine, notes[1..]) + rest;
      assert lines == [NoteLine(notes[0])] + others;
      NotesAreIgnored(notes[0]);
      ParseStep(resolve, NoteLine(notes[0]), others, cur);
      SkipNotes(resolve, notes[1..], rest, cur);
    }
  }

  lemma PrefixedLine(prefix: string, s: string)
    ensures prefix <= prefix + s && (prefix + s)[|prefix|..] == s
  {}

  /** What the parser makes of the lines that git prints. */
  lemma AdvanceOnLines(resolve: string -> string, text: string, cur: Cursor)
    ensures Advance(resolve, WORKTREE + text, cur) == (Flushed(cur), Cursor(Some(resolve(text)), "", DETACHED))
    ensures Advance(resolve, HEAD + text, cur) == ([], cur.(head := text))
    ensures Advance(resolve, BRANCH + text, cur) == ([], cur.(branch := text))
    ensures cur.path.Some? ==> Advance(resolve, "", cur) == (Flushed(cur), BETWEEN)
    ensures Advance(resolve, "bare", cur) == ([], cur)
    ensures Advance(resolve, "detached", cur) == ([], cur)
  {
    hide Strip;
    PrefixedLine(WORKTREE, text);
    PrefixedLine(HEAD, text);
    PrefixedLine(BRANCH, text);
    assert WORKTREE[0] == 'w' && HEAD[0] == 'H' && BRANCH[0] == 'b';
    assert (HEAD + text)[0] == 'H' && (BRANCH + text)[0] == 'b';
    StartsWithLetter("bare");
    StartsWithLetter("detached");
    StripOfNothing();
  }

  lemma StripOfNothing()
    ensures Strip("") == ""
  {}

  lemma ParseCheckout(resolve: string -> string, c: Checkout, rest: seq<string>, path: string)
    ensures var cur := Cursor(Some(path), "", DETACHED);
            var info := Info(GitWorktree(path, c, []));
            ParseLines(resolve, CheckoutLines(c) + rest, cur)
            == ParseLines(resolve, rest, Cursor(Some(path), info.head, info.branch))
  {
    hide ParseLines, Advance, WORKTREE, DETACHED, HEAD, BRANCH;
    var cur := Cursor(Some(path), "", DETACHED);
    match c
    case Bare =>
      AdvanceOnLines(resolve, "", cur);
      ParseStep(resolve, "bare", rest, cur);
    case Detached(commit) =>
      AdvanceOnLines(resolve, commit, cur);
      AdvanceOnLines(resolve, commit, cur.(head := commit));
      assert CheckoutLines(c) + rest == [HEAD + commit] + (["detached"] + rest);
      ParseStep(resolve, HEAD + commit, ["detached"] + rest, cur);
      ParseStep(resolve, "detached", rest, cur.(head := commit));
    case OnBranch(commit, name) =>
      AdvanceOnLines(resolve, commit, cur);
      AdvanceOnLines(resolve, name, cur.(head := commit));
      assert CheckoutLines(c) + rest == [HEAD + commit] + ([BRANCH + name] + rest);
      ParseStep(resolve, HEAD + commit, [BRANCH + name] + rest, cur);
      ParseStep(resolve, BRANCH + name, rest, cur.(head := commit));
  }

  lemma ParseWorktree(resolve: string -> string, w: GitWorktree, rest: seq<string>)
    requires resolve(w.path) == w.path
    ensures ParseLines(resolve, WorktreeLines(w) + rest, BETWEEN) == [Info(w)] + ParseLines(resolve, rest, BETWEEN)
  {
    hide ParseLines, Advance, HEAD, BRANCH, WORKTREE, DETACHED, CheckoutLines, Map, Flushed, NoteLine;
    var info := Info(GitWorktree(w.path, w.checkout, []));
    var cur := Cursor(Some(w.path), info.head, info.branch);
    var afterNotes := [""] + rest;
    var afterCheckout := Map(NoteLine, w.notes) + afterNotes;
    var afterPath := CheckoutLines(w.checkout) + afterCheckout;
    WorktreeLinesSplit(w, rest);
    FlushedBlocks(w);
    AdvanceOnLines(resolve, w.path, BETWEEN);
    ParseStep(resolve, WORKTREE + w.path, afterPath, BETWEEN);
    ParseCheckout(resolve, w.checkout, afterCheckout, w.path);
    SkipNotes(resolve, w.notes, afterNotes, cur);
    AdvanceOnLines(resolve, "", cur);
    ParseStep(resolve, "", rest, cur);
  }

  lemma WorktreeLinesSplit(w: GitWorktree, rest: seq<string>)
    ensures WorktreeLines(w) + rest
         == [WORKTREE + w.path] + (CheckoutLines(w.checkout) + (Map(NoteLine, w.notes) + ([""] + rest)))
  {
    hide CheckoutLines, Map, WORKTREE;
  }

  lemma FlushedBlocks(w: GitWorktree)
    ensures Flushed(BETWEEN) == []
    ensures var info := Info(GitWorktree(w.path, w.checkout, []));
            Flushed(Cursor(Some(w.path), info.head, info.branch)) == [Info(w)]
  {
    hide DETACHED;
  }

  lemma BetweenFlushesNothing()
    ensures Flushed(BETWEEN) == []
  {}

  lemma {:induction false} ParsePorcelainLines(resolve: string -> string, ws: seq<GitWorktree>)
    requires forall w :: w in ws ==> resolve(w.path) == w.path
    ensures ParseLines(resolve, PorcelainLines(ws), BETWEEN) == Map(Info, ws)
  {
    hide WorktreeLines, Info, ParseLines, BETWEEN;
    if ws == [] {
      ParseNothing(resolve, BETWEEN);
      BetweenFlushesNothing();
    } else {
      ParseWorktree(resolve, ws[0], PorcelainLines(ws[1..]));
      ParsePorcelainLines(resolve, ws[1..]);
      assert Map(Info, ws) == [Info(ws[0])] + Map(Info, ws[1..]);
    }
  }

  /** Parsing undoes printing: whatever worktrees git lists, with their resolved paths, the parser returns
      exactly them, in order, with head and branch, the first one (and its path) marked primary. */
  lemma ListingRoundTrip(resolve: string -> string, ws: seq<GitWorktree>)
    requires forall w :: w in ws ==> Printable(w) && resolve(w.path) == w.path
    ensures var listed := MarkPrimary(ParseLines(resolve, SplitLines(Porcelain(ws)), BETWEEN));
            && |listed| == |ws|
            && forall k :: 0 <= k < |ws| ==> listed[k] == Info(ws[k]).(isPrimary := ws[k].path == ws[0].path)
  {
    hide ParseLines, SplitLines, OneLine, Unlines, PorcelainLines, Printable;
    PorcelainLinesAreLines(ws);
    SplitOfUnlines(PorcelainLines(ws));
    ParsePorcelainLines(resolve, ws);
    forall k | 0 <= k < |ws| ensures Info(ws[k]).path == ws[k].path {}
  }

  // ---- Branch names ----

  predicate IsSlugChar(c: char) {
    IsDigit(c) || 'a' <= c <= 'z'
  }

  /** The characters of [a-z0-9._-]. */
  predicate IsNameChar(c: char) {
    IsSlugChar(c) || c == '.' || c == '_' || c == '-'
  }

  predicate AllNameChars(s: string) {
    forall i :: 0 <= i < |s| ==> IsNameChar(s[i])
  }

  function LeadingName(s: string): (r: string)
    ensures r <= s && AllNameChars(r)
  {
    if s != [] && IsNameChar(s[0]) then [s[0]] + LeadingName(s[1..]) else []
  }

  /** A prefix such as "task-015:" and the white space after it. */
  function DropIssuePrefix(s: string): string {
    var name := LeadingName(s);
    if name != [] && |name| < |s| && s[|name|] == ':' then StripLeft(IsSpace, s[|name| + 1..]) else s
  }

  function SkipOther(s: string): (r: string)
    ensures |r| <= |s|
    ensures s != [] && !IsSlugChar(s[0]) ==> |r| < |s|
  {
    if s != [] && !IsSlugChar(s[0]) then SkipOther(s[1..]) else s
  }

  predicate IsSlugText(s: string) {
    forall i :: 0 <= i < |s| ==> IsSlugChar(s[i]) || s[i] == '-'
  }

  /** Every run of other characters becomes one '-'. */
  function Hyphenate(s: string): (r: string)
    ensures IsSlugText(r)
    decreases |s|
  {
    if s == [] then []
    else if IsSlugChar(s[0]) then [s[0]] + Hyphenate(s[1..])
    else ['-'] + Hyphenate(SkipOther(s))
  }

  function CollapseDashes(s: string): (r: string)
    requires IsSlugText(s)
    ensures IsSlugText(r)
  {
    if |s| < 2 then s
    else if s[0] == '-' && s[1] == '-' then CollapseDashes(s[1..])
    else [s[0]] + CollapseDashes(s[1..])
  }

  predicate IsDash(c: char) {
    c == '-'
  }

  function StripDashes(s: string): (r: string)
    requires IsSlugText(s)
    ensures IsSlugText(r)
  {
    StripBy(IsDash, s)
  }

  /** `lower` stands for Unicode lower-casing; nothing is assumed about it. */
  function SlugifyText(lower: string -> string, text: string): (slug: string)
    ensures slug != "" && AllNameChars(slug) && |slug| <= 60
  {
    var t := StripDashes(CollapseDashes(Hyphenate(DropIssuePrefix(lower(text)))));
    CutIsName(t);
    var cut := Cut(t);
    if cut == "" then "task" else cut
  }

  /** `s[:60]`. */
  function Cut(s: string): string {
    if |s| > 60 then s[..60] else s
  }

  lemma CutIsName(s: string)
    requires IsSlugText(s)
    ensures AllNameChars(Cut(s)) && |Cut(s)| <= 60 && AllNameChars("task")
  {}

  predicate Contains(s: string, sub: string) {
    exists i :: 0 <= i <= |s| && sub <= s[i..]
  }

  predicate ContainsAny(s: string, subs: seq<string>) {
    exists sub :: sub in subs && Contains(s, sub)
  }

  function InferScope(lower: string -> string, i: Issue): string {
    var labels := Map(lower, i.labels);
    var title := lower(i.title);
    if "docs" in labels || ContainsAny(title, ["readme", "roadmap", "runbook", "adr", "docs/"]) then "docs"
    else if "ci" in labels || ContainsAny(title, ["pipeline", "gitlab", "ci/cd"]) then "ci"
    else if ContainsAny(title, ["spa", "frontend", "react", "bff"]) then "frontend"
    else if ContainsAny(title, ["stack", "cdk", "terraform", "infra"]) then "infra"
    else "task"
  }

  function BranchName(scope: string, number: nat, slug: string): string {
    "wt/" + scope + "/" + Decimal(number) + "-" + slug
  }

  /** The name a new worktree's branch gets when neither scope nor slug is given. */
  function DefaultBranch(lower: string -> string, i: Issue): string {
    BranchName(InferScope(lower, i), i.number, SlugifyText(lower, i.title))
  }

  function UpToSlash(s: string): (r: string)
    ensures r <= s && '/' !in r
    ensures |r| < |s| ==> s[|r|] == '/'
  {
    if s != [] && s[0] != '/' then [s[0]] + UpToSlash(s[1..]) else []
  }

  /** The scope and what follows its slash, of a branch "wt/<scope>/...". */
  function AfterScope(branch: string): Option<(string, string)> {
    if !("wt/" <= branch) then None
    else
      var scope := UpToSlash(branch[3..]);
      if scope == "" || 3 + |scope| == |branch| then None else Some((scope, branch[3 + |scope| + 1..]))
  }

  /** WORKTREE_BRANCH_REGEX, matched in full. */
  predicate MatchesPolicy(branch: string) {
    match AfterScope(branch)
    case None => false
    case Some((scope, rest)) =>
      var digits := LeadingDigits(rest);
      && AllNameChars(scope) && digits != "" && |digits| < |rest| && rest[|digits|] == '-'
      && |digits| + 1 < |rest| && AllNameChars(rest[|digits| + 1..])
  }

  function ExtractIssueId(branch: string): Option<nat> {
    match AfterScope(branch)
    case None => None
    case Some((_, rest)) =>
      var digits := LeadingDigits(rest);
      if digits != "" && |digits| < |rest| && rest[|digits|] == '-' then Some(DigitsValue(digits)) else None
  }

  lemma {:induction false} UpToSlashOf(scope: string, rest: string)
    requires '/' !in scope
    ensures UpToSlash(scope + "/" + rest) == scope
  {
    if scope != [] {
      assert scope[0] in scope;
      assert (scope + "/" + rest)[1..] == scope[1..] + "/" + rest;
      UpToSlashOf(scope[1..], rest);
    }
  }

  /** A branch built from a valid scope and slug satisfies the policy and carries its issue number. */
  lemma BranchNameCarriesNumber(scope: string, number: nat, slug: string)
    requires scope != "" && AllNameChars(scope) && slug != "" && AllNameChars(slug)
    ensures MatchesPolicy(BranchName(scope, number, slug))
    ensures ExtractIssueId(BranchName(scope, number, slug)) == Some(number)
  {
    hide Decimal, DigitsValue, LeadingDigits, UpToSlash;
    var branch := BranchName(scope, number, slug);
    var rest := Decimal(number) + ("-" + slug);
    assert forall i :: 0 <= i < |scope| ==> scope[i] != '/';
    assert branch[3..] == scope + "/" + rest;
    UpToSlashOf(scope, rest);
    assert AfterScope(branch) == Some((scope, rest)) by {
      assert branch[3 + |scope| + 1..] == rest;
    }
    LeadingDigitsOf(Decimal(number), "-" + slug);
    DecimalRoundTrip(number);
    assert rest[|Decimal(number)| + 1..] == slug;
  }

  lemma ScopeIsValid(lower: string -> string, i: Issue)
    ensures InferScope(lower, i) != "" && AllNameChars(InferScope(lower, i))
  {
    hide ContainsAny;
  }

  /** For any title, labels and number, the default branch satisfies the policy and gives the number back. */
  lemma DefaultBranchCarriesNumber(lower: string -> string, i: Issue)
    ensures MatchesPolicy(DefaultBranch(lower, i)) && ExtractIssueId(DefaultBranch(lower, i)) == Some(i.number)
  {
    hide InferScope, SlugifyText, MatchesPolicy, ExtractIssueId, BranchName;
    ScopeIsValid(lower, i);
    BranchNameCarriesNumber(InferScope(lower, i), i.number, SlugifyText(lower, i.title));
  }

  // ---- Lookup ----

  predicate IsLinkedTo(w: WorktreeInfo, number: nat) {
    !w.isPrimary && ExtractIssueId(w.branch) == Some(number)
  }

  function LinkedWorktree(worktrees: seq<WorktreeInfo>, number: nat): (r: Option<WorktreeInfo>)
    ensures r.Some? ==> r.value in worktrees && !r.value.isPrimary && ExtractIssueId(r.value.branch) == Some(number)
    ensures r.None? ==> forall w :: w in worktrees && !w.isPrimary ==> ExtractIssueId(w.branch) != Some(number)
  {
    if worktrees == [] then None
    else if IsLinkedTo(worktrees[0], number) then Some(worktrees[0])
    else LinkedWorktree(worktrees[1..], number)
  }

  method FindLinkedWorktree(worktrees: seq<WorktreeInfo>, number: nat) returns (r: Option<WorktreeInfo>)
    ensures r == LinkedWorktree(worktrees, number)
  {
    for k := 0 to |worktrees|
      invariant LinkedWorktree(worktrees, number) == LinkedWorktree(worktrees[k..], number)
    {
      if IsLinkedTo(worktrees[k], number) {
        return Some(worktrees[k]);
      }
    }
    r := None;
  }

  /** A linked worktree on an issue's default branch is found by the issue's number, through the listing. */
  lemma DefaultBranchIsFound(resolve: string -> string, lower: string -> string, ws: seq<GitWorktree>, k: nat, i: Issue)
    requires forall w :: w in ws ==> Printable(w) && resolve(w.path) == w.path
    requires k < |ws| && ws[k].path != ws[0].path
    requires ws[k].checkout.OnBranch? && ws[k].checkout.name == DefaultBranch(lower, i)
    ensures var found := LinkedWorktree(MarkPrimary(ParseLines(resolve, SplitLines(Porcelain(ws)), BETWEEN)), i.number);
            found.Some? && ExtractIssueId(found.value.branch) == Some(i.number)
  {
    hide ParseLines, SplitLines, Printable, Porcelain, MarkPrimary, ExtractIssueId, DefaultBranch;
    ListingRoundTrip(resolve, ws);
    DefaultBranchCarriesNumber(lower, i);
    var listed := MarkPrimary(ParseLines(resolve, SplitLines(Porcelain(ws)), BETWEEN));
    assert listed[k] in listed && IsLinkedTo(listed[k], i.number);
  }

  datatype Choice =
    | Chosen(item: QueueItem, skipped: seq<nat>)
    | AllHaveWorktrees(skipped: seq<nat>)
    | NothingRunnable

  predicate IsRunnable(item: QueueItem) {
    item.runnable
  }

  function NumberOf(item: QueueItem): nat {
    item.issue.number
  }

  /** The issue numbers of the runnable items, in order. */
  function RunnableNumbers(items: seq<QueueItem>): (r: seq<nat>)
    ensures forall n :: n in r <==> exists it :: it in items && it.runnable && it.issue.number == n
  {
    var runnable := Filter(IsRunnable, items);
    var r := Map(NumberOf, runnable);
    assert forall it :: it in runnable ==> exists k :: 0 <= k < |runnable| && runnable[k] == it && r[k] == it.issue.number;
    assert forall k :: 0 <= k < |r| ==>
        runnable[k] in runnable && runnable[k] in items && runnable[k].runnable && runnable[k].issue.number == r[k];
    r
  }

  lemma RunnableNumbersStep(items: seq<QueueItem>, k: nat)
    requires k < |items|
    ensures RunnableNumbers(items[..k + 1])
         == RunnableNumbers(items[..k]) + if items[k].runnable then [items[k].issue.number] else []
  {
    assert items[..k + 1] == items[..k] + [items[k]];
    FilterAppend(IsRunnable, items[..k], items[k]);
    MapAppend(NumberOf, Filter(IsRunnable, items[..k]), items[k]);
  }

  ghost predicate Linked(worktrees: seq<WorktreeInfo>, number: nat) {
    LinkedWorktree(worktrees, number).Some?
  }

  /** The first runnable item whose issue has no linked worktree, and the runnable ones passed over. */
  method ChooseNextWithoutWorktree(selection: QueueSelection, worktrees: seq<WorktreeInfo>) returns (choice: Choice)
    ensures !choice.NothingRunnable? ==> forall n :: n in choice.skipped ==> Linked(worktrees, n)
    ensures choice.Chosen? ==>
              exists k :: && 0 <= k < |selection.items| && selection.items[k] == choice.item && choice.item.runnable
                          && !Linked(worktrees, choice.item.issue.number)
                          && choice.skipped == RunnableNumbers(selection.items[..k])
    ensures choice.AllHaveWorktrees? ==> choice.skipped == RunnableNumbers(selection.items) && choice.skipped != []
    ensures choice.NothingRunnable? ==> RunnableNumbers(selection.items) == []
  {
    hide LinkedWorktree, RunnableNumbers;
    var items := selection.items;
    var skipped: seq<nat> := [];
    assert RunnableNumbers(items[..0]) == [] by { NoItemsNoNumbers(); }
    for k := 0 to |items|
      invariant skipped == RunnableNumbers(items[..k])
      invariant forall n :: n in skipped ==> Linked(worktrees, n)
    {
      RunnableNumbersStep(items, k);
      if items[k].runnable {
        var existing := FindLinkedWorktree(worktrees, items[k].issue.number);
        if existing.None? {
          return Chosen(items[k], skipped);
        }
        skipped := skipped + [items[k].issue.number];
      }
    }
    assert items[..|items|] == items;
    choice := if skipped != [] then AllHaveWorktrees(skipped) else NothingRunnable;
  }

  lemma NoItemsNoNumbers()
    ensures RunnableNumbers([]) == []
  {}

  // ---- Fresh directory names ----

  /** "wt7", then "wt7-2", "wt7-3", and so on. */
  function Candidate(number: nat, i: nat): string {
    "wt" + Decimal(number) + if i < 2 then "" else "-" + Decimal(i)
  }

  lemma CandidatesDiffer(number: nat, i: nat, j: nat)
    requires 1 <= i < j
    ensures Candidate(number, i) != Candidate(number, j)
  {
    hide Decimal;
    var base := "wt" + Decimal(number);
    var a, b := Candidate(number, i), Candidate(number, j);
    assert b == base + ("-" + Decimal(j)) && b[|base|..] == "-" + Decimal(j);
    if i < 2 {
      assert |a| == |base|;
    } else {
      DecimalInjective(i, j);
      assert a == base + ("-" + Decimal(i)) && a[|base|..] == "-" + Decimal(i);
      assert a[|base|..][1..] == Decimal(i) && b[|base|..][1..] == Decimal(j);
    }
  }

  /** The candidates tried before the `i`-th, all different. */
  ghost function Tried(number: nat, i: nat): (r: set<string>)
    requires i >= 1
    ensures forall s :: s in r ==> exists j :: 1 <= j < i && s == Candidate(number, j)
    ensures |r| == i - 1
  {
    if i == 1 then {}
    else
      assert Candidate(number, i - 1) !in Tried(number, i - 1) by {
        forall j | 1 <= j < i - 1 ensures Candidate(number, j) != Candidate(number, i - 1) {
          CandidatesDiffer(number, j, i - 1);
        }
      }
      Tried(number, i - 1) + {Candidate(number, i - 1)}
  }

  lemma SubsetIsSmaller<T>(a: set<T>, b: set<T>)
    requires a <= b
    ensures |a| <= |b|
  {
    assert b == a + (b - a);
  }

  /** The search ends for every finite directory, with the first unused candidate. */
  method SuggestWorktreeDirName(number: nat, existing: set<string>) returns (name: string, ghost index: nat)
    ensures name !in existing
    ensures 1 <= index <= |existing| + 1 && name == Candidate(number, index)
    ensures name == if index == 1 then "wt" + Decimal(number) else "wt" + Decimal(number) + "-" + Decimal(index)
    ensures forall j :: 1 <= j < index ==> Candidate(number, j) in existing
  {
    hide Decimal, Candidate;
    index := 1;
    name := PreferredName(number);
    if name !in existing {
      return;
    }
    var i := 2;
    while true
      invariant i >= 2
      invariant forall j :: 1 <= j < i ==> Candidate(number, j) in existing
      decreases |existing| + 2 - i
    {
      SubsetIsSmaller(Tried(number, i), existing);
      name := NumberedName(number, i);
      if name !in existing {
        index := i;
        return;
      }
      i := i + 1;
      SubsetIsSmaller(Tried(number, i), existing);
    }
  }

  function PreferredName(number: nat): (r: string)
    ensures r == Candidate(number, 1)
  {
    "wt" + Decimal(number)
  }

  function NumberedName(number: nat, i: nat): (r: string)
    requires i >= 2
    ensures r == Candidate(number, i)
  {
    "wt" + Decimal(number) + "-" + Decimal(i)
  }
}

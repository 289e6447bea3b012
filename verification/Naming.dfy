/** The names and texts of `Worktrees`, said character by character: what git prints, the two branch
    patterns, slugs and scopes. */
module Naming {
  import opened Prelude
  import opened Text
  import opened Issues
  import opened Worktrees

  // ---- The listing ----

  /** The lines of one worktree in the Porcelain Format, and what the parser is to make of them. */
  lemma ListingSpelled(w: GitWorktree)
    ensures WorktreeLines(w)
         == ["worktree " + w.path]
            + (match w.checkout
               case Bare => ["bare"]
               case Detached(commit) => ["HEAD " + commit, "detached"]
               case OnBranch(commit, name) => ["HEAD " + commit, "branch refs/heads/" + name])
            + Map(NoteLine, w.notes) + [""]
    ensures Info(w).path == w.path && !Info(w).isPrimary
    ensures match w.checkout
            case Bare => Info(w).head == "" && Info(w).branch == "(detached)"
            case Detached(commit) => Info(w).head == commit && Info(w).branch == "(detached)"
            case OnBranch(commit, name) => Info(w).head == commit && Info(w).branch == name
  {
    hide NoteLine;
  }

  lemma OneLinePart(a: string, b: string)
    requires OneLine(a + b)
    ensures OneLine(b)
  {
    assert (a + b)[|a|..] == b;
  }

  lemma NoteSpelled(n: Note)
    ensures n.Locked? ==> NoteLine(n) == if |n.reason| > 0 then "locked " + n.reason else "locked"
    ensures n.Prunable? ==> NoteLine(n) == if |n.reason| > 0 then "prunable " + n.reason else "prunable"
  {}

  lemma NoteIsOneLineIff(n: Note)
    ensures OneLine(NoteLine(n)) <==> OneLine(n.reason)
  {
    if OneLine(n.reason) {
      NoteIsOneLine(n);
    }
    if OneLine(NoteLine(n)) && n.reason != "" {
      OneLinePart(if n.Locked? then "locked " else "prunable ", n.reason);
    }
  }

  /** A worktree can be printed exactly when none of its lines holds a line break. */
  lemma PrintableIff(w: GitWorktree)
    ensures Printable(w) <==> forall l :: l in WorktreeLines(w) ==> OneLine(l)
  {
    if Printable(w) {
      WorktreeLinesAreLines(w);
    }
    if forall l :: l in WorktreeLines(w) ==> OneLine(l) {
      CheckoutIsPrintable(w);
      assert WORKTREE + w.path in WorktreeLines(w);
      OneLinePart(WORKTREE, w.path);
      forall n | n in w.notes ensures OneLine(n.reason) {
        var k :| 0 <= k < |w.notes| && w.notes[k] == n;
        assert Map(NoteLine, w.notes)[k] == NoteLine(n);
        assert NoteLine(n) in WorktreeLines(w);
        NoteIsOneLineIff(n);
      }
    }
  }

  lemma CheckoutIsPrintable(w: GitWorktree)
    requires forall l :: l in WorktreeLines(w) ==> OneLine(l)
    ensures PrintableCheckout(w.checkout)
  {
    hide OneLine, NoteLine;
    assert forall l :: l in CheckoutLines(w.checkout) ==> l in WorktreeLines(w);
    match w.checkout
    case Bare =>
    case Detached(commit) =>
      assert CheckoutLines(w.checkout)[0] == HEAD + commit;
      OneLinePart(HEAD, commit);
    case OnBranch(commit, name) =>
      assert CheckoutLines(w.checkout)[0] == HEAD + commit && CheckoutLines(w.checkout)[1] == BRANCH + name;
      OneLinePart(HEAD, commit);
      OneLinePart(BRANCH, name);
  }

  lemma LineOfOne(c: char)
    requires !IsLineBreak(c)
    ensures SplitLines([c]) == [[c]]
  {}

  lemma LineOfTwo(c: char, d: char)
    requires !IsLineBreak(d)
    ensures SplitLines([c, d]) == if IsLineBreak(c) then ["", [d]] else [[c, d]]
  {
    LineOfOne(d);
    assert [c, d][1..] == [d] && [[d]][1..] == [];
    assert [c] + [d] == [c, d] && [[c, d]] + [] == [[c, d]] && [[]] + [[d]] == ["", [d]];
  }

  /** The characters at which `str.splitlines()` ends a line. */
  lemma SplitsAtIff(c: char)
    ensures SplitLines(['a', c, 'b'])
         == if c as int in [10, 11, 12, 13, 28, 29, 30, 0x85, 0x2028, 0x2029] then ["a", "b"] else [['a', c, 'b']]
  {
    LineOfTwo(c, 'b');
    assert IsLineBreak(c) <==> c as int in [10, 11, 12, 13, 28, 29, 30, 0x85, 0x2028, 0x2029];
    var rest := SplitLines([c, 'b']);
    assert !IsLineBreak('a') && ['a', c, 'b'][1..] == [c, 'b'];
    assert SplitLines(['a', c, 'b']) == [['a'] + rest[0]] + rest[1..];
    assert ['a'] + "" == "a" && ['a'] + [c, 'b'] == ['a', c, 'b'];
    assert ["", "b"][1..] == ["b"] && ["a"] + ["b"] == ["a", "b"] && [[c, 'b']][1..] == [];
  }

  /** A carriage return and the line feed after it end one line. */
  lemma ReturnAndFeedAreOne(rest: string)
    ensures SplitLines("\r\n" + rest) == [""] + SplitLines(rest)
  {
    assert ("\r\n" + rest)[2..] == rest;
  }

  // ---- The branch patterns ----

  /** The characters of [a-z0-9._-]. */
  predicate InAlphabet(c: char) {
    c in "abcdefghijklmnopqrstuvwxyz" || c in "0123456789" || c in "._-"
  }

  lemma LettersAre(c: char)
    ensures c in "abcdefghijklmnopqrstuvwxyz" <==> 'a' <= c <= 'z'
  {
    assert 'a' <= c <= 'z' ==> "abcdefghijklmnopqrstuvwxyz"[c as int - 97] == c;
  }

  lemma DigitsAre(c: char)
    ensures c in "0123456789" <==> IsDigit(c)
  {
    assert IsDigit(c) ==> "0123456789"[c as int - 48] == c;
  }

  lemma NameCharIff(c: char)
    ensures IsNameChar(c) <==> InAlphabet(c)
  {
    LettersAre(c);
    DigitsAre(c);
  }

  predicate InName(s: string) {
    s != "" && forall c :: c in s ==> InAlphabet(c)
  }

  lemma InNameIff(s: string)
    ensures InName(s) <==> s != "" && AllNameChars(s)
  {
    hide IsNameChar, InAlphabet;
    forall c: char ensures IsNameChar(c) <==> InAlphabet(c) { NameCharIff(c); }
  }

  /** wt/<scope>/<number>-<slug>. */
  predicate IsPolicyBranch(branch: string, scope: string, digits: string, slug: string) {
    branch == "wt/" + scope + "/" + digits + "-" + slug && InName(scope) && digits != "" && AllDigits(digits) && InName(slug)
  }

  /** wt/<anything but a slash>/<number>-, at the start. */
  predicate IsIssueBranch(branch: string, scope: string, digits: string, rest: string) {
    branch == "wt/" + scope + "/" + digits + "-" + rest && scope != "" && '/' !in scope && digits != "" && AllDigits(digits)
  }

  lemma BranchParts(branch: string, scope: string, digits: string, rest: string)
    requires IsIssueBranch(branch, scope, digits, rest)
    ensures AfterScope(branch) == Some((scope, digits + ("-" + rest))) && LeadingDigits(digits + ("-" + rest)) == digits
  {
    hide UpToSlash, LeadingDigits;
    var tail := digits + ("-" + rest);
    assert branch[3..] == scope + "/" + tail;
    UpToSlashOf(scope, tail);
    assert branch[3 + |scope| + 1..] == tail;
    LeadingDigitsOf(digits, "-" + rest);
  }

  lemma PartsOfBranch(branch: string) returns (scope: string, digits: string, rest: string)
    requires ExtractIssueId(branch).Some?
    ensures IsIssueBranch(branch, scope, digits, rest)
    ensures AfterScope(branch) == Some((scope, digits + ("-" + rest))) && LeadingDigits(digits + ("-" + rest)) == digits
  {
    hide UpToSlash, LeadingDigits, DigitsValue;
    scope := AfterScope(branch).value.0;
    var tail := AfterScope(branch).value.1;
    digits := LeadingDigits(tail);
    rest := tail[|digits| + 1..];
    assert tail == digits + ("-" + rest);
    assert branch == "wt/" + scope + "/" + tail;
    assert branch == "wt/" + scope + "/" + digits + "-" + rest;
  }

  predicate IsBranchOf(branch: string, n: nat, scope: string, digits: string, rest: string) {
    IsIssueBranch(branch, scope, digits, rest) && DigitsValue(digits) == n
  }

  /** The number that is read out of a branch name is that of the pattern. */
  lemma ExtractIssueIdIff(branch: string, n: nat)
    ensures ExtractIssueId(branch) == Some(n) <==> exists scope, digits, rest :: IsBranchOf(branch, n, scope, digits, rest)
  {
    if ExtractIssueId(branch) == Some(n) {
      var scope, digits, rest := PartsOfBranch(branch);
      hide AfterScope, LeadingDigits, DigitsValue;
      assert IsBranchOf(branch, n, scope, digits, rest);
    }
    if scope, digits, rest :| IsBranchOf(branch, n, scope, digits, rest) {
      BranchParts(branch, scope, digits, rest);
      hide AfterScope, LeadingDigits, DigitsValue;
    }
  }

  /** The branches that the policy accepts are those of its pattern. */
  lemma MatchesPolicyIff(branch: string)
    ensures MatchesPolicy(branch) <==> exists scope, digits, slug :: IsPolicyBranch(branch, scope, digits, slug)
  {
    hide AfterScope, LeadingDigits, AllNameChars, DigitsValue, InName;
    if MatchesPolicy(branch) {
      var scope, digits, slug := PartsOfBranch(branch);
      assert (digits + ("-" + slug))[|digits| + 1..] == slug;
      InNameIff(scope);
      InNameIff(slug);
      assert IsPolicyBranch(branch, scope, digits, slug);
    }
    if scope, digits, slug :| IsPolicyBranch(branch, scope, digits, slug) {
      InNameIff(scope);
      InNameIff(slug);
      NamesHaveNoSlash(scope);
      BranchParts(branch, scope, digits, slug);
      assert (digits + ("-" + slug))[|digits| + 1..] == slug;
    }
  }

  lemma NamesHaveNoSlash(s: string)
    requires InName(s)
    ensures '/' !in s
  {
    assert !InAlphabet('/');
  }

  // ---- Scopes ----

  lemma ContainsIff(s: string, sub: string)
    ensures Contains(s, sub) <==> exists a, b :: s == a + sub + b
  {
    if Contains(s, sub) {
      var i :| 0 <= i <= |s| && sub <= s[i..];
      assert s == s[..i] + sub + s[i + |sub|..];
    }
    if a, b :| s == a + sub + b {
      assert s[|a|..] == sub + b;
    }
  }

  /** The scope that is inferred: the first in this order for which the labels or the title give a reason. */
  lemma InferScopeIs(lower: string -> string, i: Issue)
    ensures var labels, title := Map(lower, i.labels), lower(i.title);
            var docs := "docs" in labels || exists w :: w in ["readme", "roadmap", "runbook", "adr", "docs/"] && Contains(title, w);
            var ci := "ci" in labels || exists w :: w in ["pipeline", "gitlab", "ci/cd"] && Contains(title, w);
            var frontend := exists w :: w in ["spa", "frontend", "react", "bff"] && Contains(title, w);
            var infra := exists w :: w in ["stack", "cdk", "terraform", "infra"] && Contains(title, w);
            match InferScope(lower, i)
            case "docs" => docs
            case "ci" => ci && !docs
            case "frontend" => frontend && !docs && !ci
            case "infra" => infra && !docs && !ci && !frontend
            case scope => scope == "task" && !docs && !ci && !frontend && !infra
  {
    hide Contains;
  }

  // ---- Slugs ----

  predicate IsWord(w: string) {
    w != "" && forall k :: 0 <= k < |w| ==> 'a' <= w[k] <= 'z' || '0' <= w[k] <= '9'
  }

  predicate IsGap(g: string) {
    forall k :: 0 <= k < |g| ==> !('a' <= g[k] <= 'z' || '0' <= g[k] <= '9')
  }

  /** Words with something between them. */
  predicate IsPhrase(words: seq<string>, gaps: seq<string>) {
    && words != [] && |gaps| == |words| - 1
    && (forall w :: w in words ==> IsWord(w)) && (forall g :: g in gaps ==> g != "" && IsGap(g))
  }

  function Phrase(words: seq<string>, gaps: seq<string>): string
    requires IsPhrase(words, gaps)
  {
    if |words| == 1 then words[0]
    else
      RestOfPhrase(words, gaps);
      words[0] + gaps[0] + Phrase(words[1..], gaps[1..])
  }

  lemma RestOfPhrase(words: seq<string>, gaps: seq<string>)
    requires IsPhrase(words, gaps) && |words| > 1
    ensures IsPhrase(words[1..], gaps[1..]) && gaps[0] != "" && IsGap(gaps[0])
  {
    hide IsWord, IsGap;
    assert forall g :: g in gaps[1..] ==> g in gaps;
    assert forall w :: w in words[1..] ==> w in words;
    assert gaps[0] in gaps;
  }

  lemma {:induction false} HyphenateWord(w: string, rest: string)
    requires forall k :: 0 <= k < |w| ==> IsSlugChar(w[k])
    ensures Hyphenate(w + rest) == w + Hyphenate(rest)
  {
    if w == [] {
      assert w + rest == rest;
    } else {
      assert (w + rest)[0] == w[0] && (w + rest)[1..] == w[1..] + rest;
      HyphenateWord(w[1..], rest);
    }
  }

  lemma {:induction false} SkipGap(g: string, rest: string)
    requires IsGap(g) && (rest == "" || IsSlugChar(rest[0]))
    ensures SkipOther(g + rest) == rest
  {
    if g == [] {
      assert g + rest == rest;
    } else {
      assert (g + rest)[0] == g[0] && (g + rest)[1..] == g[1..] + rest;
      SkipGap(g[1..], rest);
    }
  }

  lemma HyphenateGap(g: string, rest: string)
    requires g != "" && IsGap(g) && (rest == "" || IsSlugChar(rest[0]))
    ensures Hyphenate(g + rest) == ['-'] + Hyphenate(rest)
  {
    hide SkipOther;
    assert (g + rest)[0] == g[0];
    SkipGap(g, rest);
  }

  lemma {:induction false} HyphenatePhrase(words: seq<string>, gaps: seq<string>, post: string)
    requires IsPhrase(words, gaps) && IsGap(post)
    ensures Phrase(words, gaps) != "" && IsSlugChar(Phrase(words, gaps)[0])
    ensures Hyphenate(Phrase(words, gaps) + post) == Join(words, '-') + if post == "" then "" else "-"
  {
    hide Hyphenate;
    var w := words[0];
    assert w in words && IsWord(w);
    if |words| == 1 {
      HyphenateWord(w, post);
      HyphenateEnd(post);
    } else {
      RestOfPhrase(words, gaps);
      var more := Phrase(words[1..], gaps[1..]);
      HyphenatePhrase(words[1..], gaps[1..], post);
      assert Phrase(words, gaps) + post == w + (gaps[0] + (more + post));
      HyphenateWord(w, gaps[0] + (more + post));
      assert (more + post)[0] == more[0];
      HyphenateGap(gaps[0], more + post);
    }
  }

  lemma HyphenateEnd(post: string)
    requires IsGap(post)
    ensures Hyphenate(post) == if post == "" then "" else "-"
  {
    if post != "" {
      HyphenateGap(post, "");
      assert post + "" == post && Hyphenate("") == "";
    }
  }

  predicate NoDoubleDash(s: string) {
    forall k :: 0 <= k < |s| - 1 ==> s[k] != '-' || s[k + 1] != '-'
  }

  lemma {:induction false} CollapseNothing(s: string)
    requires IsSlugText(s) && NoDoubleDash(s)
    ensures CollapseDashes(s) == s
  {
    if |s| >= 2 {
      CollapseNothing(s[1..]);
      assert s == [s[0]] + s[1..];
    }
  }

  lemma {:induction false} JoinedWords(words: seq<string>)
    requires words != [] && forall w :: w in words ==> IsWord(w)
    ensures var s := Join(words, '-');
            s != "" && s[0] != '-' && s[|s| - 1] != '-' && NoDoubleDash(s) && IsSlugText(s)
  {
    var w := words[0];
    assert w in words && IsWord(w);
    if |words| > 1 {
      assert forall v :: v in words[1..] ==> v in words;
      JoinedWords(words[1..]);
      DashedConcat(w, Join(words[1..], '-'));
    } else {
      assert Join(words, '-') == w;
    }
  }

  lemma DashedConcat(w: string, rest: string)
    requires IsWord(w) && rest != "" && rest[0] != '-' && rest[|rest| - 1] != '-' && NoDoubleDash(rest) && IsSlugText(rest)
    ensures var s := w + ['-'] + rest;
            s != "" && s[0] != '-' && s[|s| - 1] != '-' && NoDoubleDash(s) && IsSlugText(s)
  {
    var s := w + ['-'] + rest;
    forall k | 0 <= k < |s| - 1 ensures s[k] != '-' || s[k + 1] != '-' {
      if k > |w| {
        assert s[k] == rest[k - |w| - 1] && s[k + 1] == rest[k - |w|];
      }
    }
    assert forall k :: 0 <= k < |s| ==> s[k] == if k < |w| then w[k] else if k == |w| then '-' else rest[k - |w| - 1];
  }

  /** The slug of words with anything between and around them: the words, one dash between them, cut after
      sixty characters. */
  lemma SlugOfPhrase(lower: string -> string, text: string, pre: string, words: seq<string>, gaps: seq<string>, post: string)
    requires IsPhrase(words, gaps) && IsGap(pre) && IsGap(post)
    requires DropIssuePrefix(lower(text)) == pre + Phrase(words, gaps) + post
    ensures var slug := Join(words, '-');
            SlugifyText(lower, text) == if |slug| > 60 then slug[..60] else slug
  {
    hide DropIssuePrefix, Hyphenate, CollapseDashes, StripDashes;
    var slug := Join(words, '-');
    var start, end := if pre == "" then "" else "-", if post == "" then "" else "-";
    var body := Phrase(words, gaps) + post;
    assert pre + Phrase(words, gaps) + post == pre + body;
    HyphenatePhrase(words, gaps, post);
    assert Hyphenate(pre + body) == start + (slug + end) by {
      if pre == "" { assert pre + body == body; } else { HyphenateGap(pre, body); }
    }
    JoinedWords(words);
    var dashed := start + (slug + end);
    DashesAround(start, slug, end);
    CollapseNothing(dashed);
    StripsDashes(start, slug, end);
  }

  lemma DashesAround(start: string, slug: string, end: string)
    requires (start == "" || start == "-") && (end == "" || end == "-")
    requires slug != "" && slug[0] != '-' && slug[|slug| - 1] != '-' && NoDoubleDash(slug) && IsSlugText(slug)
    ensures NoDoubleDash(start + (slug + end)) && IsSlugText(start + (slug + end))
  {
    var s := start + (slug + end);
    assert forall k :: 0 <= k < |s| ==>
        s[k] == if k < |start| then '-' else if k < |start| + |slug| then slug[k - |start|] else '-';
    forall k | 0 <= k < |s| - 1 ensures s[k] != '-' || s[k + 1] != '-' {
      if |start| <= k < |start| + |slug| - 1 { assert s[k] == slug[k - |start|] && s[k + 1] == slug[k - |start| + 1]; }
    }
  }

  lemma StripsDashes(start: string, slug: string, end: string)
    requires (start == "" || start == "-") && (end == "" || end == "-") && IsSlugText(start + (slug + end))
    requires slug != "" && slug[0] != '-' && slug[|slug| - 1] != '-'
    ensures StripDashes(start + (slug + end)) == slug
  {
    hide StripBy;
    assert start + slug + end == start + (slug + end);
    StripByOf(IsDash, start, slug, end);
  }

  /** A slug is its own slug. */
  lemma SlugOfSlug(lower: string -> string, words: seq<string>)
    requires words != [] && forall w :: w in words ==> IsWord(w)
    requires lower(Join(words, '-')) == Join(words, '-')
    ensures var slug := Join(words, '-');
            SlugifyText(lower, slug) == if |slug| > 60 then slug[..60] else slug
  {
    hide IsWord, IsPhrase, Phrase, Join, IsSlugText, DropIssuePrefix, SlugifyText;
    var gaps := seq(|words| - 1, _ => "-");
    PhraseOfDashes(words);
    var slug := Join(words, '-');
    JoinedWords(words);
    NoPrefix(slug);
    assert "" + slug + "" == slug && IsGap("");
    hide IsGap;
    SlugOfPhrase(lower, slug, "", words, gaps, "");
  }

  lemma {:induction false} PhraseOfDashes(words: seq<string>)
    requires words != [] && forall w :: w in words ==> IsWord(w)
    ensures IsPhrase(words, seq(|words| - 1, _ => "-"))
    ensures Phrase(words, seq(|words| - 1, _ => "-")) == Join(words, '-')
  {
    hide IsWord;
    var gaps := seq(|words| - 1, _ => "-");
    assert IsGap("-");
    if |words| > 1 {
      assert gaps[1..] == seq(|words| - 2, _ => "-");
      PhraseOfDashes(words[1..]);
    }
  }

  /** Without a colon there is no issue prefix to drop. */
  lemma NoPrefix(s: string)
    requires IsSlugText(s)
    ensures DropIssuePrefix(s) == s
  {
    hide LeadingName;
  }

  /** A prefix such as "task-015:" goes, with the white space after it. */
  lemma PrefixIsDropped(name: string, space: string, rest: string)
    requires InName(name) && (forall c :: c in space ==> c as int in SPACES)
    requires rest == "" || rest[0] as int !in SPACES
    ensures DropIssuePrefix(name + ":" + space + rest) == rest
  {
    hide SPACES, IsSpace, StripLeft, InAlphabet;
    InNameIff(name);
    forall c: char ensures IsSpace(c) <==> c as int in SPACES { IsSpaceIff(c); }
    PrefixEnds(name, space, rest);
    StripLeftOf(IsSpace, space, rest);
  }

  lemma PrefixEnds(name: string, space: string, rest: string)
    requires name != "" && AllNameChars(name)
    ensures DropIssuePrefix(name + ":" + space + rest) == StripLeft(IsSpace, space + rest)
  {
    hide StripLeft, IsSpace, AllNameChars;
    var s, tail := name + ":" + space + rest, ":" + (space + rest);
    assert s == name + tail && s[|name|] == ':' && s[|name| + 1..] == space + rest;
    LeadingNameOf(name, tail);
  }

  lemma {:induction false} LeadingNameOf(name: string, rest: string)
    requires AllNameChars(name) && (rest == "" || !IsNameChar(rest[0]))
    ensures LeadingName(name + rest) == name
  {
    if name == [] {
      assert name + rest == rest;
    } else {
      assert (name + rest)[0] == name[0] && (name + rest)[1..] == name[1..] + rest;
      LeadingNameOf(name[1..], rest);
    }
  }
}

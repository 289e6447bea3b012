/** Which version of an agent is the latest: the three algorithms of src/bridge/discovery_service.py. */
module Discovery {
  import opened Prelude
  import opened Text
  import opened Sorting
  import opened Agents

  // ---- Sort keys ----

  /** The number left when everything but digits is dropped; 0 when nothing is left. */
  function PartNumber(part: string): nat {
    DigitsValue(Filter(IsDigit, part))
  }

  /** `_semver_sort_key`. */
  function SemverKey(version: string): seq<int> {
    NumbersOf(Split(version, '.'))
  }

  function NumbersOf(parts: seq<string>): (r: seq<int>)
    ensures |r| == |parts|
  {
    seq(|parts|, k requires 0 <= k < |parts| => PartNumber(parts[k]))
  }

  /** The order of `_agent_record_sort_key`: version first, then deployment time. */
  predicate RecordLe(a: Item, b: Item) {
    var x, y := SemverKey(a.version), SemverKey(b.version);
    if x != y then LexLe(x, y) else StringLe(a.deployedAt, b.deployedAt)
  }

  /** The order of a reverse sort. */
  predicate NotOlder(a: Item, b: Item) {
    RecordLe(b, a)
  }

  lemma RecordLeLaws(a: Item, b: Item, c: Item)
    ensures RecordLe(a, b) || RecordLe(b, a)
    ensures RecordLe(a, b) && RecordLe(b, c) ==> RecordLe(a, c)
  {
    hide SemverKey, LexLe;
    var x, y, z := SemverKey(a.version), SemverKey(b.version), SemverKey(c.version);
    LexTotal(x, y);
    LexTotal(Codes(a.deployedAt), Codes(b.deployedAt));
    if RecordLe(a, b) && RecordLe(b, c) {
      if LexLe(x, y) && LexLe(y, z) {
        LexTransitive(x, y, z);
        if x == z { LexAntisymmetric(x, y); }
      }
      if StringLe(a.deployedAt, b.deployedAt) && StringLe(b.deployedAt, c.deployedAt) {
        LexTransitive(Codes(a.deployedAt), Codes(b.deployedAt), Codes(c.deployedAt));
      }
    }
  }

  lemma NotOlderIsTotalPreorder()
    ensures TotalPreorder(NotOlder)
  {
    hide RecordLe;
    forall a: Item, b: Item ensures NotOlder(a, b) || NotOlder(b, a) { RecordLeLaws(a, b, a); }
    forall a: Item, b: Item, c: Item | NotOlder(a, b) && NotOlder(b, c) ensures NotOlder(a, c) { RecordLeLaws(c, b, a); }
  }

  // ---- Candidates ----

  predicate IsCandidate(i: Item) {
    Invokable(i) == Some(true) && SupportedMode(i)
  }

  /** Every status can be read; otherwise all three algorithms raise. */
  predicate StatusesKnown(items: seq<Item>) {
    forall i :: i in items ==> Invokable(i).Some?
  }

  // ---- The head of the reverse sort (agent detail) ----

  function Newest(items: seq<Item>): seq<Item> {
    SortBy(NotOlder, Filter(IsCandidate, items))
  }

  /** The agent detail's latest; Success(None) is the 404. */
  function DetailLatest(items: seq<Item>): Result<Option<Item>, ()> {
    if !StatusesKnown(items) then Failure(())
    else if Newest(items) == [] then Success(None)
    else Success(Some(Newest(items)[0]))
  }

  // ---- Sort, then skip what cannot be built (resolution) ----

  function FirstConstructible(items: seq<Item>): Option<Item> {
    if items == [] then None else if Constructible(items[0]) then Some(items[0]) else FirstConstructible(items[1..])
  }

  /** The item that the bridge serves. */
  function Resolved(items: seq<Item>): Result<Option<Item>, ()> {
    if !StatusesKnown(items) then Failure(()) else Success(FirstConstructible(Newest(items)))
  }

  method ResolveAgentRecord(items: seq<Item>) returns (r: Result<Option<AgentRecord>, ()>)
    ensures r.Success? <==> StatusesKnown(items)
    ensures r.Success? ==>
              r.value == match FirstConstructible(Newest(items))
                         case None => None
                         case Some(i) => AgentRecordFromItem(i)
    ensures r.Success? ==> (r.value.None? <==> Resolved(items) == Success(None))
    ensures r.Success? && r.value.Some? ==>
              exists i: Item :: && Resolved(items) == Success(Some(i)) && r.value.value.agentName == i.agentName
                          && r.value.value.version == i.version && r.value.value.modelId == ""
  {
    hide Invokable, SupportedMode, Constructible, SortBy, RecordLe, FirstConstructible, Filter;
    var promotedItems: seq<Item> := [];
    assert Filter(IsCandidate, items[..0]) == [] by { NoCandidates(); }
    for k := 0 to |items|
      invariant promotedItems == Filter(IsCandidate, items[..k])
      invariant forall j :: 0 <= j < k ==> Invokable(items[j]).Some?
    {
      assert items[..k + 1] == items[..k] + [items[k]];
      FilterAppend(IsCandidate, items[..k], items[k]);
      var invokable := Invokable(items[k]);
      if invokable.None? {
        return Failure(());
      }
      if invokable.value && SupportedMode(items[k]) {
        promotedItems := promotedItems + [items[k]];
      }
    }
    assert items[..|items|] == items;
    var sortedItems := SortBy(NotOlder, promotedItems);
    for k := 0 to |sortedItems|
      invariant FirstConstructible(sortedItems) == FirstConstructible(sortedItems[k..])
    {
      var record := AgentRecordFromItem(sortedItems[k]);
      FirstConstructibleStep(sortedItems[k..]);
      assert sortedItems[k..][1..] == sortedItems[k + 1..];
      if record.Some? {
        return Success(record);
      }
    }
    NothingConstructible();
    r := Success(None);
  }

  lemma FirstConstructibleStep(items: seq<Item>)
    requires items != []
    ensures FirstConstructible(items) == if Constructible(items[0]) then Some(items[0]) else FirstConstructible(items[1..])
  {}

  lemma NoCandidates()
    ensures Filter(IsCandidate, []) == []
  {}

  lemma NothingConstructible()
    ensures FirstConstructible([]) == None
  {}

  // ---- One pass (listing) ----

  /** The first of the greatest elements, from the right. */
  function FirstGreatest(items: seq<Item>): (r: Option<Item>)
    ensures r.None? <==> items == []
    ensures r.Some? ==> r.value in items
  {
    if items == [] then None
    else
      var rest := FirstGreatest(items[1..]);
      if rest.None? || NotOlder(items[0], rest.value) then Some(items[0]) else rest
  }

  predicate HasName(name: string, i: Item) {
    Strip(i.agentName) == name
  }

  /** The candidates that the listing files under `name`. */
  function Named(items: seq<Item>, name: string): seq<Item> {
    Filter((i: Item) => IsCandidate(i) && HasName(name, i), items)
  }

  /** The listing's dictionary: for every agent the latest of its candidates, and no other names. */
  ghost predicate IsListing(latest: map<string, Item>, items: seq<Item>) {
    forall name :: Listed(latest, items, name)
  }

  ghost predicate Listed(latest: map<string, Item>, items: seq<Item>, name: string) {
    (if name in latest then Some(latest[name]) else None)
    == if name == "" then None else FirstGreatest(Named(items, name))
  }

  lemma {:induction false} FirstGreatestAppend(items: seq<Item>, x: Item)
    ensures FirstGreatest(items + [x])
         == match FirstGreatest(items)
            case None => Some(x)
            case Some(e) => if NotOlder(e, x) then Some(e) else Some(x)
  {
    hide RecordLe;
    if items == [] {
      assert items + [x] == [x];
    } else {
      assert (items + [x])[1..] == items[1..] + [x];
      FirstGreatestAppend(items[1..], x);
      var rest := FirstGreatest(items[1..]);
      if rest.Some? {
        RecordLeLaws(x, rest.value, items[0]);
        RecordLeLaws(rest.value, x, items[0]);
        RecordLeLaws(x, items[0], rest.value);
        RecordLeLaws(items[0], x, rest.value);
        RecordLeLaws(items[0], rest.value, x);
        RecordLeLaws(rest.value, items[0], x);
      }
    }
  }

  method ListLatest(items: seq<Item>) returns (r: Result<map<string, Item>, ()>)
    ensures r.Success? <==> StatusesKnown(items)
    ensures r.Success? ==> IsListing(r.value, items)
  {
    hide Invokable, SupportedMode, RecordLe, IsListing, Strip;
    var latest: map<string, Item> := map[];
    EmptyListing();
    for k := 0 to |items|
      invariant IsListing(latest, items[..k])
      invariant forall j :: 0 <= j < k ==> Invokable(items[j]).Some?
    {
      var item := items[k];
      assert items[..k + 1] == items[..k] + [item];
      var invokable := Invokable(item);
      if invokable.None? {
        return Failure(());
      }
      ListingStep(latest, items[..k], item);
      var agentName := Strip(item.agentName);
      if invokable.value && SupportedMode(item) && agentName != "" {
        if agentName !in latest || !RecordLe(item, latest[agentName]) {
          latest := latest[agentName := item];
        }
      }
    }
    assert items[..|items|] == items;
    r := Success(latest);
  }

  lemma EmptyListing()
    ensures IsListing(map[], [])
  {}

  lemma NamedAppend(items: seq<Item>, item: Item, name: string)
    ensures Named(items + [item], name)
         == Named(items, name) + if IsCandidate(item) && HasName(name, item) then [item] else []
  {
    hide IsCandidate, HasName;
    FilterAppend((i: Item) => IsCandidate(i) && HasName(name, i), items, item);
  }

  /** What one item does to the dictionary. */
  function Relisted(before: map<string, Item>, item: Item): map<string, Item> {
    var name := Strip(item.agentName);
    if IsCandidate(item) && name != "" && (name !in before || !RecordLe(item, before[name]))
    then before[name := item] else before
  }

  lemma ListedStep(before: map<string, Item>, items: seq<Item>, item: Item, name: string)
    requires Listed(before, items, name)
    ensures Listed(Relisted(before, item), items + [item], name)
  {
    hide IsCandidate, Named, FirstGreatest, RecordLe, Strip;
    NamedAppend(items, item, name);
    FirstGreatestAppend(Named(items, name), item);
    assert Named(items, name) + [] == Named(items, name);
  }

  /** One more item keeps the dictionary right. */
  lemma ListingStep(before: map<string, Item>, items: seq<Item>, item: Item)
    requires IsListing(before, items)
    ensures IsListing(Relisted(before, item), items + [item])
  {
    hide Listed, Relisted;
    forall name ensures Listed(Relisted(before, item), items + [item], name) {
      ListedStep(before, items, item, name);
    }
  }

  // ---- The three agree ----

  lemma InsertHead(le: (Item, Item) -> bool, x: Item, xs: seq<Item>)
    ensures Insert(le, x, xs) != [] && Insert(le, x, xs)[0] == if xs == [] || le(x, xs[0]) then x else xs[0]
  {}

  /** The head of the stable reverse sort is the first of the greatest. */
  lemma {:induction false} SortHeadIsFirstGreatest(items: seq<Item>)
    ensures SortBy(NotOlder, items) == [] <==> items == []
    ensures items != [] ==> Some(SortBy(NotOlder, items)[0]) == FirstGreatest(items)
  {
    hide RecordLe, Insert;
    if items != [] {
      SortHeadIsFirstGreatest(items[1..]);
      InsertHead(NotOlder, items[0], SortBy(NotOlder, items[1..]));
    }
  }

  lemma {:induction false} FilterInsert(p: Item -> bool, x: Item, xs: seq<Item>)
    requires Sorted(NotOlder, xs)
    ensures Filter(p, Insert(NotOlder, x, xs)) == if p(x) then Insert(NotOlder, x, Filter(p, xs)) else Filter(p, xs)
  {
    hide RecordLe;
    if xs == [] {
      assert Filter(p, [x]) == if p(x) then [x] else [];
    } else if NotOlder(x, xs[0]) {
      assert ([x] + xs)[1..] == xs;
      var kept := Filter(p, xs);
      if kept != [] {
        assert kept[0] in xs;
        var k :| 0 <= k < |xs| && xs[k] == kept[0];
        RecordLeLaws(kept[0], xs[0], x);
        assert k > 0 ==> NotOlder(xs[0], xs[k]);
      }
    } else {
      var tail := Insert(NotOlder, x, xs[1..]);
      assert ([xs[0]] + tail)[1..] == tail;
      FilterInsert(p, x, xs[1..]);
    }
  }

  /** A stable sort and a filter commute. */
  lemma {:induction false} FilterSort(p: Item -> bool, items: seq<Item>)
    ensures Filter(p, SortBy(NotOlder, items)) == SortBy(NotOlder, Filter(p, items))
  {
    hide RecordLe, Insert;
    if items != [] {
      FilterSort(p, items[1..]);
      NotOlderIsTotalPreorder();
      SortBySorted(NotOlder, items[1..]);
      FilterInsert(p, items[0], SortBy(NotOlder, items[1..]));
      var rest := Filter(p, items[1..]);
      if p(items[0]) { assert ([items[0]] + rest)[1..] == rest; }
    }
  }

  lemma {:induction false} FirstConstructibleIsHead(items: seq<Item>)
    ensures var built := Filter(Constructible, items);
            FirstConstructible(items) == if built == [] then None else Some(built[0])
  {
    hide Constructible;
    if items != [] { FirstConstructibleIsHead(items[1..]); }
  }

  /** Resolution serves the first of the greatest among the candidates that can be built. */
  lemma ResolvedIsGreatestConstructible(items: seq<Item>)
    ensures FirstConstructible(Newest(items)) == FirstGreatest(Filter(Constructible, Filter(IsCandidate, items)))
  {
    hide Constructible, IsCandidate, FirstConstructible, FirstGreatest;
    var candidates := Filter(IsCandidate, items);
    FirstConstructibleIsHead(Newest(items));
    FilterSort(Constructible, candidates);
    SortHeadIsFirstGreatest(Filter(Constructible, candidates));
    EmptyHasNoGreatest();
  }

  lemma EmptyHasNoGreatest()
    ensures FirstGreatest([]) == None
  {}

  /** The rows of one agent, which detail and resolution query; the listing scans the whole table. A
      registered name has no white space around it, so the listing files these rows under that name. */
  function RowsOf(all: seq<Item>, name: string): seq<Item> {
    Filter((i: Item) => HasName(name, i), all)
  }

  lemma {:induction false} FilterFilter(p: Item -> bool, q: Item -> bool, r: Item -> bool, items: seq<Item>)
    requires forall i :: i in items ==> (p(i) && q(i) <==> r(i))
    ensures Filter(p, Filter(q, items)) == Filter(r, items)
  {
    if items != [] {
      var rest := Filter(q, items[1..]);
      FilterFilter(p, q, r, items[1..]);
      if q(items[0]) { assert ([items[0]] + rest)[1..] == rest; }
    }
  }

  /** What the listing files under a name are the candidates among that agent's rows. */
  lemma NamedAreCandidateRows(all: seq<Item>, name: string)
    ensures Named(all, name) == Filter(IsCandidate, RowsOf(all, name))
  {
    hide IsCandidate, HasName;
    FilterFilter(IsCandidate, (i: Item) => HasName(name, i), (i: Item) => IsCandidate(i) && HasName(name, i), all);
  }

  /** On a table of any agents, with the rows of an agent queried in the order in which the listing scans
      them: for every name, the one-pass listing of the whole table and the head of the reverse sort of that
      agent's rows name the same version, ties included; and the bridge serves that version exactly when it
      can be built. */
  lemma LatestAgree(latest: map<string, Item>, all: seq<Item>, name: string)
    requires name != "" && StatusesKnown(all) && IsListing(latest, all)
    ensures var rows := RowsOf(all, name);
            && DetailLatest(rows) == Success(if name in latest then Some(latest[name]) else None)
            && (name in latest ==> (Resolved(rows) == Success(Some(latest[name])) <==> Constructible(latest[name])))
            && (name !in latest ==> Resolved(rows) == Success(None))
  {
    hide *;
    var rows := RowsOf(all, name);
    var candidates := Filter(IsCandidate, rows);
    ListedIsGreatest(latest, all, name);
    RowsOfKnown(all, name);
    DetailIsGreatest(rows);
    ResolvedIsGreatestConstructible(rows);
    ResolvedWhenKnown(rows);
    GreatestOfKept(Constructible, candidates);
    if name in latest {
      ConstructibleIsKept(candidates, latest[name]);
    } else {
      FilterOfNone(Constructible, candidates);
    }
  }

  /** No two of the greatest elements differ. */
  ghost predicate OneGreatest(items: seq<Item>) {
    forall a, b :: IsGreatest(items, a) && IsGreatest(items, b) ==> a == b
  }

  ghost predicate IsGreatest(items: seq<Item>, g: Item) {
    g in items && forall i :: i in items ==> NotOlder(g, i)
  }

  /** With the rows queried in any other order, all three still agree when no two candidates of the agent
      share the greatest sort key. */
  lemma LatestAgreeInAnyOrder(latest: map<string, Item>, all: seq<Item>, queried: seq<Item>, name: string)
    requires name != "" && StatusesKnown(all) && IsListing(latest, all)
    requires multiset(queried) == multiset(RowsOf(all, name))
    requires OneGreatest(Filter(IsCandidate, RowsOf(all, name)))
    ensures DetailLatest(queried) == Success(if name in latest then Some(latest[name]) else None)
    ensures name in latest ==> (Resolved(queried) == Success(Some(latest[name])) <==> Constructible(latest[name]))
    ensures name !in latest ==> Resolved(queried) == Success(None)
  {
    hide *;
    var rows := RowsOf(all, name);
    ListedIsGreatest(latest, all, name);
    RowsOfKnown(all, name);
    SameRowsKnown(rows, queried);
    FilterSame(IsCandidate, rows, queried);
    var candidates := Filter(IsCandidate, queried);
    GreatestOfSame(Filter(IsCandidate, rows), candidates);
    DetailIsGreatest(queried);
    ResolvedIsGreatestConstructible(queried);
    ResolvedWhenKnown(queried);
    GreatestOfKept(Constructible, candidates);
    if name in latest {
      ConstructibleIsKept(candidates, latest[name]);
    } else {
      FilterOfNone(Constructible, candidates);
    }
  }

  lemma SameRowsKnown(rows: seq<Item>, queried: seq<Item>)
    requires multiset(queried) == multiset(rows) && StatusesKnown(rows)
    ensures StatusesKnown(queried)
  {
    hide Invokable;
    forall i | i in queried ensures i in rows { assert i in multiset(queried); }
  }

  lemma FilterSame(p: Item -> bool, items: seq<Item>, other: seq<Item>)
    requires multiset(items) == multiset(other)
    ensures forall i :: i in Filter(p, items) <==> i in Filter(p, other)
  {
    forall i ensures i in items <==> i in other { assert i in multiset(items) <==> i in multiset(other); }
  }

  lemma GreatestOfSame(items: seq<Item>, other: seq<Item>)
    requires (forall i :: i in items <==> i in other) && OneGreatest(items)
    ensures FirstGreatest(items) == FirstGreatest(other)
  {
    hide NotOlder;
    assert items == [] <==> other == [] by {
      assert items != [] ==> items[0] in items;
      assert other != [] ==> other[0] in other;
    }
    if items != [] {
      FirstGreatestIsGreatest(items);
      FirstGreatestIsGreatest(other);
      assert IsGreatest(items, FirstGreatest(other).value);
    }
  }

  lemma FirstGreatestIsGreatest(items: seq<Item>)
    requires items != []
    ensures IsGreatest(items, FirstGreatest(items).value)
  {
    hide NotOlder;
    GreatestIsGreatest(items);
  }

  /** The condition is exact: the latest is the same for every order of the rows exactly when no two
      different rows are greatest. */
  lemma LatestIsOrderFreeIff(items: seq<Item>)
    ensures (forall other :: multiset(other) == multiset(items) ==> FirstGreatest(other) == FirstGreatest(items))
       <==> OneGreatest(items)
  {
    hide FirstGreatest, IsGreatest, RecordLe;
    if OneGreatest(items) {
      forall other | multiset(other) == multiset(items) ensures FirstGreatest(other) == FirstGreatest(items) {
        forall i ensures i in items <==> i in other { assert i in multiset(items) <==> i in multiset(other); }
        GreatestOfSame(items, other);
      }
    } else {
      var a, b :| IsGreatest(items, a) && IsGreatest(items, b) && a != b;
      var first := PutFirst(items, a);
      var second := PutFirst(items, b);
      assert multiset(first) == multiset(items) && multiset(second) == multiset(items);
      assert FirstGreatest(first) == Some(a) && FirstGreatest(second) == Some(b);
    }
  }

  /** A greatest row is the latest when it comes first. */
  lemma PutFirst(items: seq<Item>, g: Item) returns (other: seq<Item>)
    requires IsGreatest(items, g)
    ensures multiset(other) == multiset(items) && FirstGreatest(other) == Some(g)
  {
    hide RecordLe;
    var k :| 0 <= k < |items| && items[k] == g;
    var rest := items[..k] + items[k + 1..];
    assert items == items[..k] + [g] + items[k + 1..];
    other := [g] + rest;
    assert other[1..] == rest;
    if FirstGreatest(rest).Some? { assert FirstGreatest(rest).value in items; }
  }

  /** Two tied candidates: each order of the rows makes another one the latest. */
  lemma TiedRowsPart(x: Item, y: Item)
    requires IsCandidate(x) && IsCandidate(y) && RecordLe(x, y) && RecordLe(y, x)
    ensures DetailLatest([x, y]) == Success(Some(x)) && DetailLatest([y, x]) == Success(Some(y))
  {
    hide RecordLe, SupportedMode, Invokable;
    LatestOfTwo(x, y);
    LatestOfTwo(y, x);
  }

  lemma OnlyCandidates(x: Item, y: Item)
    requires IsCandidate(x) && IsCandidate(y)
    ensures Filter(IsCandidate, [x, y]) == [x, y] && StatusesKnown([x, y])
  {
    hide SupportedMode, Invokable;
    FilterStep(IsCandidate, x, [y]);
    FilterStep(IsCandidate, y, []);
    assert [x] + [y] == [x, y] && [y] + [] == [y];
  }

  lemma LatestOfTwo(x: Item, y: Item)
    requires IsCandidate(x) && IsCandidate(y) && RecordLe(y, x)
    ensures DetailLatest([x, y]) == Success(Some(x))
  {
    hide RecordLe, SupportedMode, Invokable;
    OnlyCandidates(x, y);
    DetailIsGreatest([x, y]);
    assert [x, y][1..] == [y] && [y][1..] == [];
    assert FirstGreatest([y]) == Some(y);
  }

  lemma ListedIsGreatest(latest: map<string, Item>, all: seq<Item>, name: string)
    requires name != "" && IsListing(latest, all)
    ensures (if name in latest then Some(latest[name]) else None) == FirstGreatest(Filter(IsCandidate, RowsOf(all, name)))
  {
    hide IsCandidate, FirstGreatest, Named, RowsOf;
    NamedAreCandidateRows(all, name);
    assert Listed(latest, all, name);
  }

  lemma RowsOfKnown(all: seq<Item>, name: string)
    ensures StatusesKnown(RowsOf(all, name)) <==> forall i :: i in all && HasName(name, i) ==> Invokable(i).Some?
    ensures StatusesKnown(all) ==> StatusesKnown(RowsOf(all, name))
  {
    hide Invokable, HasName;
  }

  /** Where they part: the listing fails while detail and resolution of `name` still answer exactly when
      some row has an unreadable status, but no row of `name` has. */
  lemma ListingFailsAloneIff(all: seq<Item>, name: string)
    ensures var rows := RowsOf(all, name);
            && (DetailLatest(rows).Success? <==> Resolved(rows).Success?)
            && (!StatusesKnown(all) && DetailLatest(rows).Success?
                <==> && (exists i :: i in all && !HasName(name, i) && Invokable(i).None?)
                     && (forall i :: i in all && HasName(name, i) ==> Invokable(i).Some?))
  {
    hide Invokable, HasName, Newest, FirstConstructible;
    RowsOfKnown(all, name);
  }

  /** One row of another agent is enough: a table of a sound version `x` and an unreadable row `y`. */
  lemma BadRowElsewhereStopsListing(x: Item, y: Item, name: string)
    requires HasName(name, x) && IsCandidate(x) && Constructible(x)
    requires !HasName(name, y) && Invokable(y).None?
    ensures !StatusesKnown([x, y])
    ensures DetailLatest(RowsOf([x, y], name)) == Success(Some(x)) == Resolved(RowsOf([x, y], name))
  {
    hide Invokable, HasName, Constructible, SupportedMode, RecordLe;
    assert Filter((i: Item) => HasName(name, i), [y]) == [];
    assert [x, y][1..] == [y] && [x] + [] == [x];
    assert RowsOf([x, y], name) == [x];
    assert y in [x, y];
    assert Filter(IsCandidate, [x]) == [x];
    assert SortBy(NotOlder, [x]) == [x];
  }

  lemma DetailIsGreatest(items: seq<Item>)
    requires StatusesKnown(items)
    ensures DetailLatest(items) == Success(FirstGreatest(Filter(IsCandidate, items)))
  {
    hide IsCandidate, StatusesKnown;
    SortHeadIsFirstGreatest(Filter(IsCandidate, items));
  }

  lemma ResolvedWhenKnown(items: seq<Item>)
    requires StatusesKnown(items)
    ensures Resolved(items) == Success(FirstConstructible(Newest(items)))
  {
    hide StatusesKnown, Newest, FirstConstructible;
  }

  lemma FilterOfNone(p: Item -> bool, candidates: seq<Item>)
    ensures FirstGreatest(candidates).None? ==> FirstGreatest(Filter(p, candidates)).None?
  {}

  lemma ConstructibleIsKept(candidates: seq<Item>, i: Item)
    ensures FirstGreatest(Filter(Constructible, candidates)) == Some(i) ==> Constructible(i)
  {
    hide Constructible;
  }

  /** Filtering keeps the first of the greatest, when it passes the filter. */
  lemma {:induction false} GreatestOfKept(p: Item -> bool, items: seq<Item>)
    ensures match FirstGreatest(items)
            case None => true
            case Some(g) => p(g) ==> FirstGreatest(Filter(p, items)) == Some(g)
  {
    hide RecordLe;
    if items != [] {
      GreatestOfKept(p, items[1..]);
      var g := FirstGreatest(items).value;
      var rest := Filter(p, items[1..]);
      if p(items[0]) { assert ([items[0]] + rest)[1..] == rest; }
      if p(g) && g == items[0] && rest != [] {
        GreatestIsGreatest(items[1..]);
        var m := FirstGreatest(items[1..]);
        if m.Some? && NotOlder(items[0], m.value) {
          var h := FirstGreatest(rest).value;
          assert h in items[1..];
          RecordLeLaws(h, m.value, items[0]);
        }
      }
    }
  }

  lemma {:induction false} GreatestIsGreatest(items: seq<Item>)
    ensures FirstGreatest(items).Some? ==> forall i :: i in items ==> NotOlder(FirstGreatest(items).value, i)
  {
    hide RecordLe;
    if items != [] {
      GreatestIsGreatest(items[1..]);
      var g := FirstGreatest(items).value;
      forall i | i in items ensures NotOlder(g, i) {
        RecordLeLaws(i, i, i);
        assert i == items[0] || i in items[1..];
        if FirstGreatest(items[1..]).Some? {
          var m := FirstGreatest(items[1..]).value;
          RecordLeLaws(items[0], m, m);
          RecordLeLaws(i, m, items[0]);
        }
      }
    }
  }

  /** With distinct sort keys the latest does not depend on the order of the rows. */
  lemma LatestIgnoresOrder(items: seq<Item>, other: seq<Item>)
    requires forall i :: i in items <==> i in other
    requires forall a, b :: a in items && b in items && RecordLe(a, b) && RecordLe(b, a) ==> a == b
    ensures FirstGreatest(items) == FirstGreatest(other)
  {
    hide RecordLe, FirstGreatest;
    GreatestIsGreatest(items);
    GreatestIsGreatest(other);
    assert items != [] ==> items[0] in items;
    assert other != [] ==> other[0] in other;
    var a, b := FirstGreatest(items), FirstGreatest(other);
    if a.Some? && b.Some? {
      assert a.value in items && b.value in other;
    }
  }

  /** What the bridge serves, by the rows: an invokable row in a supported mode that can be built, than which
      none has a higher version, and of the same version none was deployed later. */
  lemma ResolvedIsNewest(items: seq<Item>, g: Item, i: Item)
    requires Resolved(items) == Success(Some(g))
    requires i in items && IsCandidate(i) && Constructible(i)
    ensures g in items && IsCandidate(g) && Constructible(g)
    ensures LexLe(SemverKey(i.version), SemverKey(g.version))
    ensures SemverKey(i.version) == SemverKey(g.version) ==> StringLe(i.deployedAt, g.deployedAt)
  {
    hide Constructible, IsCandidate, SemverKey, StringLe, FirstConstructible, Newest, FirstGreatest;
    ResolvedIsGreatestConstructible(items);
    var kept := Filter(Constructible, Filter(IsCandidate, items));
    GreatestIsGreatest(kept);
    assert i in kept && NotOlder(g, i);
    LexSelf(SemverKey(i.version));
  }

  lemma LexSelf(a: seq<int>)
    ensures LexLe(a, a)
  {
    LexTotal(a, a);
  }

  /** The same of the latest that the detail shows, and so of the listing's: there, it need not be buildable. */
  lemma DetailIsNewest(items: seq<Item>, g: Item, i: Item)
    requires DetailLatest(items) == Success(Some(g))
    requires i in items && IsCandidate(i)
    ensures g in items && IsCandidate(g)
    ensures LexLe(SemverKey(i.version), SemverKey(g.version))
    ensures SemverKey(i.version) == SemverKey(g.version) ==> StringLe(i.deployedAt, g.deployedAt)
  {
    hide IsCandidate, SemverKey, StringLe, FirstGreatest, Newest;
    KnownWhenShown(items);
    DetailIsGreatest(items);
    var candidates := Filter(IsCandidate, items);
    GreatestIsGreatest(candidates);
    assert i in candidates && NotOlder(g, i);
    LexSelf(SemverKey(i.version));
  }

  lemma KnownWhenShown(items: seq<Item>)
    requires DetailLatest(items).Success?
    ensures StatusesKnown(items)
  {}

  /** A version is cut at its dots; of each part only the digits count, and none count as 0. */
  lemma SemverKeyIs(version: string, k: nat)
    requires k < |Split(version, '.')|
    ensures |SemverKey(version)| == |Split(version, '.')|
    ensures SemverKey(version)[k] == DigitsValue(Filter(IsDigit, Split(version, '.')[k]))
    ensures (forall c :: c in Split(version, '.')[k] ==> !IsDigit(c)) ==> SemverKey(version)[k] == 0
  {
    hide Split;
    if forall c :: c in Split(version, '.')[k] ==> !IsDigit(c) { NoDigits(Split(version, '.')[k]); }
  }

  // ---- The order of versions ----

  function CoreVersion(major: nat, minor: nat, patch: nat): string {
    Decimal(major) + "." + Decimal(minor) + "." + Decimal(patch)
  }

  /** MAJOR.MINOR.PATCH versions are ordered as section 11 of SemVer 2.0.0 orders them. */
  lemma CoreVersionOrder(a: nat, b: nat, c: nat, x: nat, y: nat, z: nat)
    ensures SemverKey(CoreVersion(a, b, c)) == [a, b, c]
    ensures LexLe(SemverKey(CoreVersion(a, b, c)), SemverKey(CoreVersion(x, y, z)))
       <==> a < x || (a == x && (b < y || (b == y && c <= z)))
  {
    hide SemverKey, CoreVersion, LexLe;
    CoreKeyExact(a, b, c);
    CoreKeyExact(x, y, z);
    LexOfTriples(a, b, c, x, y, z);
  }

  lemma CoreKeyExact(a: nat, b: nat, c: nat)
    ensures SemverKey(CoreVersion(a, b, c)) == [a, b, c]
  {
    hide SemverKey, CoreVersion, PartNumber, Decimal;
    CoreKey(a, b, c, "");
    assert CoreVersion(a, b, c) + "" == CoreVersion(a, b, c);
    assert Split("", '.') == [""] && [""][1..] == [];
    NumberOfDecimal(c, "");
    assert NumbersOf([Decimal(c) + ""]) == [c];
    assert [Decimal(c) + ""] + [] == [Decimal(c) + ""];
    assert [a, b] + [c] == [a, b, c];
  }

  lemma LexOfTriples(a: int, b: int, c: int, x: int, y: int, z: int)
    ensures LexLe([a, b, c], [x, y, z]) <==> a < x || (a == x && (b < y || (b == y && c <= z)))
  {
    assert [a, b, c][1..] == [b, c] && [b, c][1..] == [c] && [c][1..] == [];
    assert [x, y, z][1..] == [y, z] && [y, z][1..] == [z] && [z][1..] == [];
    assert LexLe([c], [z]) <==> c <= z;
    assert LexLe([b, c], [y, z]) <==> b < y || (b == y && c <= z);
  }

  lemma NumberOfDecimal(n: nat, t: string)
    ensures PartNumber(Decimal(n) + t) >= n
    ensures t == "" ==> PartNumber(Decimal(n) + t) == n
  {
    hide Decimal;
    FilterConcat(IsDigit, Decimal(n), t);
    FilterAllDigits(Decimal(n));
    DecimalRoundTrip(n);
    DigitsValueExtend(Decimal(n), Filter(IsDigit, t));
    if t == "" { assert Decimal(n) + t == Decimal(n); }
  }

  lemma {:induction false} SplitOfPrefix(p: string, s: string, sep: char)
    requires sep !in p
    ensures Split(p + s, sep) == [p + Split(s, sep)[0]] + Split(s, sep)[1..]
  {
    var rest := Split(s, sep);
    if p == [] {
      assert p + s == s && p + rest[0] == rest[0];
      assert rest == [rest[0]] + rest[1..];
    } else {
      assert p[0] in p && (p + s)[0] == p[0] && (p + s)[1..] == p[1..] + s;
      SplitOfPrefix(p[1..], s, sep);
      assert [p[0]] + (p[1..] + Split(s, sep)[0]) == p + Split(s, sep)[0];
    }
  }

  lemma DotNotInDecimal(n: nat)
    ensures '.' !in Decimal(n)
  {
    hide Decimal;
  }

  /** The key of a core version with anything behind it. */
  lemma CoreKey(a: nat, b: nat, c: nat, suffix: string)
    ensures SemverKey(CoreVersion(a, b, c) + suffix)
         == [a, b] + NumbersOf([Decimal(c) + Split(suffix, '.')[0]] + Split(suffix, '.')[1..])
  {
    hide Decimal, Split, PartNumber;
    CoreSplit(a, b, c, suffix);
    var tail := [Decimal(c) + Split(suffix, '.')[0]] + Split(suffix, '.')[1..];
    NumberOfDecimal(a, "");
    NumberOfDecimal(b, "");
    assert Decimal(a) + "" == Decimal(a) && Decimal(b) + "" == Decimal(b);
    assert NumbersOf([Decimal(a), Decimal(b)] + tail) == [a, b] + NumbersOf(tail);
  }

  lemma CoreSplit(a: nat, b: nat, c: nat, suffix: string)
    ensures Split(CoreVersion(a, b, c) + suffix, '.')
         == [Decimal(a), Decimal(b)] + ([Decimal(c) + Split(suffix, '.')[0]] + Split(suffix, '.')[1..])
  {
    hide Decimal, Split;
    DotNotInDecimal(a);
    DotNotInDecimal(b);
    DotNotInDecimal(c);
    var p, q, r := Decimal(a), Decimal(b), Decimal(c);
    var last := r + suffix;
    assert CoreVersion(a, b, c) + suffix == p + ['.'] + (q + ['.'] + last);
    SplitAtSeparator(p, q + ['.'] + last, '.');
    SplitAtSeparator(q, last, '.');
    SplitOfPrefix(r, suffix, '.');
  }

  /** The third part of the key of MAJOR.MINOR.PATCH-pre: the digits of the patch number and of the first
      dot-separated piece of the pre-release, read as one number. */
  function ThirdPart(patch: nat, pre: string): nat {
    PartNumber(Decimal(patch) + Split("-" + pre, '.')[0])
  }

  lemma PrereleaseKey(a: nat, b: nat, c: nat, pre: string)
    ensures var key := SemverKey(CoreVersion(a, b, c) + "-" + pre);
            |key| >= 3 && key[0] == a && key[1] == b && key[2] == ThirdPart(c, pre) >= c
  {
    hide Decimal, Split, SemverKey, CoreVersion, PartNumber;
    var suffix := "-" + pre;
    CoreKey(a, b, c, suffix);
    assert CoreVersion(a, b, c) + "-" + pre == CoreVersion(a, b, c) + suffix;
    var parts := [Decimal(c) + Split(suffix, '.')[0]] + Split(suffix, '.')[1..];
    NumberOfDecimal(c, Split(suffix, '.')[0]);
    assert NumbersOf(parts)[0] == ThirdPart(c, pre);
  }

  /** Section 11 of SemVer 2.0.0: a pre-release comes before a release exactly when its own release does, or
      is that release. */
  predicate PrereleasePrecedes(a: nat, b: nat, c: nat, x: nat, y: nat, z: nat) {
    a < x || (a == x && (b < y || (b == y && c <= z)))
  }

  /** The code puts the pre-release a.b.c-pre and the release x.y.z in the order of section 11 (a tie counts
      as against it) except exactly when they share major and minor, and z lies between c and the third part
      of the pre-release's key. */
  lemma PrereleaseMisorderedIff(a: nat, b: nat, c: nat, pre: string, x: nat, y: nat, z: nat)
    ensures var p, r := SemverKey(CoreVersion(a, b, c) + "-" + pre), SemverKey(CoreVersion(x, y, z));
            (if PrereleasePrecedes(a, b, c, x, y, z) then !LexLt(p, r) else !LexLt(r, p))
            <==> a == x && b == y && c <= z <= ThirdPart(c, pre)
  {
    hide SemverKey, CoreVersion, ThirdPart, LexLe;
    PrereleaseKey(a, b, c, pre);
    CoreKeyExact(x, y, z);
    LexOfTripleAndLonger(x, y, z, SemverKey(CoreVersion(a, b, c) + "-" + pre));
  }

  lemma LexOfTripleAndLonger(x: int, y: int, z: int, key: seq<int>)
    requires |key| >= 3
    ensures LexLe([x, y, z], key) <==> x < key[0] || (x == key[0] && (y < key[1] || (y == key[1] && z <= key[2])))
    ensures LexLe(key, [x, y, z]) ==> key[0] < x || (key[0] == x && (key[1] < y || (key[1] == y && key[2] <= z)))
  {
    assert [x, y, z][1..] == [y, z] && [y, z][1..] == [z] && [z][1..] == [];
    var k1, k2 := key[1..], key[1..][1..];
    assert LexLe([z], k2) <==> z <= key[2];
    assert LexLe([y, z], k1) <==> y < key[1] || (y == key[1] && z <= key[2]);
    assert LexLe(k2, [z]) ==> key[2] <= z;
    assert LexLe(k1, [y, z]) ==> key[1] < y || (key[1] == y && key[2] <= z);
  }

  /** In particular a pre-release is never ordered below its own release, whatever its identifiers are. */
  lemma PrereleaseIsNeverOlder(a: nat, b: nat, c: nat, pre: string)
    ensures LexLe(SemverKey(CoreVersion(a, b, c)), SemverKey(CoreVersion(a, b, c) + "-" + pre))
  {
    hide SemverKey, CoreVersion, ThirdPart, LexLe;
    PrereleaseKey(a, b, c, pre);
    PrereleaseMisorderedIff(a, b, c, pre, a, b, c);
  }

  /** A numbered pre-release can outrank later patches of its release, and the bridge then serves it: with a
      third part beyond the patch number `z`, a.b.c-pre is resolved rather than a.b.z. */
  lemma NumberedPrereleaseIsServed(r: Item, p: Item, a: nat, b: nat, c: nat, pre: string, z: nat)
    requires r.version == CoreVersion(a, b, z) && p.version == CoreVersion(a, b, c) + "-" + pre
    requires c <= z < ThirdPart(c, pre)
    requires IsCandidate(r) && IsCandidate(p) && Constructible(p)
    ensures Resolved([r, p]) == Success(Some(p)) == Resolved([p, r])
  {
    hide SemverKey, CoreVersion, ThirdPart, LexLe, Invokable, SupportedMode, Constructible;
    PrereleaseKey(a, b, c, pre);
    CoreKeyExact(a, b, z);
    LexOfTripleAndLonger(a, b, z, SemverKey(p.version));
    assert RecordLe(r, p) && !RecordLe(p, r);
    GreaterIsServed(r, p);
  }

  lemma GreaterIsServed(r: Item, p: Item)
    requires IsCandidate(r) && IsCandidate(p) && Constructible(p) && RecordLe(r, p) && !RecordLe(p, r)
    ensures Resolved([r, p]) == Success(Some(p)) == Resolved([p, r])
  {
    hide RecordLe, Invokable, SupportedMode, Constructible, Resolved, FirstConstructible, Newest;
    forall items | items == [r, p] || items == [p, r] ensures Resolved(items) == Success(Some(p)) {
      assert items == [items[0], items[1]];
      OnlyCandidates(items[0], items[1]);
      ResolvedWhenKnown(items);
      ResolvedIsGreatestConstructible(items);
      assert items[1..] == [items[1]] && [items[1]][1..] == [];
      assert FirstGreatest([items[1]]) == Some(items[1]);
      GreatestOfKept(Constructible, items);
    }
  }

  /** For example 1.0.0-rc2 against 1.0.1. */
  lemma SecondCandidateOutranksPatch()
    ensures CoreVersion(1, 0, 0) + "-" + "rc2" == "1.0.0-rc2" && CoreVersion(1, 0, 1) == "1.0.1"
    ensures ThirdPart(0, "rc2") == 2
    ensures LexLt(SemverKey("1.0.1"), SemverKey("1.0.0-rc2"))
  {
    assert Decimal(0) == "0" && Decimal(1) == "1";
    RcKey();
    hide SemverKey, ThirdPart, LexLe, CoreVersion;
    assert CoreVersion(1, 0, 0) + "-" + "rc2" == "1.0.0-rc2" && CoreVersion(1, 0, 1) == "1.0.1" by { Spelled(); }
    PrereleaseKey(1, 0, 0, "rc2");
    CoreKeyExact(1, 0, 1);
    LexOfTripleAndLonger(1, 0, 1, SemverKey("1.0.0-rc2"));
  }

  lemma Spelled()
    ensures CoreVersion(1, 0, 0) + "-" + "rc2" == "1.0.0-rc2" && CoreVersion(1, 0, 1) == "1.0.1"
  {
    assert Decimal(0) == "0" && Decimal(1) == "1";
  }

  lemma RcKey()
    ensures ThirdPart(0, "rc2") == 2
  {
    var text := "-" + "rc2";
    SplitOfPart(text, '.');
    assert Decimal(0) + text == "0-rc2";
    hide Split, Decimal;
    DigitsOfRc();
    ValueOfDigits();
  }

  lemma DigitsOfRc()
    ensures Filter(IsDigit, "0-rc2") == "02"
  {
    hide Filter;
    FilterConcat(IsDigit, "0", "-rc2");
    FilterConcat(IsDigit, "-rc", "2");
    assert "0" + "-rc2" == "0-rc2" && "-rc" + "2" == "-rc2" && "0" + "2" == "02";
    FilterAllDigits("0");
    FilterAllDigits("2");
    NoDigits("-rc");
  }

  lemma NoDigits(s: string)
    requires forall c :: c in s ==> !IsDigit(c)
    ensures Filter(IsDigit, s) == []
  {}

  lemma ValueOfDigits()
    ensures AllDigits("02") && DigitsValue("02") == 2
  {
    assert "02"[..1] == "0" && "0"[..0] == "";
    assert DigitsValue("0") == 0;
  }
}

/** Rolling an agent back (scripts/rollback_agent.py) and what the bridge serves afterwards. */
module Rollback {
  import opened Prelude
  import opened Text
  import opened Sorting
  import opened Agents
  import opened Discovery
  import opened Registry

  // ---- The script ----

  /** `[int(p) for p in version.split(".")]`; None when some part is not a number. */
  function IntKey(version: string): Option<seq<int>> {
    AllInts(Split(version, '.'))
  }

  function AllInts(parts: seq<string>): (r: Option<seq<int>>)
    ensures r.Some? ==> |r.value| == |parts|
  {
    if parts == [] then Some([])
    else
      match PyInt(parts[0])
      case None => None
      case Some(n) =>
        match AllInts(parts[1..])
        case None => None
        case Some(ns) => Some([n] + ns)
  }

  predicate IsPromotedOf(name: string, i: Item) {
    i.agentName == name && i.status == Some("promoted")
  }

  /** The script compares integer lists; it only ever does so when all of them exist. */
  predicate IntNotOlder(a: Item, b: Item) {
    match (IntKey(a.version), IntKey(b.version))
    case (Some(x), Some(y)) => LexLe(y, x)
    case _ => true
  }

  datatype RollbackError = NothingPromoted | BadVersion | NoPreviousVersion | ApiError(error: RegistryError)

  function PromotedVersions(items: seq<Item>, name: string): seq<Item> {
    Filter((i: Item) => IsPromotedOf(name, i), items)
  }

  /** The version that the script takes for the current one. */
  function SelectCurrent(items: seq<Item>, name: string): Result<string, RollbackError> {
    var versions := PromotedVersions(items, name);
    if versions == [] then Failure(NothingPromoted)
    else if exists i :: i in versions && IntKey(i.version).None? then Failure(BadVersion)
    else if |versions| < 2 then Failure(NoPreviousVersion)
    else Success(SortBy(IntNotOlder, versions)[0].version)
  }

  /** `fetched` is the list that the API returned, in any order. */
  method RollbackAgent(table: AgentTable, fetched: seq<Item>, name: string, sub: string, now: string)
      returns (r: Result<string, RollbackError>)
    modifies table
    ensures match SelectCurrent(fetched, name)
            case Failure(e) => r == Failure(e) && table.items == old(table.items)
            case Success(version) =>
              match UpdateOutcome(old(table.items), VersionId(name, version), RolledBack, sub, now)
              case Failure(e) => r == Failure(ApiError(e)) && table.items == old(table.items)
              case Success(t) => r == Success(version) && table.items == t
  {
    hide SortBy, IntKey, PromotedVersions, UpdateOutcome;
    var agentVersions := PromotedVersions(fetched, name);
    if agentVersions == [] {
      return Failure(NothingPromoted);
    }
    if exists i :: i in agentVersions && IntKey(i.version).None? {
      return Failure(BadVersion);
    }
    var sorted := SortBy(IntNotOlder, agentVersions);
    var currentVersion := sorted[0].version;
    if |agentVersions| < 2 {
      return Failure(NoPreviousVersion);
    }
    var patched := table.UpdateAgentStatus(VersionId(name, currentVersion), RolledBack, sub, now);
    if patched.Failure? {
      return Failure(ApiError(patched.error));
    }
    r := Success(currentVersion);
  }

  // ---- Tables that the release process leaves behind ----

  /** Every record sits under its own key. */
  ghost predicate WellKeyed(t: Table) {
    forall id :: id in t ==> t[id].agentName == id.agent && t[id].version == id.version
  }

  /** The rows of the table, in some order. */
  ghost predicate IsScan(rows: seq<Item>, t: Table) {
    && Distinct(rows)
    && (forall i :: i in rows <==> VersionId(i.agentName, i.version) in t && t[VersionId(i.agentName, i.version)] == i)
  }

  /** "1.20.3" and the like: parts of digits only. */
  predicate NumericVersion(version: string) {
    var parts := Split(version, '.');
    forall k :: 0 <= k < |parts| ==> parts[k] != "" && AllDigits(parts[k])
  }

  /** A promoted record that the bridge can serve. */
  predicate Servable(i: Item) {
    NumericVersion(i.version) && SupportedMode(i) && HasLayers(i) && KnownNames(i)
  }

  /** What the agreement needs of the records of `name`: statuses present and readable, promoted ones
      servable, their version numbers distinct. */
  ghost predicate Healthy(t: Table, name: string) {
    && WellKeyed(t)
    && (forall id :: id in t && id.agent == name ==> t[id].status.Some? && Invokable(t[id]).Some?)
    && (forall id :: id in t && id.agent == name && t[id].status == Some("promoted") ==> Servable(t[id]))
    && (forall a, b :: PromotedAt(t, name, a) && PromotedAt(t, name, b) && SameKey(a, b) ==> a == b)
  }

  predicate SameKey(a: VersionId, b: VersionId) {
    SemverKey(a.version) == SemverKey(b.version)
  }

  ghost predicate PromotedAt(t: Table, name: string, id: VersionId) {
    id in t && id.agent == name && t[id].status == Some("promoted")
  }

  /** The rows of one agent's partition, which the bridge queries. */
  function Partition(rows: seq<Item>, name: string): seq<Item> {
    Filter((i: Item) => i.agentName == name, rows)
  }

  /** The promoted versions of `name`, newest first. */
  function PromotedNewestFirst(rows: seq<Item>, name: string): seq<Item> {
    SortBy(NotOlder, PromotedVersions(rows, name))
  }

  // ---- Numeric versions: both keys are the same ----

  lemma {:induction false} NumericParts(parts: seq<string>)
    requires forall k :: 0 <= k < |parts| ==> parts[k] != "" && AllDigits(parts[k])
    ensures AllInts(parts) == Some(NumbersOf(parts))
  {
    hide PyInt, PartNumber;
    if parts == [] {
      assert NumbersOf(parts) == [];
    } else {
      NumericParts(parts[1..]);
      PyIntOfDigits(parts[0]);
      DigitsPartNumber(parts[0]);
      assert NumbersOf(parts) == [PartNumber(parts[0])] + NumbersOf(parts[1..]);
    }
  }

  lemma DigitsPartNumber(part: string)
    requires AllDigits(part)
    ensures PartNumber(part) == DigitsValue(part)
  {
    FilterAllDigits(part);
  }

  /** On numeric versions the script's key is the bridge's key. */
  lemma KeysAgree(version: string)
    requires NumericVersion(version)
    ensures IntKey(version) == Some(SemverKey(version))
  {
    NumericParts(Split(version, '.'));
  }

  // ---- What the promoted rows look like ----

  lemma PromotedMembers(rows: seq<Item>, t: Table, name: string)
    requires Healthy(t, name) && IsScan(rows, t)
    ensures Distinct(PromotedVersions(rows, name))
    ensures forall i :: i in PromotedVersions(rows, name) <==>
              VersionId(name, i.version) in t && t[VersionId(name, i.version)] == i && i.status == Some("promoted")
    ensures forall i :: i in PromotedVersions(rows, name) ==> i.agentName == name && Servable(i)
    ensures var p := PromotedVersions(rows, name);
            forall a, b :: a in p && b in p && RecordLe(a, b) && RecordLe(b, a) ==> a == b
  {
    hide Servable, Invokable, SemverKey, LexLe;
    FilterDistinct((i: Item) => IsPromotedOf(name, i), rows);
    var p := PromotedVersions(rows, name);
    forall a, b | a in p && b in p && RecordLe(a, b) && RecordLe(b, a) ensures a == b {
      if LexLe(SemverKey(a.version), SemverKey(b.version)) && LexLe(SemverKey(b.version), SemverKey(a.version)) {
        LexAntisymmetric(SemverKey(a.version), SemverKey(b.version));
      }
      assert SameKey(VersionId(name, a.version), VersionId(name, b.version));
      assert VersionId(name, a.version) == VersionId(name, b.version);
    }
  }

  lemma NewestFirstFacts(rows: seq<Item>, t: Table, name: string)
    requires Healthy(t, name) && IsScan(rows, t)
    ensures var p := PromotedNewestFirst(rows, name);
            && Distinct(p) && Sorted(NotOlder, p) && |p| == |PromotedVersions(rows, name)|
            && forall i :: i in p <==> i in PromotedVersions(rows, name)
  {
    hide Healthy, IsScan, PromotedVersions, RecordLe;
    PromotedMembers(rows, t, name);
    NotOlderIsTotalPreorder();
    SortBySorted(NotOlder, PromotedVersions(rows, name));
    SortByElements(NotOlder, PromotedVersions(rows, name));
    SortByDistinct(NotOlder, PromotedVersions(rows, name));
  }

  /** The order of the rows does not matter. */
  lemma NewestFirstIgnoresOrder(rows: seq<Item>, other: seq<Item>, t: Table, name: string)
    requires Healthy(t, name) && IsScan(rows, t) && IsScan(other, t)
    ensures PromotedNewestFirst(rows, name) == PromotedNewestFirst(other, name)
  {
    hide Healthy, IsScan, PromotedVersions, PromotedNewestFirst, RecordLe, Servable;
    PromotedMembers(rows, t, name);
    PromotedMembers(other, t, name);
    NewestFirstFacts(rows, t, name);
    NewestFirstFacts(other, t, name);
    SortedUnique(NotOlder, PromotedNewestFirst(rows, name), PromotedNewestFirst(other, name));
  }

  // ---- The bridge serves the newest promoted version ----

  lemma ServedRows(rows: seq<Item>, t: Table, name: string)
    requires Healthy(t, name) && IsScan(rows, t)
    ensures StatusesKnown(Partition(rows, name))
    ensures Filter(Constructible, Filter(IsCandidate, Partition(rows, name))) == PromotedVersions(rows, name)
  {
    hide Constructible, Invokable, SupportedMode, HasLayers, KnownNames, NumericVersion, SemverKey;
    var inPartition := (i: Item) => i.agentName == name;
    var candidate := (i: Item) => i.agentName == name && IsCandidate(i);
    var promoted := (i: Item) => IsPromotedOf(name, i);
    FilterFilter(IsCandidate, inPartition, candidate, rows);
    forall i | i in rows ensures Constructible(i) && candidate(i) <==> promoted(i) {
      if i.agentName == name {
        assert VersionId(name, i.version) in t;
        ServedIffPromoted(i);
      }
    }
    FilterFilter(Constructible, candidate, promoted, rows);
  }

  lemma ServedIffPromoted(i: Item)
    requires i.status.Some? && (i.status == Some("promoted") ==> Servable(i))
    ensures Constructible(i) && IsCandidate(i) <==> i.status == Some("promoted")
  {
    hide StatusOf, Invokable, SupportedMode, NumericVersion;
    if HasLayers(i) && KnownNames(i) { ServableIffPromoted(i); }
  }

  /** What the bridge resolves on a healthy table: the newest promoted version, if any. */
  lemma BridgeServesNewest(rows: seq<Item>, t: Table, name: string)
    requires Healthy(t, name) && IsScan(rows, t)
    ensures var p := PromotedNewestFirst(rows, name);
            Resolved(Partition(rows, name)) == Success(if p == [] then None else Some(p[0]))
  {
    hide Healthy, IsScan, Partition, PromotedVersions, Constructible, IsCandidate, StatusesKnown, FirstConstructible, FirstGreatest, Newest;
    ServedRows(rows, t, name);
    ResolvedIsGreatestConstructible(Partition(rows, name));
    SortHeadIsFirstGreatest(PromotedVersions(rows, name));
    EmptyHasNoGreatest();
  }

  // ---- The script rolls back what the bridge serves ----

  lemma {:induction false} InsertSame(le: (Item, Item) -> bool, ge: (Item, Item) -> bool, x: Item, xs: seq<Item>)
    requires forall y :: y in xs ==> le(x, y) == ge(x, y)
    ensures Insert(le, x, xs) == Insert(ge, x, xs)
  {
    if xs != [] { InsertSame(le, ge, x, xs[1..]); }
  }

  /** Two orders that agree on the elements sort alike. */
  lemma {:induction false} SortSame(le: (Item, Item) -> bool, ge: (Item, Item) -> bool, items: seq<Item>)
    requires forall j, k :: 0 <= j < k < |items| ==> le(items[j], items[k]) == ge(items[j], items[k])
    ensures SortBy(le, items) == SortBy(ge, items)
  {
    hide Insert;
    if items != [] {
      SortSame(le, ge, items[1..]);
      SortByElements(ge, items[1..]);
      forall y | y in SortBy(ge, items[1..]) ensures le(items[0], y) == ge(items[0], y) {
        var k :| 0 <= k < |items[1..]| && items[1..][k] == y;
        assert items[k + 1] == y;
      }
      InsertSame(le, ge, items[0], SortBy(ge, items[1..]));
    }
  }

  ghost predicate DistinctKeys(items: seq<Item>) {
    forall a, b :: a in items && b in items && SemverKey(a.version) == SemverKey(b.version) ==> a == b
  }

  lemma PromotedKeysDistinct(rows: seq<Item>, t: Table, name: string)
    requires Healthy(t, name) && IsScan(rows, t)
    ensures DistinctKeys(PromotedVersions(rows, name))
  {
    hide SemverKey, Servable, Invokable;
    forall a, b | a in PromotedVersions(rows, name) && b in PromotedVersions(rows, name)
                  && SemverKey(a.version) == SemverKey(b.version)
      ensures a == b
    {
      assert SameKey(VersionId(name, a.version), VersionId(name, b.version));
      assert VersionId(name, a.version) == VersionId(name, b.version);
    }
  }

  lemma OrdersOfPair(v: seq<Item>, j: nat, k: nat)
    requires Distinct(v) && DistinctKeys(v) && j < k < |v|
    requires NumericVersion(v[j].version) && NumericVersion(v[k].version)
    ensures IntNotOlder(v[j], v[k]) == NotOlder(v[j], v[k])
  {
    hide NumericVersion, SemverKey, IntNotOlder, NotOlder;
    assert v[j] in v && v[k] in v && v[j] != v[k];
    OrdersAgreeDistinct(v[j], v[k]);
  }

  lemma ServableIsNumeric(i: Item)
    requires Servable(i)
    ensures NumericVersion(i.version)
  {}

  lemma PromotedOrders(rows: seq<Item>, t: Table, name: string)
    requires Healthy(t, name) && IsScan(rows, t)
    ensures var v := PromotedVersions(rows, name);
            && (forall i :: i in v ==> IntKey(i.version).Some?)
            && (forall j, k :: 0 <= j < k < |v| ==> IntNotOlder(v[j], v[k]) == NotOlder(v[j], v[k]))
  {
    hide *;
    PromotedMembers(rows, t, name);
    PromotedKeysDistinct(rows, t, name);
    var v := PromotedVersions(rows, name);
    forall i | i in v ensures NumericVersion(i.version) && IntKey(i.version).Some? {
      ServableIsNumeric(i);
      KeysAgree(i.version);
    }
    forall j, k | 0 <= j < k < |v| ensures IntNotOlder(v[j], v[k]) == NotOlder(v[j], v[k]) {
      OrdersOfPair(v, j, k);
    }
  }

  /** On a healthy table the script's choice is the newest promoted version - what the bridge serves - and
      it declines exactly when fewer than two are promoted. */
  lemma SelectionIsServed(rows: seq<Item>, t: Table, name: string)
    requires Healthy(t, name) && IsScan(rows, t)
    ensures var p := PromotedNewestFirst(rows, name);
            SelectCurrent(rows, name) == if p == [] then Failure(NothingPromoted)
                                         else if |p| < 2 then Failure(NoPreviousVersion)
                                         else Success(p[0].version)
  {
    hide Healthy, IsScan, PromotedVersions, IntKey, IntNotOlder, RecordLe, SortBy;
    PromotedOrders(rows, t, name);
    SortSame(IntNotOlder, NotOlder, PromotedVersions(rows, name));
  }

  /** The script and the bridge read the table separately and get its rows in different orders; still, what
      the script selects is what the bridge serves. */
  lemma ScriptSelectsWhatIsServed(rows: seq<Item>, queried: seq<Item>, t: Table, name: string)
    requires Healthy(t, name) && IsScan(rows, t) && IsScan(queried, t)
    ensures match SelectCurrent(rows, name)
            case Failure(e) => e == NothingPromoted || e == NoPreviousVersion
            case Success(version) =>
              match Resolved(Partition(queried, name))
              case Success(Some(served)) => served.version == version
              case _ => false
  {
    hide *;
    NewestFirstIgnoresOrder(rows, queried, t, name);
    SelectionIsServed(rows, t, name);
    BridgeServesNewest(queried, t, name);
  }

  lemma OrdersAgreeDistinct(a: Item, b: Item)
    requires NumericVersion(a.version) && NumericVersion(b.version) && SemverKey(a.version) != SemverKey(b.version)
    ensures IntNotOlder(a, b) <==> NotOlder(a, b)
  {
    hide NumericVersion, IntKey, SemverKey, LexLe;
    KeysAgree(a.version);
    KeysAgree(b.version);
  }

  // ---- One rollback ----

  function RolledBackTable(t: Table, id: VersionId, sub: string, now: string): Table
    requires id in t
  {
    t[id := UpdatedItem(t[id], RolledBack, sub, now)]
  }

  /** The table after a run of the script that succeeded. */
  ghost predicate RollsBack(t: Table, rows: seq<Item>, name: string, u: Table) {
    && IsScan(rows, t)
    && exists version, sub, now :: RolledBackTo(t, rows, name, version, sub, now, u)
  }

  ghost predicate RolledBackTo(t: Table, rows: seq<Item>, name: string, version: string, sub: string, now: string, u: Table) {
    SelectCurrent(rows, name) == Success(version)
    && UpdateOutcome(t, VersionId(name, version), RolledBack, sub, now) == Success(u)
  }

  /** The script, run on these rows, would succeed. */
  ghost predicate WouldRollBack(t: Table, rows: seq<Item>, name: string, sub: string, now: string) {
    && SelectCurrent(rows, name).Success?
    && UpdateOutcome(t, VersionId(name, SelectCurrent(rows, name).value), RolledBack, sub, now).Success?
  }

  /** On a healthy table the script succeeds exactly when at least two versions are promoted. */
  lemma RollbackSucceedsIff(t: Table, rows: seq<Item>, name: string, sub: string, now: string)
    requires Healthy(t, name) && IsScan(rows, t)
    ensures WouldRollBack(t, rows, name, sub, now) <==> |PromotedNewestFirst(rows, name)| >= 2
  {
    SelectionIsServed(rows, t, name);
    NewestFirstFacts(rows, t, name);
    PromotedMembers(rows, t, name);
    hide PromotedNewestFirst, Servable, SemverKey, UpdateOutcome, SelectCurrent, RecordLe, PromotedVersions, Healthy, IsScan;
    var p := PromotedNewestFirst(rows, name);
    if |p| >= 2 {
      assert p[0] in p;
      PromotedUpdates(t, VersionId(name, p[0].version), sub, now);
    }
  }

  lemma PromotedUpdates(t: Table, id: VersionId, sub: string, now: string)
    requires id in t && t[id].status == Some("promoted")
    ensures UpdateOutcome(t, id, RolledBack, sub, now) == Success(RolledBackTable(t, id, sub, now))
  {
    hide StoredStatus, UpdatedItem;
    assert StatusText(Promoted) == "promoted";
    StoredStatusOf(t[id], Promoted);
  }

  lemma RolledBackIsKnown(i: Item, sub: string, now: string)
    ensures var u := UpdatedItem(i, RolledBack, sub, now);
            && u.agentName == i.agentName && u.version == i.version && u.status.Some? && u.status != Some("promoted")
            && Invokable(u).Some?
  {
    hide NormalizeStatus, Strip;
    StatusTextRoundTrip(RolledBack);
    assert StatusText(RolledBack)[0] == 'r' && "promoted"[0] == 'p';
  }

  lemma StaysHealthy(t: Table, id: VersionId, name: string, sub: string, now: string)
    requires Healthy(t, name) && id in t && id.agent == name
    ensures Healthy(RolledBackTable(t, id, sub, now), name)
  {
    hide Servable, SemverKey, UpdatedItem, Invokable;
    RolledBackIsKnown(t[id], sub, now);
  }

  /** One rollback takes exactly the newest promoted version out of service: the promoted versions that
      are left are the others, in the same order, whichever orders the two scans come in. */
  lemma RollbackDropsNewest(t: Table, rows: seq<Item>, name: string, u: Table, after: seq<Item>)
    requires Healthy(t, name) && RollsBack(t, rows, name, u) && IsScan(after, u)
    ensures Healthy(u, name)
    ensures var p := PromotedNewestFirst(rows, name);
            |p| >= 2 && PromotedNewestFirst(after, name) == p[1..]
  {
    hide PromotedNewestFirst, Servable, SemverKey, UpdatedItem, Invokable, UpdateOutcome, SelectCurrent, RecordLe, PromotedVersions;
    var p, q := PromotedNewestFirst(rows, name), PromotedNewestFirst(after, name);
    var version, sub, now :| RolledBackTo(t, rows, name, version, sub, now, u);
    SelectionIsServed(rows, t, name);
    PromotedMembers(rows, t, name);
    NewestFirstFacts(rows, t, name);
    assert p[0] in p && version == p[0].version;
    var id := VersionId(name, version);
    PromotedUpdates(t, id, sub, now);
    assert u == RolledBackTable(t, id, sub, now);
    StaysHealthy(t, id, name, sub, now);
    RolledBackIsKnown(t[id], sub, now);
    PromotedMembers(after, u, name);
    NewestFirstFacts(after, u, name);
    hide Healthy, IsScan;
    forall i ensures i in q <==> i in p[1..] {
      assert i in p[1..] <==> i in p && i != p[0];
      assert i in q <==> VersionId(name, i.version) in u && u[VersionId(name, i.version)] == i && i.status == Some("promoted");
    }
    assert Sorted(NotOlder, p[1..]) && Distinct(p[1..]);
    SortedUnique(NotOlder, q, p[1..]);
  }

  // ---- Runs of rollbacks ----

  /** A run of successful rollbacks with no other writes; `scans[k]` is what the k-th table's rows were
      fetched as. */
  ghost predicate RollbackRun(tables: seq<Table>, scans: seq<seq<Item>>, name: string) {
    && |tables| == |scans| && tables != [] && Healthy(tables[0], name)
    && (forall k :: 0 <= k < |tables| ==> IsScan(scans[k], tables[k]))
    && (forall k :: 0 <= k < |tables| - 1 ==> RollsBack(tables[k], scans[k], name, tables[k + 1]))
  }

  /** After k successful rollbacks the bridge serves the k-th newest of the versions that were promoted at
      the start; it steps down by one each time, and one promoted version always remains. */
  lemma {:induction false} RollbacksStepDown(tables: seq<Table>, scans: seq<seq<Item>>, name: string, k: nat)
    requires RollbackRun(tables, scans, name) && k < |tables|
    ensures var p := PromotedNewestFirst(scans[0], name);
            && Healthy(tables[k], name) && k <= |p|
            && PromotedNewestFirst(scans[k], name) == p[k..]
            && (k > 0 ==> k < |p|)
            && Resolved(Partition(scans[k], name)) == Success(if k < |p| then Some(p[k]) else None)
  {
    hide Healthy, IsScan, PromotedNewestFirst, Resolved, Partition, RollsBack;
    var p := PromotedNewestFirst(scans[0], name);
    if k > 0 {
      RollbacksStepDown(tables, scans, name, k - 1);
      RollbackDropsNewest(tables[k - 1], scans[k - 1], name, tables[k], scans[k]);
      assert p[k - 1..][1..] == p[k..];
    } else {
      assert p[0..] == p;
    }
    BridgeServesNewest(scans[k], tables[k], name);
  }

  /** The version served strictly decreases along a run of rollbacks. */
  lemma ServedVersionDecreases(tables: seq<Table>, scans: seq<seq<Item>>, name: string, j: nat, k: nat)
    requires RollbackRun(tables, scans, name) && j < k < |tables|
    ensures var a, b := Resolved(Partition(scans[j], name)), Resolved(Partition(scans[k], name));
            && a.Success? && a.value.Some? && b.Success? && b.value.Some?
            && LexLt(SemverKey(b.value.value.version), SemverKey(a.value.value.version))
  {
    hide Healthy, IsScan, PromotedNewestFirst, Resolved, Partition, RollsBack, SemverKey, LexLe;
    RollbacksStepDown(tables, scans, name, j);
    RollbacksStepDown(tables, scans, name, k);
    RollbacksStepDown(tables, scans, name, 0);
    var p := PromotedNewestFirst(scans[0], name);
    NewestFirstFacts(scans[0], tables[0], name);
    PromotedKeysDistinct(scans[0], tables[0], name);
    assert p[j] in p && p[k] in p && NotOlder(p[j], p[k]) && p[j] != p[k];
    var x, y := SemverKey(p[j].version), SemverKey(p[k].version);
    assert x != y && LexLe(y, x);
    if LexLe(x, y) { LexAntisymmetric(x, y); }
  }

  // ---- On the tables that the registry produces ----

  /** What releasing must take care of, and registration does not check: promoted versions are numeric, have
      a runtime or a layer, a known tier and transport, and no two of them have equal version numbers. */
  ghost predicate WellReleased(t: Table, name: string) {
    && (forall id :: PromotedAt(t, name, id) ==> NumericVersion(id.version) && IsComplete(t[id]))
    && (forall a, b :: PromotedAt(t, name, a) && PromotedAt(t, name, b) && SameKey(a, b) ==> a == b)
  }

  predicate IsComplete(i: Item) {
    && (i.runtimeArn != "" || i.layerHash != "")
    && (i.tier == "basic" || i.tier == "standard" || i.tier == "premium")
    && (i.transport == "sse" || i.transport == "websocket")
  }

  lemma NothingIsWellKeyed()
    ensures WellKeyed(Registry.Run([]))
  {}

  lemma {:induction false} RunIsWellKeyed(ops: seq<Op>)
    ensures WellKeyed(Registry.Run(ops))
  {
    hide *;
    if ops == [] {
      NothingIsWellKeyed();
    } else {
      var init, op := ops[..|ops| - 1], ops[|ops| - 1];
      assert ops == init + [op];
      RunIsWellKeyed(init);
      RunStep(init, op, op.id);
      StepIsWellKeyed(Registry.Run(init), op);
    }
  }

  lemma StepIsWellKeyed(t: Table, op: Op)
    requires WellKeyed(t)
    ensures WellKeyed(Apply(t, op))
  {
    hide Strip, Lower, StatusText, StoredStatus, ValidTransition, InitialStatus, SupportedMode, LayersComplete, EndpointComplete;
  }

  lemma CheckedIsKnown(i: Item)
    requires Checked(i)
    ensures i.status.Some? && Invokable(i).Some? && SupportedMode(i)
    ensures i.status == Some("promoted") ==> (HasLayers(i) && KnownNames(i) <==> IsComplete(i))
  {
    hide Strip, StatusText, StatusOf, NormalizeStatus, HasLayers, KnownNames, SupportedMode, LayersComplete;
    var s :| i.status == Some(StatusText(s));
    CheckedIsConstructibleIff(i);
    StatusTextRoundTrip(s);
    ModeIsSupported(i);
  }

  lemma ModeIsSupported(i: Item)
    requires i.mode == "sync" || i.mode == "streaming"
    ensures SupportedMode(i)
  {
    hide Strip, Lower;
    WordIsNormal(i.mode);
  }

  /** Which of the tables that registration and status changes can lead to are healthy, in every run: exactly
      the well released ones. */
  lemma HealthyIff(ops: seq<Op>, name: string)
    ensures Healthy(Registry.Run(ops), name) <==> WellReleased(Registry.Run(ops), name)
  {
    var t := Registry.Run(ops);
    RunIsWellKeyed(ops);
    hide Registry.Run, Checked, Invokable, SupportedMode, HasLayers, KnownNames, IsComplete, NumericVersion, SemverKey;
    forall id | id in t
      ensures t[id].status.Some? && Invokable(t[id]).Some?
      ensures t[id].status == Some("promoted") ==> (Servable(t[id]) <==> NumericVersion(id.version) && IsComplete(t[id]))
    {
      StoredIsChecked(ops, id);
      CheckedIsKnown(t[id]);
    }
  }

  predicate IsRollbackOf(op: Op, name: string) {
    op.Update? && op.target == RolledBack && op.id.agent == name
  }

  lemma RollbackIsAStep(ops: seq<Op>, rows: seq<Item>, name: string, u: Table) returns (op: Op)
    requires RollsBack(Registry.Run(ops), rows, name, u)
    ensures IsRollbackOf(op, name) && Registry.Run(ops + [op]) == u
  {
    hide Registry.Run, IsScan, SelectCurrent, UpdateOutcome;
    var t := Registry.Run(ops);
    var version, sub, now :| RolledBackTo(t, rows, name, version, sub, now, u);
    op := Update(VersionId(name, version), RolledBack, sub, now);
    RunStep(ops, op, op.id);
  }

  /** Successful rollbacks from a table that the registry produced: every table on the way is one that the
      registry produces too, by as many rollback steps. */
  lemma {:induction false} RollbacksAreRegistrySteps(ops: seq<Op>, tables: seq<Table>, scans: seq<seq<Item>>, name: string,
                                                     k: nat)
      returns (more: seq<Op>)
    requires |tables| == |scans| && tables != [] && tables[0] == Registry.Run(ops) && k < |tables|
    requires forall j :: 0 <= j < |tables| - 1 ==> RollsBack(tables[j], scans[j], name, tables[j + 1])
    ensures |more| == k && forall op :: op in more ==> IsRollbackOf(op, name)
    ensures tables[k] == Registry.Run(ops + more)
  {
    hide *;
    if k == 0 {
      more := [];
      assert ops + [] == ops;
    } else {
      var before := RollbacksAreRegistrySteps(ops, tables, scans, name, k - 1);
      var op := RollbackIsAStep(ops + before, scans[k - 1], name, tables[k]);
      more := before + [op];
      assert ops + more == (ops + before) + [op];
    }
  }

  /** So on whatever the registry was asked to do, if what is promoted is well released: k successful rollbacks
      later the bridge serves the k-th newest of the versions promoted at the start, and one is left. */
  lemma ReleasedRollbacksStepDown(ops: seq<Op>, tables: seq<Table>, scans: seq<seq<Item>>, name: string, k: nat)
    requires |tables| == |scans| && tables != [] && tables[0] == Registry.Run(ops) && k < |tables|
    requires WellReleased(tables[0], name)
    requires forall j :: 0 <= j < |tables| ==> IsScan(scans[j], tables[j])
    requires forall j :: 0 <= j < |tables| - 1 ==> RollsBack(tables[j], scans[j], name, tables[j + 1])
    ensures var p := PromotedNewestFirst(scans[0], name);
            && WellReleased(tables[k], name) && k <= |p| && (k > 0 ==> k < |p|)
            && PromotedNewestFirst(scans[k], name) == p[k..]
            && Resolved(Partition(scans[k], name)) == Success(if k < |p| then Some(p[k]) else None)
  {
    hide Healthy, WellReleased, IsScan, PromotedNewestFirst, Resolved, Partition, RollsBack, Registry.Run;
    HealthyIff(ops, name);
    RollbacksStepDown(tables, scans, name, k);
    var more := RollbacksAreRegistrySteps(ops, tables, scans, name, k);
    HealthyIff(ops + more, name);
  }

  // ---- Where bridge and script part ----

  /** In general, withdrawing a version changes what the bridge serves exactly when the bridge was serving
      that version; the order of the rows and the other versions may be anything. */
  lemma RollbackTakesEffectIff(items: seq<Item>, k: nat, sub: string, now: string)
    requires Distinct(items) && k < |items|
    ensures FirstConstructible(Newest(items[k := UpdatedItem(items[k], RolledBack, sub, now)])) != FirstConstructible(Newest(items))
       <==> FirstConstructible(Newest(items)) == Some(items[k])
  {
    hide *;
    var a, b := items[..k], items[k + 1..];
    var p, q := Filter(IsServable, a), Filter(IsServable, b);
    OthersDiffer(items, k);
    ServedWithAndWithout(items, k, sub, now);
    GreatestIsMember(p + q);
    if IsServable(items[k]) && FirstGreatest(p + [items[k]] + q) != Some(items[k]) {
      GreatestWithout(p, items[k], q);
    }
  }

  /** What the bridge serves before and after version `k` is withdrawn, from the servable rest. */
  lemma ServedWithAndWithout(items: seq<Item>, k: nat, sub: string, now: string)
    requires k < |items|
    ensures var p, q := Filter(IsServable, items[..k]), Filter(IsServable, items[k + 1..]);
            && FirstConstructible(Newest(items)) == FirstGreatest(if IsServable(items[k]) then p + [items[k]] + q else p + q)
            && FirstConstructible(Newest(items[k := UpdatedItem(items[k], RolledBack, sub, now)])) == FirstGreatest(p + q)
  {
    hide *;
    var a, b := items[..k], items[k + 1..];
    var p, q := Filter(IsServable, a), Filter(IsServable, b);
    var rolled := UpdatedItem(items[k], RolledBack, sub, now);
    var changed := items[k := rolled];
    ResolvedIsGreatestConstructible(items);
    ResolvedIsGreatestConstructible(changed);
    RolledBackIsNoCandidate(items[k], sub, now);
    ServedOf(items);
    ServedOf(changed);
    assert items == a + [items[k]] + b && changed == a + [rolled] + b;
    FilterParts(IsServable, a, items[k], b);
    FilterParts(IsServable, a, rolled, b);
    assert p + [] + q == p + q;
  }

  lemma GreatestIsMember(items: seq<Item>)
    ensures FirstGreatest(items).Some? ==> FirstGreatest(items).value in items
  {}

  lemma OthersDiffer(items: seq<Item>, k: nat)
    requires Distinct(items) && k < |items|
    ensures items[k] !in items[..k] && items[k] !in items[k + 1..]
  {}

  predicate IsServable(i: Item) {
    IsCandidate(i) && Constructible(i)
  }

  lemma ServedOf(items: seq<Item>)
    ensures Filter(Constructible, Filter(IsCandidate, items)) == Filter(IsServable, items)
  {
    hide Constructible, IsCandidate;
    FilterFilter(Constructible, IsCandidate, IsServable, items);
  }

  lemma RolledBackIsNoCandidate(i: Item, sub: string, now: string)
    ensures !IsServable(UpdatedItem(i, RolledBack, sub, now))
  {
    hide NormalizeStatus, Constructible, SupportedMode, StatusText, StatusOf, Strip;
    assert UpdatedItem(i, RolledBack, sub, now).status == Some(StatusText(RolledBack));
    StatusTextRoundTrip(RolledBack);
  }

  lemma FilterParts(p: Item -> bool, a: seq<Item>, x: Item, b: seq<Item>)
    ensures Filter(p, a + [x] + b) == Filter(p, a) + (if p(x) then [x] else []) + Filter(p, b)
  {
    hide Filter;
    FilterAppend(p, a, x);
    FilterConcat(p, a + [x], b);
  }

  /** Leaving out an element that is not the first of the greatest does not change which one is. */
  lemma {:induction false} GreatestWithout(a: seq<Item>, x: Item, b: seq<Item>)
    requires FirstGreatest(a + [x] + b) != Some(x)
    ensures FirstGreatest(a + b) == FirstGreatest(a + [x] + b)
  {
    hide RecordLe;
    if a == [] {
      assert ([] + [x] + b)[1..] == b && [] + b == b;
    } else {
      assert (a + [x] + b)[1..] == a[1..] + [x] + b && (a + b)[1..] == a[1..] + b;
      if FirstGreatest(a[1..] + [x] + b) == Some(x) {
        GreatestIsGreatest(a[1..] + [x] + b);
        if FirstGreatest(a[1..] + b).Some? {
          var m := FirstGreatest(a[1..] + b).value;
          assert m in a[1..] + [x] + b;
          RecordLeLaws(m, x, a[0]);
        }
      } else {
        GreatestWithout(a[1..], x, b);
      }
    }
  }

  /** A record that keeps a legacy status is never withdrawn, and never served either: the script does not
      see it, and the bridge cannot build it, although the listing counts it. */
  lemma LegacyPromotedIsListedOnly(i: Item, name: string)
    requires i.status == Some("released") && SupportedMode(i)
    ensures IsCandidate(i) && !IsPromotedOf(name, i) && !Constructible(i)
  {
    hide Strip, Lower, SupportedMode, HasLayers, KnownNames, StatusOf;
    WordIsNormal("released");
    ReleasedIsNoStatus();
    assert "promoted"[0] == 'p';
  }

  /** When the latest version that the listing shows has the status "released", the detail shows it too,
      but the bridge does not serve it, and the script cannot roll it back. */
  lemma ReleasedLatestIsNotServed(latest: map<string, Item>, all: seq<Item>, name: string)
    requires name != "" && StatusesKnown(all) && IsListing(latest, all)
    requires name in latest && latest[name].status == Some("released") && SupportedMode(latest[name])
    ensures DetailLatest(RowsOf(all, name)) == Success(Some(latest[name]))
    ensures Resolved(RowsOf(all, name)) != Success(Some(latest[name]))
    ensures latest[name] !in PromotedVersions(all, name)
  {
    hide *;
    LatestAgree(latest, all, name);
    LegacyPromotedIsListedOnly(latest[name], name);
    PromotedVersionsArePromoted(all, name);
  }

  lemma PromotedVersionsArePromoted(all: seq<Item>, name: string)
    ensures forall i :: i in PromotedVersions(all, name) ==> IsPromotedOf(name, i)
  {}

  /** A released version newer than every other candidate of its agent is such a latest version. */
  lemma NewestReleasedIsListed(latest: map<string, Item>, all: seq<Item>, i: Item, name: string)
    requires name != "" && IsListing(latest, all) && i in all && HasName(name, i)
    requires i.status == Some("released") && SupportedMode(i)
    requires forall o :: o in all && HasName(name, o) && IsCandidate(o) && o != i ==> !RecordLe(i, o)
    ensures name in latest && latest[name] == i
  {
    hide *;
    LegacyPromotedIsListedOnly(i, name);
    ListedIsGreatest(latest, all, name);
    GreatestIsNewest(RowsOf(all, name), i) by {
      RowsOfMembers(all, name);
    }
  }

  lemma RowsOfMembers(all: seq<Item>, name: string)
    ensures forall o :: o in RowsOf(all, name) <==> o in all && HasName(name, o)
  {
    hide HasName;
  }

  lemma GreatestIsNewest(rows: seq<Item>, i: Item)
    requires i in rows && IsCandidate(i)
    requires forall o :: o in rows && IsCandidate(o) && o != i ==> !RecordLe(i, o)
    ensures FirstGreatest(Filter(IsCandidate, rows)) == Some(i)
  {
    hide IsCandidate, RecordLe, FirstGreatest;
    GreatestIsGreatest(Filter(IsCandidate, rows));
  }

  lemma ReleasedIsNoStatus()
    ensures StatusOf("released") == None && "released" != "pending" && "released" != "" && "released"[0] == 'r'
  {
    assert "released"[1] == 'e' && "rolled_back"[1] == 'o';
  }
}

/** Any number of clients claim one issue (`claim_issue` of scripts/issue_tool/worktree.py), their requests
    interleaved in any way: which of them succeed. */
module Claims {
  import opened Prelude
  import opened Issues

  /** How far one client's claim has come; both later requests use the labels it read first. */
  datatype Stage = Start | ToUpdate(read: seq<string>) | ToVerify(read: seq<string>) | Answered(answer: Option<bool>)

  /** The client's next request: the tracker's labels, and the client, after it. */
  function Request(labels: seq<string>, stage: Stage): (seq<string>, Stage) {
    match stage
    case Start => (labels, if Claimable(labels) then ToUpdate(labels) else Answered(None))
    case ToUpdate(read) => (Relabelled(labels, ClaimChange(read)), ToVerify(read))
    case ToVerify(read) => (labels, Answered(if ClaimVerified(labels) then Some(READY in read) else None))
    case Answered(_) => (labels, stage)
  }

  /** Three requests with others at work between them are what `ClaimOutcome` describes. */
  lemma RequestsMakeAClaim(labels: seq<string>, before: Interference, after: Interference)
    requires Claimable(labels)
    ensures var (l1, s1) := Request(labels, Start);
            var (l2, s2) := Request(before(l1), s1);
            var (l3, s3) := Request(after(l2), s2);
            (l3, s3) == (ClaimOutcome(labels, before, after).0, Answered(ClaimOutcome(labels, before, after).1))
  {}

  datatype Race = Race(labels: seq<string>, stages: seq<Stage>)

  /** `n` clients claim the issue, and nobody else is at work; `turns` says whose request comes next. */
  function RaceAfter(labels: seq<string>, n: nat, turns: seq<nat>): (race: Race)
    ensures |race.stages| == n
  {
    if turns == [] then Race(labels, seq(n, _ => Start))
    else
      var race, c := RaceAfter(labels, n, turns[..|turns| - 1]), turns[|turns| - 1];
      if c >= n then race
      else
        var (next, stage) := Request(race.labels, race.stages[c]);
        Race(next, race.stages[c := stage])
  }

  /** Client `k` read the labels before any client updated them: until its first turn, all turns were
      first turns. */
  ghost predicate ReadsEarly(turns: seq<nat>, k: nat) {
    exists t :: 0 <= t < |turns| && turns[t] == k && Distinct(turns[..t + 1])
  }

  function TurnsOf(turns: seq<nat>, k: nat): nat {
    multiset(turns)[k]
  }

  /** Where client `k` stands. */
  ghost function StageOf(labels: seq<string>, turns: seq<nat>, k: nat): Stage {
    var m := TurnsOf(turns, k);
    if m == 0 then Start
    else if !Claimable(labels) || !ReadsEarly(turns, k) then Answered(None)
    else if m == 1 then ToUpdate(labels)
    else if m == 2 then ToVerify(labels)
    else Answered(Some(READY in labels))
  }

  ghost predicate Explained(labels: seq<string>, n: nat, turns: seq<nat>, race: Race) {
    && |race.stages| == n
    && (if Claimable(labels) && !Distinct(turns) then ClaimVerified(race.labels) else race.labels == labels)
    && forall k :: 0 <= k < n ==> race.stages[k] == StageOf(labels, turns, k)
  }

  lemma VerifiedIsNotClaimable(labels: seq<string>)
    requires ClaimVerified(labels)
    ensures !Claimable(labels)
  {
    assert IsStatusLabel(IN_PROGRESS);
  }

  /** An update after the first finds the issue claimed, and leaves it so. */
  lemma UpdateVerifies(labels: seq<string>, now: seq<string>)
    requires Claimable(labels) && (now == labels || ClaimVerified(now))
    ensures ClaimVerified(Relabelled(now, ClaimChange(labels)))
  {
    assert IsStatusLabel(IN_PROGRESS);
  }

  lemma TurnAdded(turns: seq<nat>, c: nat, k: nat)
    ensures TurnsOf(turns + [c], k) == TurnsOf(turns, k) + if c == k then 1 else 0
    ensures TurnsOf(turns, k) > 0 <==> k in turns
  {}

  lemma DistinctAdded(turns: seq<nat>, c: nat)
    ensures Distinct(turns + [c]) <==> Distinct(turns) && c !in turns
  {
    var more := turns + [c];
    assert forall i :: 0 <= i < |turns| ==> more[i] == turns[i];
    if Distinct(more) {
      assert forall i, j :: 0 <= i < j < |turns| ==> more[i] != more[j];
      forall i | 0 <= i < |turns| ensures turns[i] != c {
        assert more[i] != more[|turns|];
      }
    }
  }

  lemma SamePrefix(turns: seq<nat>, c: nat, t: nat)
    requires t < |turns|
    ensures (turns + [c])[..t + 1] == turns[..t + 1]
  {}

  lemma EarlyAdded(turns: seq<nat>, c: nat, k: nat)
    ensures ReadsEarly(turns + [c], k) <==> ReadsEarly(turns, k) || (c == k && k !in turns && Distinct(turns))
  {
    var more := turns + [c];
    DistinctAdded(turns, c);
    assert more[..|turns| + 1] == more;
    if ReadsEarly(more, k) {
      var t :| 0 <= t < |more| && more[t] == k && Distinct(more[..t + 1]);
      if t < |turns| {
        SamePrefix(turns, c, t);
        assert turns[t] == k && Distinct(turns[..t + 1]);
      }
    }
    if ReadsEarly(turns, k) {
      var t :| 0 <= t < |turns| && turns[t] == k && Distinct(turns[..t + 1]);
      SamePrefix(turns, c, t);
      assert more[t] == k && Distinct(more[..t + 1]);
    }
    if c == k && k !in turns && Distinct(turns) {
      assert more[|turns|] == k && Distinct(more[..|turns| + 1]);
    }
  }

  /** While nobody has taken a second turn, everybody who took one read early; and never twice. */
  lemma DistinctTurns(turns: seq<nat>, k: nat)
    ensures Distinct(turns) && k in turns ==> ReadsEarly(turns, k) && TurnsOf(turns, k) == 1
    ensures TurnsOf(turns, k) >= 2 ==> !Distinct(turns)
    ensures ReadsEarly(turns, k) ==> k in turns
  {
    if k in turns {
      var t :| 0 <= t < |turns| && turns[t] == k;
      if Distinct(turns) {
        assert Distinct(turns[..t + 1]);
        OneOccurrence(turns, t);
      }
    }
  }

  lemma OneOccurrence(turns: seq<nat>, t: nat)
    requires Distinct(turns) && t < |turns|
    ensures TurnsOf(turns, turns[t]) == 1
  {
    var a, b := turns[..t], turns[t + 1..];
    assert turns == a + [turns[t]] + b;
    assert turns[t] !in a && turns[t] !in b;
    assert multiset(turns) == multiset(a) + multiset{turns[t]} + multiset(b);
  }

  /** One more request of a client that is in the race. */
  lemma RaceStep(labels: seq<string>, n: nat, turns: seq<nat>, race: Race, c: nat)
    requires c < n && Explained(labels, n, turns, race)
    ensures var (next, stage) := Request(race.labels, race.stages[c]);
            Explained(labels, n, turns + [c], Race(next, race.stages[c := stage]))
  {
    hide Claimable, ClaimVerified, Relabelled, ClaimChange, ReadsEarly, TurnsOf, Distinct;
    DistinctAdded(turns, c);
    DistinctTurns(turns, c);
    if ClaimVerified(race.labels) { VerifiedIsNotClaimable(race.labels); }
    if Claimable(labels) && (race.labels == labels || ClaimVerified(race.labels)) { UpdateVerifies(labels, race.labels); }
    TurnAdded(turns, c, c);
    EarlyAdded(turns, c, c);
    forall k | 0 <= k < n && k != c ensures StageOf(labels, turns + [c], k) == StageOf(labels, turns, k) {
      TurnAdded(turns, c, k);
      EarlyAdded(turns, c, k);
    }
  }

  lemma {:induction false} RaceIsExplained(labels: seq<string>, n: nat, turns: seq<nat>)
    requires forall t :: 0 <= t < |turns| ==> turns[t] < n
    ensures Explained(labels, n, turns, RaceAfter(labels, n, turns))
  {
    if turns != [] {
      var init, c := turns[..|turns| - 1], turns[|turns| - 1];
      assert turns == init + [c];
      RaceIsExplained(labels, n, init);
      hide Explained, Request;
      RaceStep(labels, n, init, RaceAfter(labels, n, init), c);
    }
  }

  /** Which claims succeed, for any number of clients in any interleaving of their requests: of the clients
      that came to an end, exactly those that read the labels before anybody updated them - all of them, if
      the issue was claimable, and none otherwise. */
  lemma ClaimSucceedsIff(labels: seq<string>, n: nat, turns: seq<nat>, k: nat)
    requires k < n && TurnsOf(turns, k) >= 3 && forall t :: 0 <= t < |turns| ==> turns[t] < n
    ensures RaceAfter(labels, n, turns).stages[k]
         == Answered(if Claimable(labels) && ReadsEarly(turns, k) then Some(READY in labels) else None)
  {
    RaceIsExplained(labels, n, turns);
  }

  /** So two claims both succeed exactly when the issue is claimable and both reads precede both updates,
      that is, when the first two requests are one of each. */
  lemma BothClaimsSucceedIff(labels: seq<string>, turns: seq<nat>)
    requires (forall t :: 0 <= t < |turns| ==> turns[t] < 2) && TurnsOf(turns, 0) >= 3 && TurnsOf(turns, 1) >= 3
    ensures |turns| >= 2
    ensures (forall k :: 0 <= k < 2 ==> RaceAfter(labels, 2, turns).stages[k] == Answered(Some(READY in labels)))
       <==> Claimable(labels) && turns[0] != turns[1]
  {
    hide RaceAfter, Claimable;
    assert |turns| >= 3 by { CountWithin(turns, 0); }
    ClaimSucceedsIff(labels, 2, turns, 0);
    ClaimSucceedsIff(labels, 2, turns, 1);
    forall k | 0 <= k < 2 ensures ReadsEarly(turns, k) <==> turns[0] == k || turns[0] != turns[1] {
      EarlyOfTwo(turns, k);
    }
  }

  lemma CountWithin(turns: seq<nat>, k: nat)
    ensures TurnsOf(turns, k) <= |turns|
  {
    assert multiset(turns)[k] <= |multiset(turns)|;
  }

  lemma DistinctStart(turns: seq<nat>, t: nat)
    requires 1 <= t < |turns| && Distinct(turns[..t + 1])
    ensures turns[0] != turns[1]
  {
    var prefix := turns[..t + 1];
    assert prefix[0] == turns[0] && prefix[1] == turns[1];
  }

  lemma EarlyOfTwo(turns: seq<nat>, k: nat)
    requires |turns| >= 2 && k < 2 && forall t :: 0 <= t < |turns| ==> turns[t] < 2
    ensures ReadsEarly(turns, k) <==> turns[0] == k || turns[0] != turns[1]
  {
    assert Distinct(turns[..1]);
    if turns[0] != turns[1] {
      assert Distinct(turns[..2]);
      assert turns[0] == k || turns[1] == k;
    }
    if ReadsEarly(turns, k) && turns[0] != k {
      var t :| 0 <= t < |turns| && turns[t] == k && Distinct(turns[..t + 1]);
      DistinctStart(turns, t);
    }
  }
}

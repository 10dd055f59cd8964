/** The iterative node lookup: three rounds of queries, each to the ALPHA nearest nodes not asked before. */
module Lookup {
  import opened NodeId
  import opened Nearest
  import opened RoutingTable

  const ALPHA: nat := 3
  const ROUNDS: nat := 3

  /** The nodes worth asking: not ourselves and not marked Bad. */
  function Usable(me: Id, s: seq<Entry>): (r: seq<Entry>)
    ensures forall e :: e in r <==> e in s && e.id != me && !e.status.Bad?
  {
    if s == [] then []
    else
      var n := |s| - 1;
      assert s == s[..n] + [s[n]];
      Usable(me, s[..n]) + (if s[n].id != me && !s[n].status.Bad? then [s[n]] else [])
  }

  lemma {:induction false} UsableSorted(me: Id, s: seq<Entry>, target: Id)
    requires SortedBy(s, target)
    ensures SortedBy(Usable(me, s), target) && |Usable(me, s)| <= |s|
  {
    hide Dist;
    if s != [] {
      var n := |s| - 1;
      UsableSorted(me, s[..n], target);
      var r := Usable(me, s[..n]);
      forall k | 0 <= k < |r| ensures Dist(r[k].id, target) < Dist(s[n].id, target) {
        assert r[k] in s[..n];
      }
    }
  }

  /** What a round keeps of the reported nodes: not ourselves and not a node already picked for a query. */
  function Discovered(me: Id, queried: set<Id>, reported: seq<Entry>): (r: seq<Entry>)
    ensures forall e :: e in r <==> e in reported && e.id != me && e.id !in queried
  {
    if reported == [] then []
    else
      var n := |reported| - 1;
      assert reported == reported[..n] + [reported[n]];
      var e := reported[n];
      Discovered(me, queried, reported[..n]) + (if e.id != me && e.id !in queried then [e] else [])
  }

  /** Everything reported in the first n rounds, without our own identifier. */
  ghost function Reported(me: Id, replies: seq<seq<Entry>>, n: nat): set<Id>
    requires n <= |replies|
  {
    if n == 0 then {} else Reported(me, replies, n - 1) + (Ids(replies[n - 1]) - {me})
  }

  predicate DistinctList(s: seq<Id>) {
    forall i, j :: 0 <= i < j < |s| ==> s[i] != s[j]
  }

  function IdList(s: seq<Entry>): (r: seq<Id>)
    ensures |r| == |s| && forall i :: 0 <= i < |s| ==> r[i] == s[i].id
  {
    seq(|s|, i requires 0 <= i < |s| => s[i].id)
  }

  /** The nodes to ask next are distinct, at most ALPHA, marked as picked, and none was asked before. */
  ghost predicate PlanOk(toQuery: seq<Entry>, queried: set<Id>, asked: seq<Id>) {
    && DistinctIds(toQuery) && |toQuery| <= ALPHA
    && DistinctList(asked)
    && (forall e :: e in toQuery ==> e.id in queried && e.id !in asked)
    && (forall x :: x in asked ==> x in queried)
  }

  lemma AskedOnce(toQuery: seq<Entry>, queried: set<Id>, asked: seq<Id>)
    requires PlanOk(toQuery, queried, asked)
    ensures DistinctList(asked + IdList(toQuery))
    ensures forall x :: x in asked + IdList(toQuery) ==> x in queried
    ensures |asked + IdList(toQuery)| <= |asked| + ALPHA
  {
  }

  /** One round's bookkeeping: merge what was discovered into the result and choose whom to ask next. */
  method Absorb(discovered: seq<Entry>, result: seq<Entry>, queried: set<Id>)
    returns (merged: seq<Entry>, next: seq<Entry>, picked: set<Id>)
    requires DistinctIds(result)
    requires forall e :: e in discovered ==> e.id !in queried
    ensures DistinctIds(merged) && Ids(merged) == Ids(result) + Ids(discovered) && result <= merged
    ensures DistinctIds(next) && Ids(next) == Ids(discovered)
    ensures picked == queried + Ids(discovered)
    ensures forall e :: e in merged ==> e in result || e in discovered
    ensures forall e :: e in next ==> e in discovered
  {
    merged, next, picked := result, [], queried;
    for n := 0 to |discovered|
      invariant DistinctIds(merged) && Ids(merged) == Ids(result) + Ids(discovered[..n]) && result <= merged
      invariant DistinctIds(next) && Ids(next) == Ids(discovered[..n])
      invariant picked == queried + Ids(discovered[..n])
      invariant forall e :: e in merged ==> e in result || e in discovered
      invariant forall e :: e in next ==> e in discovered
    {
      var node := discovered[n];
      assert node in discovered;
      assert discovered[..n + 1] == discovered[..n] + [node];
      IdsOfOneMore(discovered[..n], node);
      if node.id !in Ids(merged) {
        OneMoreDistinct(merged, node);
        IdsOfOneMore(merged, node);
        merged := merged + [node];
      }
      if node.id !in picked {
        OneMoreDistinct(next, node);
        IdsOfOneMore(next, node);
        next, picked := next + [node], picked + {node.id};
      }
    }
    assert discovered[..|discovered|] == discovered;
  }

  lemma OneMoreDistinct(s: seq<Entry>, e: Entry)
    requires DistinctIds(s) && e.id !in Ids(s)
    ensures DistinctIds(s + [e])
  {
  }

  /** The state between rounds: the result is right for everything seen so far. */
  ghost predicate RoundOk(result: seq<Entry>, pool: set<Id>, queried: set<Id>, target: Id, count: nat) {
    AreNearest(result, pool, target, count) && queried <= pool
  }

  lemma DistinctIfSorted(s: seq<Entry>, target: Id)
    requires SortedBy(s, target)
    ensures DistinctIds(s)
  {
  }

  lemma NearestDistinct(s: seq<Entry>, pool: set<Id>, target: Id, k: nat)
    requires AreNearest(s, pool, target, k)
    ensures DistinctIds(s)
  {
  }

  /** The identifiers a round reports for the first time: not ours and not picked before. */
  ghost function NewIds(me: Id, queried: set<Id>, reported: seq<Entry>): set<Id> {
    Ids(reported) - {me} - queried
  }

  /** One round after the replies are in. */
  method Round(me: Id, target: Id, count: nat, reported: seq<Entry>, result: seq<Entry>, queried: set<Id>,
               ghost pool: set<Id>, ghost asked: seq<Id>)
    returns (result': seq<Entry>, next: seq<Entry>, picked: set<Id>)
    requires RoundOk(result, pool, queried, target, count)
    requires DistinctList(asked) && forall x :: x in asked ==> x in queried
    ensures RoundOk(result', pool + (Ids(reported) - {me}), picked, target, count)
    ensures PlanOk(next, picked, asked) && picked == queried + (Ids(reported) - {me})
    ensures AreNearest(next, NewIds(me, queried, reported), target, ALPHA)
    ensures forall e :: e in result' ==> e in result || e in reported
    ensures forall e :: e in next ==> e in reported
  {
    hide Dist, SortByDistance, AreNearest, PlanOk, DistinctIds;
    var discovered := Discovered(me, queried, reported);
    ghost var found := Ids(discovered);
    NearestDistinct(result, pool, target, count);
    assert found == NewIds(me, queried, reported);
    var merged;
    merged, next, picked := Absorb(discovered, result, queried);
    result' := Take(SortByDistance(merged, target), count);
    SortAndCut(merged, target, count);
    MergeNearest(result, pool, result', Ids(merged), found, target, count);
    assert pool + found == pool + (Ids(reported) - {me});
    SortAndCut(next, target, ALPHA);
    next := Take(SortByDistance(next, target), ALPHA);
    NearestPlan(next, found, target);
    PlanFromFresh(next, discovered, queried, picked, asked);
  }

  lemma NearestPlan(next: seq<Entry>, pool: set<Id>, target: Id)
    requires AreNearest(next, pool, target, ALPHA)
    ensures DistinctIds(next) && Ids(next) <= pool && |next| <= ALPHA
    ensures next == [] ==> pool == {}
  {
    hide Dist;
    DistinctIfSorted(next, target);
    if next == [] {
      assert Ids(next) == {};
    }
  }

  lemma PlanFromFresh(next: seq<Entry>, discovered: seq<Entry>, queried: set<Id>, picked: set<Id>, asked: seq<Id>)
    requires DistinctIds(next) && Ids(next) <= Ids(discovered) && |next| <= ALPHA
    requires forall e :: e in discovered ==> e.id !in queried
    requires picked == queried + Ids(discovered)
    requires DistinctList(asked) && forall x :: x in asked ==> x in queried
    ensures PlanOk(next, picked, asked)
  {
  }

  // ---- Whole lookups ----

  /** Everybody in the plans, in order. */
  ghost function Everybody(plans: seq<seq<Entry>>): seq<Id> {
    if plans == [] then [] else Everybody(plans[..|plans| - 1]) + IdList(plans[|plans| - 1])
  }

  /** What round i may ask: the usable nodes we know at first, and then what the round before reported for the first time. */
  ghost function Askable(me: Id, usable: set<Id>, plans: seq<seq<Entry>>, replies: seq<seq<Entry>>, i: nat): set<Id>
    requires i <= |replies| && (i > 0 ==> plans != [])
  {
    if i == 0 then usable else NewIds(me, Ids(plans[0]) + Reported(me, replies, i - 1), replies[i - 1])
  }

  /** Each round asks the ALPHA nearest of what it may ask. */
  ghost predicate PlansOk(me: Id, usable: set<Id>, target: Id, plans: seq<seq<Entry>>, replies: seq<seq<Entry>>) {
    && |plans| <= |replies|
    && forall i :: 0 <= i < |plans| ==> AreNearest(plans[i], Askable(me, usable, plans, replies, i), target, ALPHA)
  }

  lemma OneMorePlan(me: Id, usable: set<Id>, target: Id, plans: seq<seq<Entry>>, replies: seq<seq<Entry>>, plan: seq<Entry>)
    requires PlansOk(me, usable, target, plans, replies) && |plans| < |replies|
    requires AreNearest(plan, Askable(me, usable, plans, replies, |plans|), target, ALPHA)
    ensures PlansOk(me, usable, target, plans + [plan], replies)
    ensures Everybody(plans + [plan]) == Everybody(plans) + IdList(plan)
    ensures plans != [] ==> (plans + [plan])[0] == plans[0]
  {
    hide AreNearest, Askable, IdList;
    var all := plans + [plan];
    assert all[..|plans|] == plans;
    forall i | 0 <= i < |all| ensures AreNearest(all[i], Askable(me, usable, all, replies, i), target, ALPHA) {
      SameAskable(me, usable, plans, plan, replies, i);
    }
  }

  lemma SameAskable(me: Id, usable: set<Id>, plans: seq<seq<Entry>>, plan: seq<Entry>, replies: seq<seq<Entry>>, i: nat)
    requires i <= |plans| && i <= |replies|
    ensures Askable(me, usable, plans + [plan], replies, i) == Askable(me, usable, plans, replies, i)
  {
    hide NewIds;
  }

  /** The entry was known at first or reported in one of the rounds made. */
  ghost predicate Known(e: Entry, first: seq<Entry>, replies: seq<seq<Entry>>, rounds: nat)
    requires rounds <= |replies|
  {
    e in first || exists i :: 0 <= i < rounds && e in replies[i]
  }

  /**
   * find_nodes, against any replies; replies[i] are the nodes reported in round i, in the order they came in, and the node
   * shuts down (if at all) before round `shutdown`. The lookup makes `rounds` rounds; round i sends one query to each node of
   * plans[i]. It stops only when it has made all rounds, is shut down, or has nobody left to ask. A node that is down already
   * finds nothing and asks nobody.
   */
  method FindNodes(table: RouteTable, target: Id, count: nat, replies: seq<seq<Entry>>, down: bool, shutdown: nat)
    returns (result: seq<Entry>, asked: seq<Id>, rounds: nat, ghost first: seq<Entry>, ghost plans: seq<seq<Entry>>)
    requires table.Valid() && |replies| >= ROUNDS
    ensures down ==> result == [] && asked == []
    ensures !down ==> AreNearest(first, TableIds(table.buckets), target, count)
    ensures rounds <= ROUNDS && rounds <= shutdown
    ensures !down ==>
              AreNearest(result, Ids(Usable(table.me, first)) + Reported(table.me, replies, rounds), target, count)
    ensures forall e :: e in result ==> Known(e, first, replies, rounds)
    ensures !down ==>
              && |plans| == rounds && asked == Everybody(plans)
              && PlansOk(table.me, Ids(Usable(table.me, first)), target, plans, replies)
              && (rounds == ROUNDS || rounds == shutdown
                  || Askable(table.me, Ids(Usable(table.me, first)), plans, replies, rounds) == {})
    ensures DistinctList(asked) && |asked| <= rounds * ALPHA && |asked| <= 3 * ALPHA
    ensures forall x :: x in asked ==> x in Ids(Usable(table.me, first)) + Reported(table.me, replies, rounds)
  {
    hide Dist, SortByDistance, TableOk, Usable, AreNearest, PlanOk, Ids, PlansOk, Known;
    if down {
      return [], [], 0, [], [];
    }
    var closest := table.FindClosestNodes(target, count);
    first := closest;
    result := SortByDistance(Usable(table.me, closest), target);
    FirstResult(table.me, closest, TableIds(table.buckets), target, count);
    ghost var usable := Ids(Usable(table.me, first));
    var toQuery := Take(result, ALPHA);
    var queried := Ids(toQuery);
    FirstPlan(result, usable, target, count);
    ghost var plan0 := toQuery;
    asked, rounds, plans := [], 0, [];
    NoPlan(table.me, usable, target, replies);
    FirstKnown(first, result, replies);
    while rounds < ROUNDS && rounds < shutdown && toQuery != []
      invariant rounds <= ROUNDS && rounds <= shutdown
      invariant RoundOk(result, usable + Reported(table.me, replies, rounds), queried, target, count)
      invariant PlanOk(toQuery, queried, asked) && |asked| <= rounds * ALPHA
      invariant forall e :: e in result ==> Known(e, first, replies, rounds)
      invariant |plans| == rounds && asked == Everybody(plans) && (rounds > 0 ==> plans[0] == plan0)
      invariant rounds == 0 ==> toQuery == plan0
      invariant PlansOk(table.me, usable, target, plans, replies)
      invariant AreNearest(toQuery, Askable(table.me, usable, plans, replies, rounds), target, ALPHA)
      invariant queried == Ids(plan0) + Reported(table.me, replies, rounds)
    {
      AskedOnce(toQuery, queried, asked);
      OneMorePlan(table.me, usable, target, plans, replies, toQuery);
      asked, plans := asked + IdList(toQuery), plans + [toQuery];
      ghost var pool, before := usable + Reported(table.me, replies, rounds), result;
      result, toQuery, queried := Round(table.me, target, count, replies[rounds], result, queried, pool, asked);
      KnownMore(first, replies, rounds, before, result);
      rounds := rounds + 1;
      assert pool + (Ids(replies[rounds - 1]) - {table.me}) == usable + Reported(table.me, replies, rounds);
    }
    AskedSoFar(toQuery, queried, asked);
    NearestPlan(toQuery, Askable(table.me, usable, plans, replies, rounds), target);
  }

  lemma NoPlan(me: Id, usable: set<Id>, target: Id, replies: seq<seq<Entry>>)
    ensures PlansOk(me, usable, target, [], replies)
  {
  }

  lemma FirstKnown(first: seq<Entry>, result: seq<Entry>, replies: seq<seq<Entry>>)
    requires forall e :: e in result ==> e in first
    ensures forall e :: e in result ==> Known(e, first, replies, 0)
  {
  }

  lemma KnownMore(first: seq<Entry>, replies: seq<seq<Entry>>, n: nat, before: seq<Entry>, after: seq<Entry>)
    requires n < |replies| && (forall e :: e in before ==> Known(e, first, replies, n))
    requires forall e :: e in after ==> e in before || e in replies[n]
    ensures forall e :: e in after ==> Known(e, first, replies, n + 1)
  {
  }

  lemma AskedSoFar(toQuery: seq<Entry>, queried: set<Id>, asked: seq<Id>)
    requires PlanOk(toQuery, queried, asked)
    ensures DistinctList(asked) && forall x :: x in asked ==> x in queried
  {
  }

  lemma FirstResult(me: Id, closest: seq<Entry>, pool: set<Id>, target: Id, count: nat)
    requires AreNearest(closest, pool, target, count)
    ensures AreNearest(SortByDistance(Usable(me, closest), target), Ids(Usable(me, closest)), target, count)
    ensures Ids(SortByDistance(Usable(me, closest), target)) == Ids(Usable(me, closest))
    ensures forall e :: e in SortByDistance(Usable(me, closest), target) ==> e in closest
  {
    hide Dist, SortByDistance, Usable;
    var u := Usable(me, closest);
    UsableSorted(me, closest, target);
    DistinctIfSorted(u, target);
    SortAndCut(u, target, count);
    assert |SortByDistance(u, target)| == |u| <= count;
  }

  lemma FirstPlan(result: seq<Entry>, usable: set<Id>, target: Id, count: nat)
    requires AreNearest(result, usable, target, count) && Ids(result) == usable
    ensures PlanOk(Take(result, ALPHA), Ids(Take(result, ALPHA)), [])
    ensures RoundOk(result, usable + {}, Ids(Take(result, ALPHA)), target, count)
    ensures AreNearest(Take(result, ALPHA), usable, target, ALPHA)
  {
    hide Dist;
    var r := Take(result, ALPHA);
    forall x, e | x in usable && x !in Ids(r) && e in r ensures Dist(e.id, target) < Dist(x, target) {
      CutSorted(result, target, ALPHA, e, x);
    }
  }
}

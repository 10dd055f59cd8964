/** The routing table: 160 buckets of at most K nodes, filed by the length of the prefix shared with our own id. */
module RoutingTable {
  import opened Bytes
  import opened NodeId
  import opened Nearest

  const K: nat := 8

  type Buckets = seq<seq<Entry>>

  // ---- One bucket ----

  function IndexOf(b: seq<Entry>, id: Id): (r: nat)
    ensures r <= |b|
    ensures r < |b| ==> b[r].id == id
    ensures forall j :: 0 <= j < r ==> b[j].id != id
  {
    if b == [] || b[0].id == id then 0 else 1 + IndexOf(b[1..], id)
  }

  function FirstBad(b: seq<Entry>): (r: nat)
    ensures r <= |b|
    ensures r < |b| ==> b[r].status.Bad?
    ensures forall j :: 0 <= j < r ==> !b[j].status.Bad?
  {
    if b == [] || b[0].status.Bad? then 0 else 1 + FirstBad(b[1..])
  }

  /** Writes e at position i and moves it to the back, where the most recent nodes are. */
  function MoveToBack(b: seq<Entry>, i: nat, e: Entry): (r: seq<Entry>)
    requires i < |b|
    ensures |r| == |b|
    ensures forall x :: x in r <==> x == e || x in b[..i] + b[i + 1..]
  {
    b[..i] + b[i + 1..] + [e]
  }

  /** KBucket::add */
  function Added(b: seq<Entry>, e: Entry, now: int): seq<Entry> {
    var i, bad := IndexOf(b, e.id), FirstBad(b);
    if i < |b| then MoveToBack(b, i, e.(lastSeen := now))
    else if |b| < K then b + [e]
    else if bad < |b| then MoveToBack(b, bad, e)
    else b
  }

  /** The effect of update_status on the bucket of the node. */
  function Updated(b: seq<Entry>, id: Id, status: Status, now: int): seq<Entry> {
    var i := IndexOf(b, id);
    if i == |b| then b
    else if status.Good? then MoveToBack(b, i, b[i].(status := status, lastReplied := now))
    else b[i := b[i].(status := status)]
  }

  predicate BucketOk(me: Id, b: seq<Entry>, i: nat) {
    && |b| <= K
    && DistinctIds(b)
    && forall e :: e in b ==> e.id != me && BucketIndex(me, e.id) == i
  }

  lemma DistinctAfterMove(b: seq<Entry>, i: nat, e: Entry)
    requires i < |b| && DistinctIds(b)
    requires forall j :: 0 <= j < |b| && j != i ==> b[j].id != e.id
    ensures DistinctIds(MoveToBack(b, i, e))
  {
  }

  lemma OthersDiffer(b: seq<Entry>, id: Id)
    requires DistinctIds(b)
    ensures forall j :: 0 <= j < |b| && j != IndexOf(b, id) ==> b[j].id != id
  {
  }

  lemma AddedOk(me: Id, b: seq<Entry>, i: nat, e: Entry, now: int)
    requires BucketOk(me, b, i) && e.id != me && BucketIndex(me, e.id) == i
    ensures BucketOk(me, Added(b, e, now), i)
  {
    hide BucketIndex;
    var at, bad := IndexOf(b, e.id), FirstBad(b);
    OthersDiffer(b, e.id);
    if at < |b| {
      DistinctAfterMove(b, at, e.(lastSeen := now));
    } else if |b| < K {
    } else if bad < |b| {
      DistinctAfterMove(b, bad, e);
    }
  }

  lemma UpdatedOk(me: Id, b: seq<Entry>, i: nat, id: Id, status: Status, now: int)
    requires BucketOk(me, b, i)
    ensures BucketOk(me, Updated(b, id, status, now), i)
    ensures Ids(Updated(b, id, status, now)) == Ids(b)
  {
    hide BucketIndex, MoveToBack;
    var at := IndexOf(b, id);
    if at < |b| {
      var e := if status.Good? then b[at].(status := status, lastReplied := now) else b[at].(status := status);
      RewrittenOk(me, b, i, at, e);
    }
  }

  /** Rewriting one entry without its identifier, in place or moved to the back. */
  lemma RewrittenOk(me: Id, b: seq<Entry>, i: nat, at: nat, e: Entry)
    requires BucketOk(me, b, i) && at < |b| && e.id == b[at].id
    ensures BucketOk(me, MoveToBack(b, at, e), i) && Ids(MoveToBack(b, at, e)) == Ids(b)
    ensures BucketOk(me, b[at := e], i) && Ids(b[at := e]) == Ids(b)
  {
    hide BucketIndex;
    DistinctAfterMove(b, at, e);
    SameIds(b, at, e);
    assert b[at] in b;
  }

  lemma SameIds(b: seq<Entry>, i: nat, e: Entry)
    requires i < |b| && e.id == b[i].id
    ensures Ids(MoveToBack(b, i, e)) == Ids(b) == Ids(b[i := e])
  {
    var r, u := MoveToBack(b, i, e), b[i := e];
    assert b == b[..i] + [b[i]] + b[i + 1..];
    assert u == b[..i] + [e] + b[i + 1..];
    assert b[i] in b && e in u && e in r;
    assert forall x :: x in b <==> x == b[i] || x in b[..i] + b[i + 1..];
    assert forall x :: x in u <==> x == e || x in b[..i] + b[i + 1..];
  }

  /** The bucket has room for e: it is known already, there is a free place, or a Bad node can make way. */
  predicate Accepts(b: seq<Entry>, e: Entry) {
    e.id in Ids(b) || |b| < K || exists x :: x in b && x.status.Bad?
  }

  /** The node of x makes way for e: the bucket was full, x was Bad and e is new. */
  predicate Replaced(b: seq<Entry>, e: Entry, x: Entry) {
    x in b && x.status.Bad? && |b| == K && e.id !in Ids(b)
  }

  /**
   * Adding e: e is in the bucket afterwards if and only if the bucket accepts it, nothing else appears, and every
   * other entry stays as it was unless it makes way for e.
   */
  lemma AddedEffect(b: seq<Entry>, e: Entry, now: int)
    requires |b| <= K && DistinctIds(b)
    ensures e.id in Ids(Added(b, e, now)) <==> Accepts(b, e)
    ensures Accepts(b, e) ==> (if e.id in Ids(b) then e.(lastSeen := now) else e) in Added(b, e, now)
    ensures forall y :: y in Added(b, e, now) && y.id != e.id ==> y in b
    ensures forall x :: x in b && x.id != e.id ==> x in Added(b, e, now) || Replaced(b, e, x)
    ensures |Added(b, e, now)| >= |b|
  {
  }

  /** The entries with other identifiers, in their order. */
  function Others(b: seq<Entry>, id: Id): seq<Entry> {
    if b == [] then []
    else Others(b[..|b| - 1], id) + if b[|b| - 1].id == id then [] else [b[|b| - 1]]
  }

  lemma {:induction false} OthersAll(b: seq<Entry>, id: Id)
    requires forall j :: 0 <= j < |b| ==> b[j].id != id
    ensures Others(b, id) == b
  {
    if b != [] {
      var init, last := b[..|b| - 1], b[|b| - 1];
      OthersAll(init, id);
      assert b == init + [last];
    }
  }

  /** In a list with distinct identifiers, leaving out the entry at i is keeping the entries with other identifiers. */
  lemma {:induction false} OthersBut(b: seq<Entry>, i: nat)
    requires DistinctIds(b) && i < |b|
    ensures b[..i] + b[i + 1..] == Others(b, b[i].id)
  {
    var n := |b| - 1;
    if i == n {
      OthersAll(b[..n], b[i].id);
    } else {
      OthersBut(b[..n], i);
      assert b[..n][..i] == b[..i] && b[..n][i + 1..] + [b[n]] == b[i + 1..];
    }
  }

  lemma MovedBack(b: seq<Entry>, i: nat, e: Entry)
    requires DistinctIds(b) && i < |b|
    ensures MoveToBack(b, i, e) == Others(b, b[i].id) + [e]
  {
    OthersBut(b, i);
  }

  /** The first Bad entry. */
  predicate IsFirstBad(b: seq<Entry>, i: nat) {
    i < |b| && b[i].status.Bad? && forall j :: 0 <= j < i ==> !b[j].status.Bad?
  }

  /** A known node moves behind all others, which keep their order, with the new data. */
  lemma AddedKnown(b: seq<Entry>, e: Entry, now: int)
    requires DistinctIds(b) && e.id in Ids(b)
    ensures Added(b, e, now) == Others(b, e.id) + [e.(lastSeen := now)]
  {
    hide MoveToBack;
    KnownIff(b, e.id);
    MovedBack(b, IndexOf(b, e.id), e.(lastSeen := now));
  }

  /** In a full bucket an unknown node comes behind all others, and the first Bad one makes way. */
  lemma AddedReplaces(b: seq<Entry>, e: Entry, now: int, i: nat)
    requires DistinctIds(b) && e.id !in Ids(b) && |b| >= K && IsFirstBad(b, i)
    ensures Added(b, e, now) == Others(b, b[i].id) + [e]
  {
    hide MoveToBack, Ids;
    KnownIff(b, e.id);
    assert FirstBad(b) == i;
    MovedBack(b, i, e);
  }

  lemma KnownIff(b: seq<Entry>, id: Id)
    ensures IndexOf(b, id) < |b| <==> id in Ids(b)
  {
    assert IndexOf(b, id) < |b| ==> b[IndexOf(b, id)] in b;
  }

  /** The entry after update_status: the new status, and the time of a reply if it is Good. */
  function WithStatus(x: Entry, status: Status, now: int): Entry {
    Entry(x.id, x.endpoint, status, x.lastSeen, if status.Good? then now else x.lastReplied)
  }

  /**
   * Updating the status of id: an unknown id changes nothing; a known one has the new status, stands last if it is Good and in
   * its place otherwise, and every other entry is as it was.
   */
  lemma UpdatedEffect(b: seq<Entry>, id: Id, status: Status, now: int)
    requires DistinctIds(b)
    ensures id !in Ids(b) ==> Updated(b, id, status, now) == b
    ensures forall i :: 0 <= i < |b| && b[i].id == id ==>
              if status.Good? then Updated(b, id, status, now) == Others(b, id) + [WithStatus(b[i], status, now)]
              else Updated(b, id, status, now) == b[i := WithStatus(b[i], status, now)]
  {
    var at := IndexOf(b, id);
    assert at < |b| ==> b[at] in b;
    assert at == |b| <==> id !in Ids(b);
    if at < |b| {
      OthersBut(b, at);
    }
  }

  // ---- The table ----

  ghost predicate TableOk(me: Id, bs: Buckets) {
    |bs| == ID_BITS && forall i :: 0 <= i < |bs| ==> BucketOk(me, bs[i], i)
  }

  ghost function TableIds(bs: Buckets): set<Id> {
    set i, e | 0 <= i < |bs| && e in bs[i] :: e.id
  }

  /** An identifier is in the table if and only if it is in its own bucket. */
  lemma InItsBucket(me: Id, bs: Buckets, id: Id)
    requires TableOk(me, bs)
    ensures BucketIndex(me, id) < |bs|
    ensures id in TableIds(bs) <==> id in Ids(bs[BucketIndex(me, id)])
  {
    hide BucketIndex, Distance;
    IndexBounded(me, id);
    if id in TableIds(bs) {
      var i, e :| 0 <= i < |bs| && e in bs[i] && e.id == id;
      assert BucketOk(me, bs[i], i);
    }
  }

  lemma IndexBounded(me: Id, id: Id)
    ensures BucketIndex(me, id) < ID_BITS
  {
    PrefixBounded(Distance(me, id), 0);
  }

  datatype Op =
    | Insert(entry: Entry)
    | UpdateStatus(id: Id, status: Status)

  function Subject(op: Op): Id {
    match op
    case Insert(e) => e.id
    case UpdateStatus(id, _) => id
  }

  /** What one operation does; operations about our own identifier are ignored. */
  function Applied(me: Id, bs: Buckets, op: Op, now: int): (r: Buckets)
    requires |bs| == ID_BITS
    ensures |r| == ID_BITS
  {
    IndexBounded(me, Subject(op));
    var i := BucketIndex(me, Subject(op));
    if Subject(op) == me then bs
    else match op
      case Insert(e) => bs[i := Added(bs[i], e, now)]
      case UpdateStatus(id, status) => bs[i := Updated(bs[i], id, status, now)]
  }

  lemma AppliedOk(me: Id, bs: Buckets, op: Op, now: int)
    requires TableOk(me, bs)
    ensures TableOk(me, Applied(me, bs, op, now))
  {
    hide BucketIndex, Added, Updated, BucketOk;
    IndexBounded(me, Subject(op));
    if Subject(op) != me {
      var i := BucketIndex(me, Subject(op));
      match op
      case Insert(e) => AddedOk(me, bs[i], i, e, now);
      case UpdateStatus(id, status) => UpdatedOk(me, bs[i], i, id, status, now);
    }
  }

  /** The operation replaces id: id was marked Bad in a full bucket, and the node taking its place was unknown. */
  ghost predicate Replaces(me: Id, bs: Buckets, op: Op, id: Id)
    requires TableOk(me, bs)
  {
    IndexBounded(me, id);
    var b := bs[BucketIndex(me, id)];
    && op.Insert?
    && BucketIndex(me, op.entry.id) == BucketIndex(me, id)
    && exists x :: Replaced(b, op.entry, x) && x.id == id
  }

  lemma LeavesOnlyIfReplaced(me: Id, bs: Buckets, op: Op, now: int, id: Id)
    requires TableOk(me, bs)
    requires id in TableIds(bs) && id !in TableIds(Applied(me, bs, op, now))
    ensures Replaces(me, bs, op, id)
  {
    hide BucketIndex, Added, Updated;
    AppliedOk(me, bs, op, now);
    InItsBucket(me, bs, id);
    InItsBucket(me, Applied(me, bs, op, now), id);
    var i := BucketIndex(me, id);
    var b := bs[i];
    var x :| x in b && x.id == id;
    assert BucketOk(me, b, i);
    match op
    case Insert(e) => AddedEffect(b, e, now);
    case UpdateStatus(s, status) => UpdatedOk(me, b, i, s, status, now);
  }

  lemma EntersOnlyIfInserted(me: Id, bs: Buckets, op: Op, now: int, id: Id)
    requires TableOk(me, bs)
    requires id !in TableIds(bs) && id in TableIds(Applied(me, bs, op, now))
    ensures op.Insert? && op.entry.id == id
  {
    hide BucketIndex, Added, Updated;
    AppliedOk(me, bs, op, now);
    InItsBucket(me, bs, id);
    InItsBucket(me, Applied(me, bs, op, now), id);
    var i := BucketIndex(me, id);
    var b := bs[i];
    assert BucketOk(me, b, i);
    match op
    case Insert(e) => AddedEffect(b, e, now);
    case UpdateStatus(s, status) => UpdatedOk(me, b, i, s, status, now);
  }

  /** An operation touches only the bucket of its subject, and nothing if that is ourselves. */
  lemma AppliedElsewhere(me: Id, bs: Buckets, op: Op, now: int)
    requires TableOk(me, bs)
    ensures Subject(op) == me ==> Applied(me, bs, op, now) == bs
    ensures forall i :: 0 <= i < ID_BITS && i != BucketIndex(me, Subject(op)) ==> Applied(me, bs, op, now)[i] == bs[i]
  {
    hide BucketIndex, Added, Updated;
  }

  /** Once a node is marked Bad its bucket, even a full one, takes an unknown node. */
  lemma BadMakesRoom(me: Id, bs: Buckets, id: Id, e: Entry, now: int, later: int)
    requires TableOk(me, bs) && id in TableIds(bs) && e.id != me && e.id !in TableIds(bs)
    requires BucketIndex(me, e.id) == BucketIndex(me, id)
    ensures var marked := Applied(me, bs, UpdateStatus(id, Bad), now);
            |marked| == ID_BITS && e.id in TableIds(Applied(me, marked, Insert(e), later))
  {
    hide BucketIndex, Added, Updated;
    var marked := Applied(me, bs, UpdateStatus(id, Bad), now);
    var i := BucketIndex(me, id);
    InItsBucket(me, bs, id);
    InItsBucket(me, bs, e.id);
    AppliedOk(me, bs, UpdateStatus(id, Bad), now);
    var b := bs[i];
    assert BucketOk(me, b, i) && BucketOk(me, marked[i], i);
    var x :| x in b && x.id == id;
    var k :| 0 <= k < |b| && b[k] == x;
    UpdatedEffect(b, id, Bad, now);
    assert marked[i][k].status.Bad? && marked[i][k] in marked[i];
    AddedEffect(marked[i], e, later);
    AppliedOk(me, marked, Insert(e), later);
    InItsBucket(me, Applied(me, marked, Insert(e), later), e.id);
  }

  // ---- Every run ----

  ghost function After(me: Id, bs: Buckets, ops: seq<(Op, int)>): (r: Buckets)
    requires |bs| == ID_BITS
    ensures |r| == ID_BITS
  {
    if ops == [] then bs
    else
      var n := |ops| - 1;
      Applied(me, After(me, bs, ops[..n]), ops[n].0, ops[n].1)
  }

  /**
   * Every reachable table: at most K distinct identifiers a bucket, never our own, and bucket i holds only nodes at
   * a distance from 2^(159-i) up to 2^(160-i).
   */
  lemma {:induction false} EveryRun(me: Id, bs: Buckets, ops: seq<(Op, int)>)
    requires TableOk(me, bs)
    ensures TableOk(me, After(me, bs, ops))
    ensures forall i, e: Entry :: 0 <= i < ID_BITS && e in After(me, bs, ops)[i] ==>
              Pow2(159 - i) <= Dist(me, e.id) < Pow2(160 - i)
  {
    hide BucketIndex, Applied, Dist, Pow2;
    if ops != [] {
      var n := |ops| - 1;
      EveryRun(me, bs, ops[..n]);
      AppliedOk(me, After(me, bs, ops[..n]), ops[n].0, ops[n].1);
    }
    var r := After(me, bs, ops);
    forall i, e: Entry | 0 <= i < ID_BITS && e in r[i] ensures Pow2(159 - i) <= Dist(me, e.id) < Pow2(160 - i) {
      assert BucketOk(me, r[i], i);
      BucketRange(me, e.id);
    }
  }

  /** Over any run, an identifier that is gone was replaced at some step, and was marked Bad at that step. */
  lemma {:induction false} GoneOnlyIfReplaced(me: Id, bs: Buckets, ops: seq<(Op, int)>, id: Id) returns (k: nat)
    requires TableOk(me, bs)
    requires id in TableIds(bs) && id !in TableIds(After(me, bs, ops))
    ensures k < |ops| && TableOk(me, After(me, bs, ops[..k]))
    ensures id in TableIds(After(me, bs, ops[..k])) && Replaces(me, After(me, bs, ops[..k]), ops[k].0, id)
  {
    hide BucketIndex, Applied, TableIds, Replaces;
    var n := |ops| - 1;
    EveryRun(me, bs, ops[..n]);
    if id in TableIds(After(me, bs, ops[..n])) {
      LeavesOnlyIfReplaced(me, After(me, bs, ops[..n]), ops[n].0, ops[n].1, id);
      k := n;
    } else {
      k := GoneOnlyIfReplaced(me, bs, ops[..n], id);
      assert ops[..n][..k] == ops[..k];
    }
  }

  // ---- Gathering the entries of all buckets ----

  /** The nodes gathered so far come from the table and are distinct, and their identifiers are the recorded ones. */
  ghost predicate Gathered(me: Id, bs: Buckets, c: seq<Entry>, a: set<Id>) {
    && DistinctIds(c)
    && a == Ids(c)
    && forall e :: e in c ==> BucketIndex(me, e.id) < |bs| && e in bs[BucketIndex(me, e.id)]
  }

  ghost predicate Covered(bs: Buckets, c: seq<Entry>, lo: int, hi: int) {
    forall j, e :: 0 <= j < |bs| && lo <= j < hi && e in bs[j] ==> e in c
  }

  lemma CoverMore(bs: Buckets, before: seq<Entry>, c: seq<Entry>, lo: int, hi: int)
    requires Covered(bs, before, lo, hi) && before <= c
    requires 0 <= lo - 1 < |bs| ==> forall e :: e in bs[lo - 1] ==> e in c
    requires 0 <= hi < |bs| ==> forall e :: e in bs[hi] ==> e in c
    ensures Covered(bs, c, lo - 1, hi + 1)
  {
    assert forall e :: e in before ==> e in c;
  }

  lemma GatherOne(me: Id, bs: Buckets, c: seq<Entry>, a: set<Id>, j: nat, e: Entry)
    requires TableOk(me, bs) && Gathered(me, bs, c, a)
    requires j < |bs| && e in bs[j] && e.id !in a
    ensures Gathered(me, bs, c + [e], a + {e.id})
  {
  }

  lemma AlreadyGathered(me: Id, bs: Buckets, c: seq<Entry>, a: set<Id>, j: nat, e: Entry)
    requires TableOk(me, bs) && Gathered(me, bs, c, a)
    requires j < |bs| && e in bs[j] && (e.id == me || e.id in a)
    ensures e in c
  {
  }

  lemma GatheredAll(me: Id, bs: Buckets, c: seq<Entry>, a: set<Id>)
    requires TableOk(me, bs) && Gathered(me, bs, c, a) && Covered(bs, c, 0, ID_BITS)
    ensures Ids(c) == TableIds(bs)
  {
  }

  // ---- The table as the node keeps it ----

  class RouteTable {
    const me: Id
    var buckets: Buckets

    ghost predicate Valid()
      reads this
    {
      TableOk(me, buckets)
    }

    constructor (id: Id)
      ensures me == id && Valid() && TableIds(buckets) == {}
    {
      me := id;
      buckets := seq(ID_BITS, _ => []);
    }

    /** insert */
    method Insert(entry: Entry, now: int)
      requires Valid()
      modifies this
      ensures Valid() && buckets == Applied(me, old(buckets), Op.Insert(entry), now)
    {
      AppliedOk(me, buckets, Op.Insert(entry), now);
      IndexBounded(me, entry.id);
      if entry.id == me {
        return;
      }
      var i := GetBucketIndex(me, entry.id);
      var b := buckets[i];
      var at := IndexOf(b, entry.id);
      if at < |b| {
        buckets := buckets[i := MoveToBack(b, at, entry.(lastSeen := now))];
      } else if |b| < K {
        buckets := buckets[i := b + [entry]];
      } else {
        at := FirstBad(b);
        if at < |b| {
          buckets := buckets[i := MoveToBack(b, at, entry)];
        }
      }
    }

    /** update_status */
    method UpdateStatus(id: Id, status: Status, now: int)
      requires Valid()
      modifies this
      ensures Valid() && buckets == Applied(me, old(buckets), Op.UpdateStatus(id, status), now)
    {
      AppliedOk(me, buckets, Op.UpdateStatus(id, status), now);
      IndexBounded(me, id);
      if id == me {
        return;
      }
      var i := GetBucketIndex(me, id);
      var b := buckets[i];
      var at := IndexOf(b, id);
      if at < |b| {
        b := b[at := b[at].(status := status)];
        if status.Good? {
          var e := b[at].(lastReplied := now);
          b := MoveToBack(b, at, e);
        }
        buckets := buckets[i := b];
      }
    }

    /** The inner loop of find_closest_nodes: takes over the nodes of one bucket that are not there yet. */
    method AddBucket(closest: seq<Entry>, added: set<Id>, j: nat) returns (c: seq<Entry>, a: set<Id>)
      requires Valid() && j < |buckets|
      requires Gathered(me, buckets, closest, added)
      ensures Gathered(me, buckets, c, a)
      ensures closest <= c && forall e :: e in buckets[j] ==> e in c
    {
      hide BucketIndex;
      c, a := closest, added;
      var b := buckets[j];
      assert BucketOk(me, b, j);
      for n := 0 to |b|
        invariant Gathered(me, buckets, c, a)
        invariant closest <= c && forall e :: e in b[..n] ==> e in c
      {
        if b[n].id != me && b[n].id !in a {
          GatherOne(me, buckets, c, a, j, b[n]);
          c, a := c + [b[n]], a + {b[n].id};
        } else {
          AlreadyGathered(me, buckets, c, a, j, b[n]);
        }
        assert b[..n + 1] == b[..n] + [b[n]];
      }
      assert b[..|b|] == b;
    }

    /** find_closest_nodes */
    method FindClosestNodes(target: Id, k: nat) returns (r: seq<Entry>)
      requires Valid()
      ensures AreNearest(r, TableIds(buckets), target, k)
      ensures forall e :: e in r ==> exists i :: 0 <= i < |buckets| && e in buckets[i]
    {
      hide BucketIndex, BucketOk, AreNearest, SortByDistance;
      var closest: seq<Entry>, added: set<Id> := [], {};
      IndexBounded(me, target);
      var t := GetBucketIndex(me, target);
      closest, added := AddBucket(closest, added, t);
      var i := 1;
      while i < ID_BITS
        invariant 1 <= i <= ID_BITS
        invariant Gathered(me, buckets, closest, added)
        invariant Covered(buckets, closest, t - i + 1, t + i)
      {
        var left, right := t - i, t + i;
        ghost var before := closest;
        if left >= 0 {
          closest, added := AddBucket(closest, added, left);
        }
        if right < |buckets| {
          closest, added := AddBucket(closest, added, right);
        }
        CoverMore(buckets, before, closest, left + 1, right);
        i := i + 1;
        if |closest| >= k && left < 0 && right >= |buckets| {
          break;
        }
      }
      GatheredAll(me, buckets, closest, added);
      SortAndCut(closest, target, k);
      r := Take(SortByDistance(closest, target), k);
      forall e | e in r ensures exists i :: 0 <= i < |buckets| && e in buckets[i] {
        IndexBounded(me, e.id);
        assert e in closest;
        assert e in buckets[BucketIndex(me, e.id)];
      }
    }
  }
}

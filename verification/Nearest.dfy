/** Sorting table entries by distance, and what it means to hold the nearest ones. */
module Nearest {
  import opened NodeId
  import opened Sets

  datatype Status = Good | Questionable | Bad

  datatype Entry = Entry(id: Id, endpoint: int, status: Status, lastSeen: int, lastReplied: int)

  predicate DistinctIds(s: seq<Entry>) {
    forall i, j :: 0 <= i < j < |s| ==> s[i].id != s[j].id
  }

  /** The identifiers of a list. */
  function Ids(s: seq<Entry>): set<Id> {
    set e | e in s :: e.id
  }

  predicate SortedBy(s: seq<Entry>, target: Id) {
    forall i, j :: 0 <= i < j < |s| ==> Dist(s[i].id, target) < Dist(s[j].id, target)
  }

  // ---- Sorting ----

  function InsertByDistance(e: Entry, s: seq<Entry>, target: Id): (r: seq<Entry>)
    ensures |r| == |s| + 1
    ensures forall x :: x in r <==> x == e || x in s
  {
    if s == [] || Dist(e.id, target) < Dist(s[0].id, target) then [e] + s
    else
      assert s == [s[0]] + s[1..];
      [s[0]] + InsertByDistance(e, s[1..], target)
  }

  /** std::sort by distance to the target. */
  function SortByDistance(s: seq<Entry>, target: Id): (r: seq<Entry>)
    ensures |r| == |s|
    ensures forall x :: x in r <==> x in s
  {
    if s == [] then []
    else
      assert s == [s[0]] + s[1..];
      InsertByDistance(s[0], SortByDistance(s[1..], target), target)
  }

  lemma {:induction false} InsertSorted(e: Entry, s: seq<Entry>, target: Id)
    requires SortedBy(s, target) && forall x :: x in s ==> x.id != e.id
    ensures SortedBy(InsertByDistance(e, s, target), target)
  {
    hide Dist;
    if s != [] && !(Dist(e.id, target) < Dist(s[0].id, target)) {
      DistInjective(e.id, s[0].id, target);
      InsertSorted(e, s[1..], target);
      var r := InsertByDistance(e, s[1..], target);
      forall k | 0 <= k < |r| ensures Dist(s[0].id, target) < Dist(r[k].id, target) {
        assert r[k] in r;
        if r[k] != e {
          var j :| 0 <= j < |s[1..]| && s[1..][j] == r[k];
          assert s[j + 1] == r[k];
        }
      }
    }
  }

  lemma {:induction false} SortSorted(s: seq<Entry>, target: Id)
    requires DistinctIds(s)
    ensures SortedBy(SortByDistance(s, target), target)
  {
    hide Dist;
    if s != [] {
      SortSorted(s[1..], target);
      var r := SortByDistance(s[1..], target);
      forall x | x in r ensures x.id != s[0].id {
        var j :| 0 <= j < |s[1..]| && s[1..][j] == x;
        assert s[j + 1] == x;
      }
      InsertSorted(s[0], r, target);
    }
  }

  function Take(s: seq<Entry>, k: nat): (r: seq<Entry>)
    ensures r <= s && |r| <= k && (|s| <= k ==> r == s)
  {
    if |s| > k then s[..k] else s
  }

  // ---- The nearest of a set ----

  /** r lists, nearest first, the k members of pool that are nearest to the target (all of them if there are fewer). */
  ghost predicate AreNearest(r: seq<Entry>, pool: set<Id>, target: Id, k: nat) {
    && SortedBy(r, target)
    && |r| <= k
    && Ids(r) <= pool
    && (|r| < k ==> Ids(r) == pool)
    && forall x, e :: x in pool && x !in Ids(r) && e in r ==> Dist(e.id, target) < Dist(x, target)
  }

  /** A sorted list splits into nearer and farther entries. */
  lemma CutSorted(all: seq<Entry>, target: Id, k: nat, e: Entry, x: Id)
    requires SortedBy(all, target)
    requires e in Take(all, k) && x in Ids(all) && x !in Ids(Take(all, k))
    ensures Dist(e.id, target) < Dist(x, target)
  {
  }

  /** Sorting and cutting a list with distinct identifiers leaves the nearest. */
  lemma SortAndCut(s: seq<Entry>, target: Id, k: nat)
    requires DistinctIds(s)
    ensures AreNearest(Take(SortByDistance(s, target), k), Ids(s), target, k)
  {
    hide Dist, SortByDistance;
    SortSorted(s, target);
    var all := SortByDistance(s, target);
    var r := Take(all, k);
    assert Ids(all) == Ids(s);
    forall x, e | x in Ids(s) && x !in Ids(r) && e in r ensures Dist(e.id, target) < Dist(x, target) {
      CutSorted(all, target, k, e, x);
    }
  }

  lemma IdsOfOneMore(s: seq<Entry>, e: Entry)
    ensures Ids(s + [e]) == Ids(s) + {e.id}
  {
  }

  lemma {:induction false} IdsSize(r: seq<Entry>, target: Id)
    requires SortedBy(r, target)
    ensures |Ids(r)| == |r|
  {
    hide Dist;
    if r != [] {
      var init, last := r[..|r| - 1], r[|r| - 1];
      IdsSize(init, target);
      assert r == init + [last];
      IdsOfOneMore(init, last);
      forall e | e in init ensures e.id != last.id {
        var j :| 0 <= j < |init| && init[j] == e;
        assert Dist(r[j].id, target) < Dist(last.id, target);
      }
    }
  }

  /**
   * The nearest of what was kept and what is new are the nearest of everything seen: what was dropped before
   * cannot come back.
   */
  lemma MergeNearest(a: seq<Entry>, pool: set<Id>, r: seq<Entry>, merged: set<Id>, found: set<Id>, target: Id, k: nat)
    requires AreNearest(a, pool, target, k)
    requires merged == Ids(a) + found && AreNearest(r, merged, target, k)
    ensures AreNearest(r, pool + found, target, k)
  {
    hide Dist;
    IdsSize(a, target);
    IdsSize(r, target);
    if |r| < k {
      assert Ids(a) <= Ids(r);
      SubsetSize(Ids(a), Ids(r));
    }
    forall x, e | x in pool + found && x !in Ids(r) && e in r ensures Dist(e.id, target) < Dist(x, target) {
      if x !in merged {
        if e.id in Ids(a) {
          var y :| y in a && y.id == e.id;
          assert Dist(y.id, target) < Dist(x, target);
        } else {
          var z := Displaced(Ids(a), Ids(r), e.id);
          var y :| y in a && y.id == z;
          assert Dist(e.id, target) < Dist(z, target) < Dist(x, target);
        }
      }
    }
  }

  /** If r has an element that a lacks and is no larger, then a has one that r lacks. */
  lemma Displaced<T>(a: set<T>, r: set<T>, e: T) returns (z: T)
    requires |r| <= |a| && e in r && e !in a
    ensures z in a && z !in r
  {
    if a <= r {
      SubsetSize(a + {e}, r);
      assert false;
    }
    z :| z in a && z !in r;
  }
}

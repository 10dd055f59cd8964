/** One pass of the choke loop: which interested peers get an upload slot. */
module Choke {
  import opened Bytes
  import opened Sets

  const UNCHOKE_SLOTS: nat := 12
  const SNUB_SECONDS: nat := 60

  type PeerId = nat

  /** What a pass reads of a connection; lastData is zero if the peer never sent data. */
  datatype Peer = Peer(id: PeerId, interested: bool, lastData: nat, uploaded: nat, downloaded: nat)

  /** Nothing for a minute from a peer that once sent data. */
  predicate Snubs(p: Peer, now: nat) {
    p.lastData != 0 && now - p.lastData > SNUB_SECONDS
  }

  /** What the peers are ranked by: seeds reward peers that take data, others peers that give it. */
  function Rate(p: Peer, seed: bool): nat {
    if seed then p.uploaded else p.downloaded
  }

  predicate DistinctPeers(s: seq<Peer>) {
    forall i, j :: 0 <= i < j < |s| ==> s[i].id != s[j].id
  }

  predicate FastestFirst(s: seq<Peer>, seed: bool) {
    forall i, j :: 0 <= i < j < |s| ==> Rate(s[i], seed) >= Rate(s[j], seed)
  }

  function Ids(s: seq<Peer>): set<PeerId> {
    set p | p in s :: p.id
  }

  /** The interested peers that end the pass without being choked. */
  ghost function Unchoked(peers: seq<Peer>, choking: map<PeerId, bool>): set<PeerId> {
    set p | p in peers && p.interested && p.id in choking && !choking[p.id] :: p.id
  }

  // ---- Ranking ----

  method SortByRate(s: seq<Peer>, seed: bool) returns (r: seq<Peer>)
    ensures FastestFirst(r, seed)
    ensures forall p :: p in r <==> p in s
  {
    r := [];
    for n := 0 to |s|
      invariant FastestFirst(r, seed)
      invariant forall p :: p in r <==> p in s[..n]
    {
      var k := 0;
      while k < |r| && Rate(r[k], seed) >= Rate(s[n], seed)
        invariant 0 <= k <= |r|
        invariant forall i :: 0 <= i < k ==> Rate(r[i], seed) >= Rate(s[n], seed)
      {
        k := k + 1;
      }
      assert r == r[..k] + r[k..];
      assert s[..n + 1] == s[..n] + [s[n]];
      InsertKeepsOrder(r, k, s[n], seed);
      r := r[..k] + [s[n]] + r[k..];
    }
    assert s[..|s|] == s;
  }

  lemma InsertKeepsOrder(r: seq<Peer>, k: nat, x: Peer, seed: bool)
    requires FastestFirst(r, seed) && k <= |r|
    requires forall i :: 0 <= i < k ==> Rate(r[i], seed) >= Rate(x, seed)
    requires k < |r| ==> Rate(r[k], seed) < Rate(x, seed)
    ensures FastestFirst(r[..k] + [x] + r[k..], seed)
  {
  }

  /** The regular slots: the fastest peers that do not snub us. */
  method SelectRegular(ranked: seq<Peer>, seed: bool, now: nat, slots: nat) returns (regular: seq<Peer>)
    requires FastestFirst(ranked, seed)
    ensures |regular| <= slots
    ensures forall p :: p in regular ==> p in ranked && !Snubs(p, now)
    ensures forall p :: p in ranked && !Snubs(p, now) && p !in regular ==>
              |regular| == slots && forall q :: q in regular ==> Rate(p, seed) <= Rate(q, seed)
  {
    regular := [];
    var i := 0;
    while i < |ranked| && |regular| < slots
      invariant 0 <= i <= |ranked| && |regular| <= slots
      invariant forall p :: p in regular ==> p in ranked[..i] && !Snubs(p, now)
      invariant forall p :: p in ranked[..i] && !Snubs(p, now) ==> p in regular
    {
      assert ranked[..i + 1] == ranked[..i] + [ranked[i]];
      if !Snubs(ranked[i], now) {
        regular := regular + [ranked[i]];
      }
      i := i + 1;
    }
    forall p, q | p in ranked && p !in ranked[..i] && q in ranked[..i] ensures Rate(p, seed) <= Rate(q, seed) {
      RankedBefore(ranked, i, p, q, seed);
    }
  }

  lemma RankedBefore(ranked: seq<Peer>, i: nat, p: Peer, q: Peer, seed: bool)
    requires FastestFirst(ranked, seed) && i <= |ranked|
    requires p in ranked && p !in ranked[..i] && q in ranked[..i]
    ensures Rate(p, seed) <= Rate(q, seed)
  {
  }

  // ---- Counting slots ----

  lemma {:induction false} IdsSize(s: seq<Peer>)
    ensures |Ids(s)| <= |s|
  {
    if s != [] {
      var n := |s| - 1;
      IdsSize(s[..n]);
      IdsOfOneMore(s[..n], s[n]);
      assert s == s[..n] + [s[n]];
    }
  }

  lemma IdsOfOneMore(s: seq<Peer>, p: Peer)
    ensures Ids(s + [p]) == Ids(s) + {p.id}
  {
  }

  /** A connection that is not on the list shares its identifier with none that is. */
  lemma NotListed(peers: seq<Peer>, interested: seq<Peer>)
    requires DistinctPeers(peers) && forall p :: p in interested ==> p in peers
    ensures forall p :: p in peers && p !in interested ==> p.id !in Ids(interested)
    ensures forall p :: p in interested ==> p.id in Ids(interested)
  {
  }

  lemma NobodyListed(peers: seq<Peer>, choking: map<PeerId, bool>)
    requires forall p :: p in peers ==> p.id in choking
    requires forall p :: p in peers && p.interested ==> choking[p.id]
    ensures |Unchoked(peers, choking)| == 0
  {
  }

  lemma ExactlyTheChosen(peers: seq<Peer>, interested: seq<Peer>, regular: seq<Peer>, extra: set<PeerId>,
                         choking: map<PeerId, bool>)
    requires forall p :: p in peers ==> p.id in choking
    requires forall p :: p in interested ==> p in peers && p.interested && choking[p.id] == (p.id !in Ids(regular) + extra)
    requires forall p :: p in peers && p.interested && p !in interested ==> choking[p.id]
    requires (forall p :: p in regular ==> p in interested) && extra <= Ids(interested)
    ensures Unchoked(peers, choking) == Ids(regular) + extra
  {
    forall x ensures x in Unchoked(peers, choking) <==> x in Ids(regular) + extra {
      if x in Unchoked(peers, choking) {
        var p :| p in peers && p.interested && p.id in choking && !choking[p.id] && p.id == x;
        assert p in interested;
      }
      if x in Ids(regular) {
        var p :| p in regular && p.id == x;
        assert p in interested;
      } else if x in extra {
        var p :| p in interested && p.id == x;
      }
    }
  }

  lemma NobodyChosen(peers: seq<Peer>, choking: map<PeerId, bool>)
    requires forall p :: p in peers ==> p.id in choking
    requires forall p :: p in peers && p.interested ==> choking[p.id]
    ensures Unchoked(peers, choking) == Ids([]) + {}
  {
  }

  lemma AtMostTheChosen(peers: seq<Peer>, interested: seq<Peer>, regular: seq<Peer>, extra: set<PeerId>,
                        choking: map<PeerId, bool>)
    requires forall p :: p in peers ==> p.id in choking
    requires forall p :: p in interested ==> p in peers && choking[p.id] == (p.id !in Ids(regular) + extra)
    requires forall p :: p in peers && p.interested && p !in interested ==> choking[p.id]
    ensures |Unchoked(peers, choking)| <= |regular| + |extra|
  {
    forall x | x in Unchoked(peers, choking) ensures x in Ids(regular) + extra {
      var p :| p in peers && p.interested && p.id in choking && !choking[p.id] && p.id == x;
      assert p in interested;
    }
    SubsetSize(Unchoked(peers, choking), Ids(regular) + extra);
    IdsSize(regular);
    assert Ids(regular) + extra == Ids(regular) + (extra - Ids(regular));
    SubsetSize(extra - Ids(regular), extra);
  }

  lemma SamePeer(peers: seq<Peer>, p: Peer, q: Peer)
    requires DistinctPeers(peers) && p in peers && q in peers && p.id == q.id
    ensures p == q
  {
  }

  /** Choking the snubbing interested peers chokes nobody who is not interested. */
  lemma NobodyElse(peers: seq<Peer>, now: nat, before: map<PeerId, bool>, after: map<PeerId, bool>)
    requires DistinctPeers(peers) && before.Keys == after.Keys && forall p :: p in peers ==> p.id in before
    requires forall x :: x in after && after[x] != before[x] ==>
               exists p :: p in peers && p.interested && Snubs(p, now) && p.id == x
    ensures forall p :: p in peers && !p.interested ==> after[p.id] == before[p.id]
  {
    hide Snubs;
    forall p | p in peers && !p.interested ensures after[p.id] == before[p.id] {
      if after[p.id] != before[p.id] {
        var q :| q in peers && q.interested && Snubs(q, now) && q.id == p.id;
        SamePeer(peers, p, q);
      }
    }
  }

  lemma NotRegular(peers: seq<Peer>, regular: seq<Peer>, p: Peer, now: nat)
    requires DistinctPeers(peers) && p in peers && Snubs(p, now)
    requires forall q :: q in regular ==> q in peers && !Snubs(q, now)
    ensures p.id !in Ids(regular)
  {
  }

  lemma HolderListed(interested: seq<Peer>, was: Option<PeerId>)
    ensures was.Some? && was.value in Ids(interested) ==> exists p :: p in interested && p.id == was.value
  {
  }

  lemma InIds(s: seq<Peer>)
    ensures forall p :: p in s ==> p.id in Ids(s)
  {
  }

  // ---- The pass ----

  /** A peer the optimistic slot may go to. */
  predicate Eligible(p: Peer, now: nat, choking: map<PeerId, bool>) {
    !Snubs(p, now) && p.id in choking && choking[p.id]
  }

  /** An interested peer that is not choked in this pass for snubbing us. */
  predicate MayKeep(p: Peer, now: nat, choking: map<PeerId, bool>)
    requires p.id in choking
  {
    p.interested && (choking[p.id] || !Snubs(p, now))
  }

  /** A peer that is not interested changes only if it loses the optimistic slot. */
  lemma Uninterested(peers: seq<Peer>, interested: seq<Peer>, before: map<PeerId, bool>, snubbed: map<PeerId, bool>,
                     after: map<PeerId, bool>, rotates: bool, was: Option<PeerId>)
    requires DistinctPeers(peers) && before.Keys == snubbed.Keys == after.Keys
    requires (forall p :: p in peers ==> p.id in before) && forall p :: p in interested ==> p in peers && p.interested
    requires forall p :: p in peers && !p.interested ==> snubbed[p.id] == before[p.id]
    requires forall x :: x in after && x !in Ids(interested) && after[x] != snubbed[x] ==> rotates && was == Some(x)
    ensures forall p :: p in peers && !p.interested && after[p.id] != before[p.id] ==> rotates && was == Some(p.id)
  {
    hide DistinctPeers, Ids;
    NotListed(peers, interested);
  }

  lemma KeptSlot(peers: seq<Peer>, interested: seq<Peer>, now: nat, before: map<PeerId, bool>, was: Option<PeerId>,
                 optimistic: Option<PeerId>, extra: set<PeerId>)
    requires forall p :: p in peers ==> p.id in before
    requires forall p :: p in peers && MayKeep(p, now, before) ==> p in interested
    requires optimistic == Held(was, interested) && extra == if optimistic.Some? then {optimistic.value} else {}
    ensures forall p :: p in peers && MayKeep(p, now, before) ==> (p.id in extra <==> was == Some(p.id))
  {
    hide MayKeep;
  }

  lemma NoSnubber(peers: seq<Peer>, interested: seq<Peer>, regular: seq<Peer>, extra: set<PeerId>, now: nat,
                  choking: map<PeerId, bool>, rotates: bool, was: Option<PeerId>)
    requires DistinctPeers(peers) && forall p :: p in peers ==> p.id in choking
    requires forall p :: p in interested ==> p in peers && choking[p.id] == (p.id !in Ids(regular) + extra)
    requires forall p :: p in peers && p.interested && p !in interested ==> choking[p.id]
    requires forall q :: q in regular ==> q in peers && !Snubs(q, now)
    requires rotates ==> forall x :: x in extra ==> exists p :: p in interested && !Snubs(p, now) && p.id == x
    requires !rotates ==> forall x :: x in extra ==> was == Some(x)
    ensures forall p :: p in peers && p.interested && Snubs(p, now) && !choking[p.id] ==> !rotates && was == Some(p.id)
  {
    hide Snubs, DistinctPeers, Ids;
    forall p | p in peers && p.interested && Snubs(p, now) && !choking[p.id] ensures !rotates && was == Some(p.id) {
      NotRegular(peers, regular, p, now);
      assert p.id in extra;
      if rotates {
        var q :| q in interested && !Snubs(q, now) && q.id == p.id;
        SamePeer(peers, p, q);
      }
    }
  }

  /** Between rotations the holder keeps the optimistic slot while it is interested. */
  function Held(optimistic: Option<PeerId>, interested: seq<Peer>): Option<PeerId> {
    if optimistic.Some? && optimistic.value in Ids(interested) then optimistic else None
  }

  class Choker {
    var choking: map<PeerId, bool>
    var counter: nat
    var optimistic: Option<PeerId>

    /** Chokes the interested peers that snub us; the others are candidates for a slot. */
    method ChokeSnubbers(peers: seq<Peer>, now: nat) returns (interested: seq<Peer>)
      requires DistinctPeers(peers) && forall p :: p in peers ==> p.id in choking
      modifies this`choking
      ensures choking.Keys == old(choking).Keys
      ensures forall p :: p in interested <==> p in peers && p.interested && (old(choking)[p.id] || !Snubs(p, now))
      ensures forall p :: p in peers && p.interested && p !in interested ==> choking[p.id]
      ensures forall x :: x in choking && choking[x] != old(choking)[x] ==>
                choking[x] && exists p :: p in peers && p.interested && Snubs(p, now) && p.id == x
    {
      interested := [];
      for n := 0 to |peers|
        invariant choking.Keys == old(choking).Keys
        invariant forall p :: p in interested <==>
                    p in peers[..n] && p.interested && (old(choking)[p.id] || !Snubs(p, now))
        invariant forall p :: p in peers[..n] && p.interested && p !in interested ==> choking[p.id]
        invariant forall i :: n <= i < |peers| ==> choking[peers[i].id] == old(choking)[peers[i].id]
        invariant forall x :: x in choking && choking[x] != old(choking)[x] ==>
                    choking[x] && exists p :: p in peers && p.interested && Snubs(p, now) && p.id == x
      {
        var p := peers[n];
        assert peers[..n + 1] == peers[..n] + [p];
        assert p in peers;
        if p.interested {
          if !choking[p.id] && Snubs(p, now) {
            choking := choking[p.id := true];
          } else {
            interested := interested + [p];
          }
        }
      }
      assert peers[..|peers|] == peers;
    }

    /** Gives slots to exactly the chosen among the interested. */
    method Apply(interested: seq<Peer>, chosen: set<PeerId>)
      requires forall p :: p in interested ==> p.id in choking
      modifies this`choking
      ensures choking.Keys == old(choking).Keys
      ensures forall p :: p in interested ==> choking[p.id] == (p.id !in chosen)
      ensures forall x :: x in choking && x !in Ids(interested) ==> choking[x] == old(choking)[x]
    {
      for n := 0 to |interested|
        invariant choking.Keys == old(choking).Keys
        invariant forall p :: p in interested[..n] ==> choking[p.id] == (p.id !in chosen)
        invariant forall x :: x in choking && x !in Ids(interested) ==> choking[x] == old(choking)[x]
      {
        var p := interested[n];
        assert interested[..n + 1] == interested[..n] + [p];
        assert p in interested;
        if p.id in chosen && choking[p.id] {
          choking := choking[p.id := false];
        } else if p.id !in chosen && !choking[p.id] {
          choking := choking[p.id := true];
        }
      }
      assert interested[..|interested|] == interested;
    }

    /**
     * The optimistic slot. Every third pass it rotates: the previous holder is choked unless it won a regular slot (`live`
     * tells whether that connection is still one of ours), and any choked peer that does not snub us may get it.
     */
    method Optimistic(interested: seq<Peer>, regular: seq<Peer>, now: nat, live: bool, choice: nat)
      returns (extra: set<PeerId>)
      requires forall p :: p in interested ==> p.id in choking
      requires live ==> optimistic.Some? && optimistic.value in choking
      modifies this`choking, this`optimistic
      ensures |extra| <= 1 && extra <= Ids(interested)
      ensures choking.Keys == old(choking).Keys
      ensures forall x :: x in choking && choking[x] != old(choking)[x] ==>
                counter % 3 == 0 && old(optimistic) == Some(x) && choking[x]
      ensures counter % 3 == 0 && live && old(optimistic).value !in Ids(regular) ==> choking[old(optimistic).value]
      ensures counter % 3 == 0 ==>
                && (forall x :: x in extra ==> optimistic == Some(x))
                && (forall x :: x in extra ==> exists p :: p in interested && Eligible(p, now, choking) && p.id == x)
                && (extra == {} ==> forall p :: p in interested ==> !Eligible(p, now, choking))
      ensures counter % 3 != 0 ==>
                && optimistic == Held(old(optimistic), interested)
                && extra == if optimistic.Some? then {optimistic.value} else {}
    {
      extra := {};
      if counter % 3 == 0 {
        if live && optimistic.value !in Ids(regular) && !choking[optimistic.value] {
          choking := choking[optimistic.value := true];
        }
        var candidates := Candidates(interested, now);
        if candidates != [] {
          var p := candidates[choice % |candidates|];
          assert p in candidates;
          optimistic := Some(p.id);
          extra := {p.id};
        }
      } else if optimistic.Some? {
        if optimistic.value in Ids(interested) {
          extra := {optimistic.value};
        } else {
          optimistic := None;
        }
      }
    }

    method Candidates(interested: seq<Peer>, now: nat) returns (r: seq<Peer>)
      requires forall p :: p in interested ==> p.id in choking
      ensures forall p :: p in r <==> p in interested && Eligible(p, now, choking)
    {
      r := [];
      for n := 0 to |interested|
        invariant forall p :: p in r <==> p in interested[..n] && !Snubs(p, now) && choking[p.id]
      {
        assert interested[..n + 1] == interested[..n] + [interested[n]];
        assert interested[n] in interested;
        if !Snubs(interested[n], now) && choking[interested[n].id] {
          r := r + [interested[n]];
        }
      }
      assert interested[..|interested|] == interested;
    }

    /** Chooses among the interested peers and gives out the slots. */
    method Assign(interested: seq<Peer>, now: nat, seed: bool, live: bool, choice: nat)
      returns (regular: seq<Peer>, extra: set<PeerId>)
      requires forall p :: p in interested ==> p.id in choking
      requires live ==> optimistic.Some? && optimistic.value in choking
      modifies this`choking, this`optimistic
      ensures choking.Keys == old(choking).Keys
      ensures forall p :: p in interested ==> choking[p.id] == (p.id !in Ids(regular) + extra)
      ensures forall x :: x in choking && x !in Ids(interested) && choking[x] != old(choking)[x] ==>
                counter % 3 == 0 && old(optimistic) == Some(x) && choking[x]
      ensures counter % 3 == 0 && live && old(optimistic).value !in Ids(regular) + extra ==> choking[old(optimistic).value]
      ensures |regular| <= UNCHOKE_SLOTS - 1 && forall p :: p in regular ==> p in interested && !Snubs(p, now)
      ensures forall p :: p in interested && !Snubs(p, now) && p !in regular ==>
                |regular| == UNCHOKE_SLOTS - 1 && forall q :: q in regular ==> Rate(p, seed) <= Rate(q, seed)
      ensures |extra| <= 1 && extra <= Ids(interested)
      ensures counter % 3 == 0 ==>
                && (forall x :: x in extra ==> optimistic == Some(x))
                && (forall x :: x in extra ==> exists p :: p in interested && !Snubs(p, now) && p.id == x)
                && (extra == {} ==> forall p :: p in interested && !Snubs(p, now) ==> !old(choking)[p.id])
      ensures counter % 3 != 0 ==>
                && optimistic == Held(old(optimistic), interested)
                && extra == if optimistic.Some? then {optimistic.value} else {}
    {
      hide Snubs, Rate, FastestFirst, Ids, Held;
      var ranked := SortByRate(interested, seed);
      regular := SelectRegular(ranked, seed, now, UNCHOKE_SLOTS - 1);
      extra := Optimistic(interested, regular, now, live, choice);
      ghost var offered := choking;
      Apply(interested, Ids(regular) + extra);
      InIds(interested);
      HolderListed(interested, old(optimistic));
    }

    /**
     * One pass over all connections. Afterwards at most UNCHOKE_SLOTS interested peers are unchoked; the peers with a
     * regular slot are unchoked and do not snub us; an interested peer that does not snub us is left choked only if all
     * regular slots are taken by peers at least as fast; and one that does snub us is unchoked only if it holds the
     * optimistic slot from an earlier pass.
     */
    method Pass(peers: seq<Peer>, now: nat, seed: bool, live: bool, choice: nat)
      returns (regular: seq<Peer>, ghost extra: set<PeerId>)
      requires DistinctPeers(peers) && forall p :: p in peers ==> p.id in choking
      requires live ==> optimistic.Some? && optimistic.value in choking
      modifies this
      ensures choking.Keys == old(choking).Keys
      ensures |Unchoked(peers, choking)| <= UNCHOKE_SLOTS
      ensures |regular| <= UNCHOKE_SLOTS - 1
      ensures forall q :: q in regular ==> q in peers && q.interested && !Snubs(q, now) && !choking[q.id]
      ensures forall p :: p in peers && p.interested && !Snubs(p, now) && choking[p.id] ==>
                |regular| == UNCHOKE_SLOTS - 1
                && forall q :: q in regular ==> if seed then p.uploaded <= q.uploaded else p.downloaded <= q.downloaded
      ensures forall p :: p in peers && p.interested && Snubs(p, now) && !choking[p.id] ==>
                counter % 3 != 0 && old(optimistic) == Some(p.id)
      ensures counter == old(counter) + 1
      ensures |extra| <= 1 && Unchoked(peers, choking) == Ids(regular) + extra
      ensures forall x :: x in extra && counter % 3 == 0 ==> optimistic == Some(x)
      ensures counter % 3 == 0 && extra == {} ==>
                forall p :: p in peers && p.interested && !Snubs(p, now) ==> !old(choking)[p.id]
      ensures counter % 3 != 0 ==> forall p :: p in peers && MayKeep(p, now, old(choking)) ==>
                (p.id in extra <==> old(optimistic) == Some(p.id))
      ensures forall p :: p in peers && !p.interested && choking[p.id] != old(choking)[p.id] ==>
                counter % 3 == 0 && old(optimistic) == Some(p.id)
    {
      hide Snubs, DistinctPeers, Ids, Unchoked;
      counter := counter + 1;
      regular, extra := [], {};
      var interested := ChokeSnubbers(peers, now);
      if interested == [] {
        NobodyListed(peers, choking);
        NobodyChosen(peers, choking);
        NobodyElse(peers, now, old(choking), choking);
        return;
      }
      ghost var snubbed := choking;
      NobodyElse(peers, now, old(choking), snubbed);
      ghost var slot;
      regular, slot := Assign(interested, now, seed, live, choice);
      extra := slot;
      NotListed(peers, interested);
      InIds(regular);
      AtMostTheChosen(peers, interested, regular, extra, choking);
      ExactlyTheChosen(peers, interested, regular, extra, choking);
      Uninterested(peers, interested, old(choking), snubbed, choking, counter % 3 == 0, old(optimistic));
      if counter % 3 != 0 {
        KeptSlot(peers, interested, now, old(choking), old(optimistic), optimistic, extra);
      }
      NoSnubber(peers, interested, regular, extra, now, choking, counter % 3 == 0, old(optimistic));
    }
  }
}

/** The rarity index: for each availability, the pieces that this many peers have. */
module Rarity {
  import opened Bytes
  import opened PieceStatus

  const IN_PROGRESS_GROUP: nat := 0xFFFF_FFFF

  type Groups = map<nat, set<nat>>

  type Peer = nat

  predicate In(groups: Groups, g: nat, p: nat) {
    g in groups && p in groups[g]
  }

  // ---- Moving a piece between groups ----

  function Without(groups: Groups, p: nat, g: nat): Groups {
    if g !in groups then groups
    else if groups[g] - {p} == {} then groups - {g}
    else groups[g := groups[g] - {p}]
  }

  function With(groups: Groups, p: nat, g: nat): Groups {
    groups[g := (if g in groups then groups[g] else {}) + {p}]
  }

  /** update_piece_rarity */
  function Moved(groups: Groups, p: nat, from: nat, to: nat): Groups {
    With(Without(groups, p, from), p, to)
  }

  lemma MovedIn(groups: Groups, p: nat, from: nat, to: nat, g: nat, q: nat)
    ensures In(Moved(groups, p, from, to), g, q) <==>
              if q == p then g == to || (g != from && In(groups, g, p)) else In(groups, g, q)
  {
  }

  /** No empty group stays, and groups hold only pieces of the torrent. */
  ghost predicate Tidy(groups: Groups, n: nat) {
    forall g :: g in groups ==> groups[g] != {} && forall p :: p in groups[g] ==> p < n
  }

  lemma MovedTidy(groups: Groups, p: nat, from: nat, to: nat, n: nat)
    requires Tidy(groups, n) && p < n
    ensures Tidy(Moved(groups, p, from, to), n)
  {
  }

  // ---- Where the index has a piece ----

  /** A needed piece that somebody has is in the group of its availability. */
  predicate Listed(groups: Groups, p: nat, status: Status, avail: nat) {
    status == Needed && avail > 0 ==> In(groups, avail, p)
  }

  /** No group other than those of its availability and of the pieces in progress has p. */
  ghost predicate NoOther(groups: Groups, p: nat, avail: nat) {
    forall g :: In(groups, g, p) ==> g == avail || g == IN_PROGRESS_GROUP
  }

  /** A needed piece is in the group of its availability and in no other. */
  ghost predicate Exact(groups: Groups, p: nat, status: Status, avail: nat) {
    status == Needed ==> forall g :: In(groups, g, p) <==> g == avail
  }

  ghost predicate AllListed(groups: Groups, status: seq<Status>, avail: seq<nat>) {
    |status| == |avail| && forall p :: 0 <= p < |status| ==> Listed(groups, p, status[p], avail[p])
  }

  ghost predicate AllCurrent(groups: Groups, status: seq<Status>, avail: seq<nat>) {
    |status| == |avail| && forall p :: 0 <= p < |status| && status[p] != Have ==> NoOther(groups, p, avail[p])
  }

  ghost predicate AllExact(groups: Groups, status: seq<Status>, avail: seq<nat>) {
    |status| == |avail| && forall p :: 0 <= p < |status| ==> Exact(groups, p, status[p], avail[p])
  }

  /** Everything known of the index: without condition, while current, and while exact. */
  ghost predicate IndexOk(groups: Groups, status: seq<Status>, avail: seq<nat>, current: bool, exact: bool) {
    && AllListed(groups, status, avail)
    && (current ==> AllCurrent(groups, status, avail))
    && (exact ==> current && AllExact(groups, status, avail))
  }

  lemma OtherPiece(groups: Groups, p: nat, from: nat, to: nat, q: nat)
    requires q != p
    ensures forall g: nat :: In(Moved(groups, p, from, to), g, q) <==> In(groups, g, q)
  {
    forall g: nat ensures In(Moved(groups, p, from, to), g, q) <==> In(groups, g, q) {
      MovedIn(groups, p, from, to, g, q);
    }
  }

  lemma ThisPiece(groups: Groups, p: nat, from: nat, to: nat)
    ensures forall g: nat :: In(Moved(groups, p, from, to), g, p) <==> g == to || (g != from && In(groups, g, p))
  {
    forall g: nat ensures In(Moved(groups, p, from, to), g, p) <==> g == to || (g != from && In(groups, g, p)) {
      MovedIn(groups, p, from, to, g, p);
    }
  }

  /** A move of p between groups, with a new status and availability of p, is right if it is right for p. */
  lemma MoveOk(groups: Groups, status: seq<Status>, avail: seq<nat>, current: bool, exact: bool,
               p: nat, from: nat, to: nat, x: Status, a: nat, current': bool, exact': bool)
    requires IndexOk(groups, status, avail, current, exact) && p < |status|
    requires (current' ==> current) && (exact' ==> exact && current')
    requires var r := Moved(groups, p, from, to);
             && Listed(r, p, x, a)
             && (current' && x != Have ==> NoOther(r, p, a))
             && (exact' ==> Exact(r, p, x, a))
    ensures IndexOk(Moved(groups, p, from, to), status[p := x], avail[p := a], current', exact')
  {
    hide Moved;
    var r, s', a' := Moved(groups, p, from, to), status[p := x], avail[p := a];
    forall q | 0 <= q < |status| && q != p
      ensures Listed(r, q, s'[q], a'[q])
      ensures current && s'[q] != Have ==> NoOther(r, q, a'[q])
      ensures exact ==> Exact(r, q, s'[q], a'[q])
    {
      OtherPiece(groups, p, from, to, q);
      assert Listed(groups, q, status[q], avail[q]);
      assert exact ==> Exact(groups, q, status[q], avail[q]);
    }
  }

  /** A change of availability keeps the index as right as it was. */
  lemma AvailabilityChange(groups: Groups, status: seq<Status>, avail: seq<nat>, current: bool, exact: bool,
                           p: nat, to: nat)
    requires IndexOk(groups, status, avail, current, exact) && p < |status|
    ensures IndexOk(Moved(groups, p, avail[p], to), status, avail[p := to], current, exact)
  {
    hide Moved;
    ThisPiece(groups, p, avail[p], to);
    assert exact ==> Exact(groups, p, status[p], avail[p]);
    MoveOk(groups, status, avail, current, exact, p, avail[p], to, status[p], to, current, exact);
    assert status[p := status[p]] == status;
  }

  /**
   * A starter goes on with p, whatever its status is by then: the index stays current if and only if no other group has p.
   * That is so whenever p is not Have.
   */
  lemma ProceedChange(groups: Groups, status: seq<Status>, avail: seq<nat>, current: bool, exact: bool, p: nat)
    requires IndexOk(groups, status, avail, current, exact) && p < |status|
    ensures var only := NoOther(groups, p, avail[p]);
            IndexOk(Moved(groups, p, avail[p], IN_PROGRESS_GROUP), status[p := InProgress], avail,
                    current && only, exact && only)
    ensures current ==>
              (AllCurrent(Moved(groups, p, avail[p], IN_PROGRESS_GROUP), status[p := InProgress], avail) <==>
               NoOther(groups, p, avail[p]))
    ensures current && status[p] != Have ==> NoOther(groups, p, avail[p])
  {
    hide Moved;
    var only, r := NoOther(groups, p, avail[p]), Moved(groups, p, avail[p], IN_PROGRESS_GROUP);
    ThisPiece(groups, p, avail[p], IN_PROGRESS_GROUP);
    MoveOk(groups, status, avail, current, exact, p, avail[p], IN_PROGRESS_GROUP, InProgress, avail[p],
           current && only, exact && only);
    assert avail[p := avail[p]] == avail;
    if AllCurrent(r, status[p := InProgress], avail) {
      assert NoOther(r, p, avail[p]);
    }
  }

  /** Likewise a return to the queue, whatever happened to the availability in between. */
  lemma ReturnChange(groups: Groups, status: seq<Status>, avail: seq<nat>, current: bool, exact: bool, p: nat)
    requires IndexOk(groups, status, avail, current, exact) && p < |status|
    ensures var only := NoOther(groups, p, avail[p]);
            IndexOk(Moved(groups, p, IN_PROGRESS_GROUP, avail[p]), status[p := Needed], avail,
                    current && only, exact && only)
    ensures current && status[p] != Have ==> NoOther(groups, p, avail[p])
  {
    hide Moved;
    var only := NoOther(groups, p, avail[p]);
    ThisPiece(groups, p, IN_PROGRESS_GROUP, avail[p]);
    MoveOk(groups, status, avail, current, exact, p, IN_PROGRESS_GROUP, avail[p], Needed, avail[p],
           current && only, exact && only);
    assert avail[p := avail[p]] == avail;
  }

  /** A finished piece is not looked for in the index. */
  lemma FinishChange(groups: Groups, status: seq<Status>, avail: seq<nat>, current: bool, exact: bool, p: nat, a: nat)
    requires IndexOk(groups, status, avail, current, exact) && p < |status|
    ensures IndexOk(groups, status[p := Have], avail[p := a], current, exact)
  {
  }

  // ---- Who has a piece ----

  function Holders(conns: map<Peer, set<nat>>, p: nat): set<Peer> {
    set c | c in conns && p in conns[c]
  }

  function AllPieces(n: nat): (r: set<nat>)
    ensures forall p :: p in r <==> 0 <= p < n
  {
    if n == 0 then {} else AllPieces(n - 1) + {n - 1}
  }

  function One(b: bool): nat {
    if b then 1 else 0
  }

  lemma HoldersUpdate(conns: map<Peer, set<nat>>, c: Peer, bits: set<nat>, p: nat)
    requires c in conns
    ensures |Holders(conns[c := bits], p)| == |Holders(conns, p)| - One(p in conns[c]) + One(p in bits)
  {
    var a, b := Holders(conns, p), Holders(conns[c := bits], p);
    assert a - {c} == b - {c};
    OneLess(a, c);
    OneLess(b, c);
  }

  lemma OneLess(s: set<Peer>, c: Peer)
    ensures |s - {c}| == |s| - One(c in s)
  {
  }

  lemma HoldersRemove(conns: map<Peer, set<nat>>, c: Peer, p: nat)
    requires c in conns
    ensures |Holders(conns - {c}, p)| == |Holders(conns, p)| - One(p in conns[c])
  {
    assert Holders(conns - {c}, p) == Holders(conns, p) - {c};
  }

  lemma HoldersAdd(conns: map<Peer, set<nat>>, c: Peer, p: nat)
    requires c !in conns
    ensures Holders(conns[c := {}], p) == Holders(conns, p)
  {
  }

  /**
   * The availability of each piece is the number of connected peers that have it, plus what redundant announcements
   * added (repeats, and bitfields that take back an earlier announcement), less what repeated disconnects took away.
   */
  ghost predicate Counted(avail: seq<nat>, conns: map<Peer, set<nat>>, surplus: seq<int>, repeated: bool) {
    && |avail| == |surplus|
    && (forall p :: 0 <= p < |avail| ==> avail[p] == |Holders(conns, p)| + surplus[p])
    && (!repeated ==> forall p :: 0 <= p < |avail| ==> surplus[p] >= 0)
  }

  lemma CountedHolder(avail: seq<nat>, conns: map<Peer, set<nat>>, surplus: seq<int>, c: Peer, p: nat)
    requires Counted(avail, conns, surplus, false) && c in conns && p in conns[c] && p < |avail|
    ensures avail[p] >= 1
  {
    assert c in Holders(conns, p);
  }

  // ---- The index as the client keeps it ----

  class PieceManager {
    var status: seq<Status>
    var avail: seq<nat>
    var groups: Groups
    var conns: map<Peer, set<nat>>

    // The pieces of connections that are gone; both loops of a connection report its end.
    var gone: map<Peer, set<nat>>

    // Starters that found the piece needed and are looking for peers.
    var starting: multiset<nat>

    ghost var surplus: seq<int>
    ghost var repeated: bool
    ghost var current: bool
    ghost var exact: bool

    /** What there is to know without the index. */
    ghost function View(): Ledger
      reads this
    {
      Ledger(status, avail, conns, gone, starting)
    }

    ghost predicate Valid()
      reads this
    {
      && IndexOk(groups, status, avail, current, exact)
      && Tidy(groups, |status|)
      && Counted(avail, conns, surplus, repeated)
    }

    /**
     * Start-up, before any peer is connected. The index is built on the statuses as loaded, or not at all if the resume
     * file is unusable; verification then changes statuses and leaves the index alone.
     */
    constructor (loaded: seq<Status>, built: bool, verified: seq<Status>)
      requires |verified| == |loaded| && (forall p :: 0 <= p < |loaded| ==> MayBecome(loaded[p], verified[p]))
      ensures Valid() && status == verified && avail == seq(|loaded|, _ => 0) && conns == map[] && starting == multiset{}
      ensures gone == map[] && !repeated && StartIndex(groups, loaded, built)
      ensures current && (exact <==> StartExact(loaded, built, verified))
    {
      status, avail, surplus := verified, seq(|loaded|, _ => 0), seq(|loaded|, _ => 0);
      conns, gone, starting, repeated := map[], map[], multiset{}, false;
      var g: Groups := map[];
      if built {
        g := BuildGroups(loaded);
      }
      groups := g;
      current, exact := true, StartExact(loaded, built, verified);
      StartUpIff(g, loaded, built, verified, seq(|loaded|, _ => 0));
    }

    /** One more peer has piece i. */
    method Announce(i: nat)
      requires IndexOk(groups, status, avail, current, exact) && Tidy(groups, |status|) && i < |status|
      modifies this`avail, this`groups
      ensures IndexOk(groups, status, avail, current, exact) && Tidy(groups, |status|)
      ensures avail == old(avail)[i := old(avail[i]) + 1]
      ensures groups == if status[i] == Have then old(groups) else Moved(old(groups), i, old(avail[i]), old(avail[i]) + 1)
    {
      hide IndexOk, Moved;
      IndexLengths(groups, status, avail, current, exact);
      if status[i] == Have {
        FinishChange(groups, status, avail, current, exact, i, avail[i] + 1);
        assert status[i := Have] == status;
        avail := avail[i := avail[i] + 1];
        return;
      }
      var from := avail[i];
      AvailabilityChange(groups, status, avail, current, exact, i, from + 1);
      MovedTidy(groups, i, from, from + 1, |status|);
      avail := avail[i := from + 1];
      groups := Moved(groups, i, from, from + 1);
    }

    method Connect(c: Peer)
      requires Valid() && c !in conns
      modifies this`conns
      ensures Valid() && conns == old(conns)[c := {}]
    {
      hide IndexOk, Tidy;
      forall p: nat ensures Holders(conns[c := {}], p) == Holders(conns, p) {
        HoldersAdd(conns, c, p);
      }
      conns := conns[c := {}];
    }

    lemma LengthsAgree()
      requires Valid()
      ensures |status| == |avail| == |surplus|
    {
    }

    /** on_peer_has_piece */
    method OnPeerHasPiece(c: Peer, p: nat)
      requires Valid() && c in conns
      modifies this`avail, this`groups, this`conns, this`surplus
      ensures Valid()
      ensures p >= |status| ==> conns == old(conns) && avail == old(avail) && groups == old(groups) && surplus == old(surplus)
      ensures p < |status| ==>
                && conns == old(conns)[c := old(conns[c]) + {p}]
                && avail == old(avail)[p := old(avail[p]) + 1]
                && groups == (if status[p] == Have then old(groups)
                              else Moved(old(groups), p, old(avail[p]), old(avail[p]) + 1))
                && surplus == old(surplus)[p := old(surplus[p]) + One(p in old(conns[c]))]
    {
      hide IndexOk, Tidy, Holders, Moved;
      LengthsAgree();
      if p >= |status| {
        return;
      }
      var bits := conns[c] + {p};
      forall q: nat ensures |Holders(conns[c := bits], q)| == |Holders(conns, q)| - One(q in conns[c]) + One(q in bits) {
        HoldersUpdate(conns, c, bits, q);
      }
      surplus := surplus[p := surplus[p] + One(p in conns[c])];
      conns := conns[c := bits];
      Announce(p);
    }

    /** One increment for every piece in bits. */
    method AnnounceAll(bits: set<nat>)
      requires IndexOk(groups, status, avail, current, exact) && Tidy(groups, |status|) && |status| == |avail|
      modifies this`avail, this`groups
      ensures IndexOk(groups, status, avail, current, exact) && Tidy(groups, |status|) && |avail| == |old(avail)|
      ensures forall p :: 0 <= p < |status| ==> avail[p] == old(avail[p]) + One(p in bits)
    {
      hide IndexOk, Tidy, Moved;
      for i := 0 to |status|
        invariant IndexOk(groups, status, avail, current, exact) && Tidy(groups, |status|) && |avail| == |old(avail)|
        invariant forall p :: 0 <= p < |status| ==> avail[p] == old(avail[p]) + if p < i && p in bits then 1 else 0
      {
        if i in bits {
          Announce(i);
        }
      }
    }

    /** on_peer_bitfield (with a bitfield of the right size) and on_peer_has_all: the peer's pieces are replaced. */
    method OnPeerBitfield(c: Peer, bits: set<nat>)
      requires Valid() && c in conns
      modifies this`avail, this`groups, this`conns, this`surplus
      ensures Valid() && conns == old(conns)[c := bits]
      ensures forall p :: 0 <= p < |status| ==> avail[p] == old(avail[p]) + One(p in bits)
      ensures forall p :: 0 <= p < |status| ==> surplus[p] == old(surplus[p]) + One(p in old(conns[c]))
    {
      hide IndexOk, Tidy, Holders, Counted;
      LengthsAgree();
      ghost var was := avail;
      AnnounceAll(bits);
      CountedReplaced(was, avail, conns, surplus, repeated, c, bits);
      surplus := Raised(surplus, conns[c]);
      conns := conns[c := bits];
    }

    /** on_peer_has_all */
    method OnPeerHasAll(c: Peer)
      requires Valid() && c in conns
      modifies this`avail, this`groups, this`conns, this`surplus
      ensures Valid() && conns == old(conns)[c := AllPieces(|status|)]
      ensures forall p :: 0 <= p < |status| ==> avail[p] == old(avail[p]) + 1
    {
      hide IndexOk, Tidy;
      OnPeerBitfield(c, AllPieces(|status|));
    }

    /** One decrement for every piece of a connection. */
    method Withdraw(bits: set<nat>)
      requires IndexOk(groups, status, avail, current, exact) && Tidy(groups, |status|) && |status| == |avail|
      requires forall p :: 0 <= p < |status| && p in bits ==> avail[p] >= 1
      modifies this`avail, this`groups
      ensures IndexOk(groups, status, avail, current, exact) && Tidy(groups, |status|) && |avail| == |old(avail)|
      ensures forall p :: 0 <= p < |status| ==> avail[p] == old(avail[p]) - One(p in bits)
    {
      hide IndexOk, Moved, Tidy;
      for i := 0 to |status|
        invariant IndexOk(groups, status, avail, current, exact) && Tidy(groups, |status|) && |avail| == |old(avail)|
        invariant forall p :: 0 <= p < |status| ==> avail[p] == old(avail[p]) - if p < i && p in bits then 1 else 0
      {
        if i in bits {
          var from := avail[i];
          AvailabilityChange(groups, status, avail, current, exact, i, from - 1);
          MovedTidy(groups, i, from, from - 1, |status|);
          avail := avail[i := from - 1];
          groups := Moved(groups, i, from, from - 1);
        }
      }
    }

    /**
     * The availability part of on_disconnect, for a connection that ends or whose end was reported before. The result tells
     * whether no availability goes below zero, which for the first report of each connection is always so; if one does, the
     * original wraps around, and the model stops there.
     */
    method OnDisconnect(c: Peer) returns (inRange: bool)
      requires Valid() && (c in conns || c in gone)
      modifies this`avail, this`groups, this`conns, this`gone, this`surplus, this`repeated
      ensures Valid()
      ensures var bits := if c in old(conns) then old(conns)[c] else old(gone)[c];
              && (inRange <==> forall p :: 0 <= p < |status| && p in bits ==> old(avail[p]) >= 1)
              && (inRange ==> forall p :: 0 <= p < |status| ==> avail[p] == old(avail[p]) - One(p in bits))
      ensures repeated == (old(repeated) || c !in old(conns)) && (inRange ==> conns == old(conns) - {c})
      ensures c in old(conns) && !old(repeated) ==> inRange
      ensures inRange ==> gone == old(gone)[c := if c in old(conns) then old(conns)[c] else old(gone)[c]]
      ensures !inRange ==> avail == old(avail) && conns == old(conns) && groups == old(groups) && gone == old(gone)
    {
      hide IndexOk, Moved, Holders, Tidy, Counted;
      LengthsAgree();
      var first := c in conns;
      var bits := if first then conns[c] else gone[c];
      if first && !repeated {
        forall p | 0 <= p < |status| && p in bits ensures avail[p] >= 1 {
          CountedHolder(avail, conns, surplus, c, p);
        }
      }
      if exists p :: 0 <= p < |status| && p in bits && avail[p] == 0 {
        CountedAnyway(avail, conns, surplus, repeated);
        repeated := repeated || !first;
        return false;
      }
      ghost var was := avail;
      Withdraw(bits);
      if first {
        CountedFirst(was, avail, conns, surplus, repeated, c);
      } else {
        CountedAgain(was, avail, conns, surplus, repeated, bits);
        surplus := Lowered(surplus, bits);
        repeated := true;
        assert conns - {c} == conns;
      }
      conns := conns - {c};
      gone := gone[c := bits];
      return true;
    }

    /** try_piece_download up to its peer lookup. */
    method TestNeeded(p: nat) returns (go: bool)
      requires Valid() && p < |status|
      modifies this`starting
      ensures Valid() && go == (status[p] == Needed)
      ensures starting == if go then old(starting) + multiset{p} else old(starting)
    {
      hide IndexOk, Tidy;
      go := status[p] == Needed;
      if go {
        starting := starting + multiset{p};
      }
    }

    /** The index part of try_piece_download after its peer lookup; the status is not looked at again. */
    method Pick(p: nat)
      requires Valid() && p < |status| && p in starting
      modifies this`starting, this`status, this`groups, this`current, this`exact
      ensures Valid() && status == old(status)[p := InProgress] && starting == old(starting) - multiset{p}
      ensures groups == Moved(old(groups), p, avail[p], IN_PROGRESS_GROUP)
      ensures current <==> old(current) && NoOther(old(groups), p, avail[p])
      ensures exact <==> old(exact) && NoOther(old(groups), p, avail[p])
      ensures old(status[p]) != Have ==> current == old(current) && exact == old(exact)
    {
      hide IndexOk, Moved, NoOther, Tidy, Counted;
      IndexLengths(groups, status, avail, current, exact);
      ProceedChange(groups, status, avail, current, exact, p);
      MovedTidy(groups, p, avail[p], IN_PROGRESS_GROUP, |status|);
      ExactIsCurrent(groups, status, avail, current, exact);
      starting := starting - multiset{p};
      current, exact := current && NoOther(groups, p, avail[p]), exact && NoOther(groups, p, avail[p]);
      status := status[p := InProgress];
      groups := Moved(groups, p, avail[p], IN_PROGRESS_GROUP);
    }

    method GiveUp(p: nat)
      requires Valid() && p in starting
      modifies this`starting
      ensures Valid() && starting == old(starting) - multiset{p}
    {
      hide IndexOk, Tidy;
      starting := starting - multiset{p};
    }

    /** return_piece_to_queue */
    method Return(p: nat)
      requires Valid() && p < |status|
      modifies this`status, this`groups, this`current, this`exact
      ensures Valid() && status == old(status)[p := Needed]
      ensures groups == Moved(old(groups), p, IN_PROGRESS_GROUP, avail[p])
      ensures current <==> old(current) && NoOther(old(groups), p, avail[p])
      ensures exact <==> old(exact) && NoOther(old(groups), p, avail[p])
      ensures old(status[p]) != Have ==> current == old(current) && exact == old(exact)
    {
      hide IndexOk, Moved, NoOther, Tidy, Counted;
      IndexLengths(groups, status, avail, current, exact);
      ReturnChange(groups, status, avail, current, exact, p);
      MovedTidy(groups, p, IN_PROGRESS_GROUP, avail[p], |status|);
      ExactIsCurrent(groups, status, avail, current, exact);
      current, exact := current && NoOther(groups, p, avail[p]), exact && NoOther(groups, p, avail[p]);
      status := status[p := Needed];
      groups := Moved(groups, p, IN_PROGRESS_GROUP, avail[p]);
    }

    /** A piece is finished; the index is not touched. */
    method Complete(p: nat)
      requires Valid() && p < |status|
      modifies this`status
      ensures Valid() && status == old(status)[p := Have]
    {
      hide IndexOk, Tidy;
      LengthsAgree();
      FinishChange(groups, status, avail, current, exact, p, avail[p]);
      assert avail[p := avail[p]] == avail;
      status := status[p := Have];
    }

    /**
     * The rarest-first scan: the candidates in the order they are tried, each with its group, until one can be downloaded.
     * Every needed piece that somebody has is tried.
     */
    method Scan() returns (order: seq<(nat, nat)>)
      requires Valid()
      ensures InOrder(order, groups, {})
      ensures forall p :: 0 <= p < |status| && status[p] == Needed && avail[p] > 0 ==> (avail[p], p) in order
      ensures current ==> RarestFirst(order, status, avail)
      ensures exact ==> EachOnce(order, status, avail)
    {
      hide Counted, IndexOk, Tidy;
      order := [];
      var keys := groups.Keys;
      while keys != {}
        invariant keys <= groups.Keys
        invariant InOrder(order, groups, keys)
        decreases |keys|
      {
        var g := Least(keys);
        var rest := keys - {g};
        if g != 0 {
          var candidates := AnyOrder(groups[g]);
          NextGroup(order, groups, keys, g, candidates);
          order := order + seq(|candidates|, i requires 0 <= i < |candidates| => (g, candidates[i]));
        } else {
          SkipZero(order, groups, keys);
        }
        keys := rest;
      }
      ScanFinds(order, groups, status, avail, current, exact);
    }
  }

  ghost function Lowered(surplus: seq<int>, bits: set<nat>): (r: seq<int>)
    ensures |r| == |surplus| && forall p :: 0 <= p < |r| ==> r[p] == surplus[p] - One(p in bits)
  {
    seq(|surplus|, p requires 0 <= p < |surplus| => surplus[p] - One(p in bits))
  }

  ghost function Raised(surplus: seq<int>, bits: set<nat>): (r: seq<int>)
    ensures |r| == |surplus| && forall p :: 0 <= p < |r| ==> r[p] == surplus[p] + One(p in bits)
  {
    seq(|surplus|, p requires 0 <= p < |surplus| => surplus[p] + One(p in bits))
  }

  lemma CountedReplaced(was: seq<nat>, avail: seq<nat>, conns: map<Peer, set<nat>>, surplus: seq<int>, repeated: bool,
                        c: Peer, bits: set<nat>)
    requires Counted(was, conns, surplus, repeated) && c in conns && |avail| == |was|
    requires forall p :: 0 <= p < |was| ==> avail[p] == was[p] + One(p in bits)
    ensures Counted(avail, conns[c := bits], Raised(surplus, conns[c]), repeated)
  {
    hide Holders;
    forall p | 0 <= p < |avail| ensures avail[p] == |Holders(conns[c := bits], p)| + Raised(surplus, conns[c])[p] {
      HoldersUpdate(conns, c, bits, p);
    }
  }

  lemma CountedFirst(was: seq<nat>, avail: seq<nat>, conns: map<Peer, set<nat>>, surplus: seq<int>, repeated: bool, c: Peer)
    requires Counted(was, conns, surplus, repeated) && c in conns && |avail| == |was|
    requires forall p :: 0 <= p < |was| ==> avail[p] == was[p] - One(p in conns[c])
    ensures Counted(avail, conns - {c}, surplus, repeated)
  {
    hide Holders;
    forall p | 0 <= p < |avail| ensures avail[p] == |Holders(conns - {c}, p)| + surplus[p] {
      HoldersRemove(conns, c, p);
    }
  }

  lemma CountedAnyway(avail: seq<nat>, conns: map<Peer, set<nat>>, surplus: seq<int>, repeated: bool)
    requires Counted(avail, conns, surplus, repeated)
    ensures Counted(avail, conns, surplus, true)
  {
  }

  lemma CountedAgain(was: seq<nat>, avail: seq<nat>, conns: map<Peer, set<nat>>, surplus: seq<int>, repeated: bool,
                     bits: set<nat>)
    requires Counted(was, conns, surplus, repeated) && |avail| == |was|
    requires forall p :: 0 <= p < |was| ==> avail[p] == was[p] - One(p in bits)
    ensures Counted(avail, conns, Lowered(surplus, bits), true)
  {
    hide Holders;
  }

  lemma IndexLengths(groups: Groups, status: seq<Status>, avail: seq<nat>, current: bool, exact: bool)
    requires IndexOk(groups, status, avail, current, exact)
    ensures |status| == |avail|
  {
  }

  lemma ExactIsCurrent(groups: Groups, status: seq<Status>, avail: seq<nat>, current: bool, exact: bool)
    requires IndexOk(groups, status, avail, current, exact)
    ensures exact ==> current
  {
  }

  datatype Event =
    | Connected(c: Peer)
    | HasPiece(c: Peer, p: nat)
    | Bits(c: Peer, bits: set<nat>)
    | HasAll(c: Peer)
    | Disconnected(c: Peer)
    | Tested(p: nat)
    | GaveUp(p: nat)
    | WentOn(p: nat)
    | Returned(p: nat)
    | Finished(p: nat)

  /** The bookkeeping without the index. */
  datatype Ledger = Ledger(status: seq<Status>, avail: seq<nat>, conns: map<Peer, set<nat>>, gone: map<Peer, set<nat>>,
                           starting: multiset<nat>)

  function Plus(avail: seq<nat>, bits: set<nat>): seq<nat> {
    seq(|avail|, p requires 0 <= p < |avail| => avail[p] + One(p in bits))
  }

  predicate CanWithdraw(avail: seq<nat>, bits: set<nat>) {
    forall p :: 0 <= p < |avail| && p in bits ==> avail[p] >= 1
  }

  function Minus(avail: seq<nat>, bits: set<nat>): seq<nat>
    requires CanWithdraw(avail, bits)
  {
    seq(|avail|, p requires 0 <= p < |avail| => avail[p] - One(p in bits))
  }

  /** A peer says what it has: its pieces are replaced, and each of them counts. */
  function Announced(v: Ledger, c: Peer, bits: set<nat>): Ledger {
    if c in v.conns then v.(conns := v.conns[c := bits], avail := Plus(v.avail, bits)) else v
  }

  /** What one event does, if nobody is at that point nothing; None if an availability would go below zero. */
  function Follow(v: Ledger, e: Event): Option<Ledger> {
    match e
    case Connected(c) => Some(if c in v.conns then v else v.(conns := v.conns[c := {}]))
    case HasPiece(c, p) =>
      Some(if c in v.conns && p < |v.avail|
           then v.(conns := v.conns[c := v.conns[c] + {p}], avail := v.avail[p := v.avail[p] + 1]) else v)
    case Bits(c, bits) => Some(Announced(v, c, bits))
    case HasAll(c) => Some(Announced(v, c, AllPieces(|v.status|)))
    case Disconnected(c) =>
      if c !in v.conns && c !in v.gone then Some(v)
      else
        var bits := if c in v.conns then v.conns[c] else v.gone[c];
        if CanWithdraw(v.avail, bits)
        then Some(v.(conns := v.conns - {c}, gone := v.gone[c := bits], avail := Minus(v.avail, bits))) else None
    case Tested(p) =>
      Some(if p < |v.status| && v.status[p] == Needed then v.(starting := v.starting + multiset{p}) else v)
    case GaveUp(p) => Some(if p in v.starting then v.(starting := v.starting - multiset{p}) else v)
    case WentOn(p) =>
      Some(if p < |v.status| && p in v.starting
           then v.(starting := v.starting - multiset{p}, status := v.status[p := InProgress]) else v)
    case Returned(p) => Some(if p < |v.status| then v.(status := v.status[p := Needed]) else v)
    case Finished(p) => Some(if p < |v.status| then v.(status := v.status[p := Have]) else v)
  }

  /** The event goes on with, or returns, a piece that has become Have. */
  predicate Overwrites(v: Ledger, e: Event) {
    && (e.WentOn? || e.Returned?) && e.p < |v.status| && v.status[e.p] == Have
    && (e.WentOn? ==> e.p in v.starting)
  }

  function Follows(v: Ledger, events: seq<Event>): Option<Ledger> {
    if events == [] then Some(v)
    else
      var b := Follows(v, events[..|events| - 1]);
      if b.Some? then Follow(b.value, events[|events| - 1]) else None
  }

  function Overwritten(v: Ledger, events: seq<Event>): nat {
    if events == [] then 0
    else
      var b := Follows(v, events[..|events| - 1]);
      Overwritten(v, events[..|events| - 1])
      + (if b.Some? && Overwrites(b.value, events[|events| - 1]) then 1 else 0)
  }

  lemma FollowsMore(v: Ledger, events: seq<Event>, k: nat)
    requires k < |events|
    ensures Follows(v, events[..k + 1]) ==
            if Follows(v, events[..k]).Some? then Follow(Follows(v, events[..k]).value, events[k]) else None
    ensures Overwritten(v, events[..k + 1]) == Overwritten(v, events[..k]) +
            if Follows(v, events[..k]).Some? && Overwrites(Follows(v, events[..k]).value, events[k]) then 1 else 0
  {
    hide Follow, Overwrites;
    assert events[..k + 1][..k] == events[..k];
  }

  lemma {:induction false} StopsThere(v: Ledger, events: seq<Event>, k: nat)
    requires k <= |events| && Follows(v, events[..k]).None?
    ensures Follows(v, events).None? && Overwritten(v, events) == Overwritten(v, events[..k])
    decreases |events| - k
  {
    hide Follow, Overwrites;
    if k < |events| {
      FollowsMore(v, events, k);
      StopsThere(v, events, k + 1);
    } else {
      assert events[..k] == events;
    }
  }

  lemma SameSeq(a: seq<nat>, b: seq<nat>)
    requires |a| == |b| && forall p :: 0 <= p < |a| ==> a[p] == b[p]
    ensures a == b
  {
  }

  /** What peers say: the index follows the bookkeeping. */
  method HandlePeer(m: PieceManager, e: Event) returns (inRange: bool)
    requires m.Valid() && (e.Connected? || e.HasPiece? || e.Bits? || e.HasAll? || e.Disconnected?)
    modifies m
    ensures m.Valid() && m.current == old(m.current) && m.exact == old(m.exact)
    ensures inRange == Follow(old(m.View()), e).Some? && (inRange ==> Some(m.View()) == Follow(old(m.View()), e))
    ensures !inRange ==> m.repeated
  {
    hide PieceManager.Valid, Moved;
    inRange := true;
    m.LengthsAgree();
    ghost var v := m.View();
    match e
    case Connected(c) =>
      if c !in m.conns {
        m.Connect(c);
      }
    case HasPiece(c, p) =>
      if c in m.conns {
        m.OnPeerHasPiece(c, p);
      }
    case Bits(c, bits) =>
      if c in m.conns {
        m.OnPeerBitfield(c, bits);
        m.LengthsAgree();
        SameSeq(m.avail, Plus(v.avail, bits));
      }
    case HasAll(c) =>
      if c in m.conns {
        m.OnPeerHasAll(c);
        m.LengthsAgree();
        SameSeq(m.avail, Plus(v.avail, AllPieces(|v.status|)));
      }
    case Disconnected(c) =>
      if c in m.conns || c in m.gone {
        inRange := m.OnDisconnect(c);
        m.LengthsAgree();
        if inRange {
          SameSeq(m.avail, Minus(v.avail, if c in v.conns then v.conns[c] else v.gone[c]));
        }
      }
  }

  /** What starters and completers do. */
  method HandleWork(m: PieceManager, e: Event) returns (overwrote: bool)
    requires m.Valid() && (e.Tested? || e.GaveUp? || e.WentOn? || e.Returned? || e.Finished?)
    modifies m
    ensures m.Valid() && Some(m.View()) == Follow(old(m.View()), e) && overwrote == Overwrites(old(m.View()), e)
    ensures !overwrote ==> m.current == old(m.current) && m.exact == old(m.exact)
  {
    hide PieceManager.Valid, Moved, NoOther;
    overwrote := false;
    match e
    case Tested(p) =>
      if p < |m.status| {
        var go := m.TestNeeded(p);
      }
    case GaveUp(p) =>
      if p in m.starting {
        m.GiveUp(p);
      }
    case WentOn(p) =>
      if p < |m.status| && p in m.starting {
        overwrote := m.status[p] == Have;
        m.Pick(p);
      }
    case Returned(p) =>
      if p < |m.status| {
        overwrote := m.status[p] == Have;
        m.Return(p);
      }
    case Finished(p) =>
      if p < |m.status| {
        m.Complete(p);
      }
  }

  /**
   * Any run of messages, disconnects, starts, returns and completions (those nobody is at do not happen). Statuses,
   * availabilities, connections and starters are what the bookkeeping without the index says. In every case a needed piece
   * that somebody has is in the group of its availability, and the next scan tries it. If no starter went on with a piece
   * that had become Have, and no such piece was returned, the index is as current and exact as it was: the scan is rarest
   * first. The run stops where an availability would go below zero, which needs a repeated disconnect.
   */
  method Run(m: PieceManager, events: seq<Event>) returns (order: seq<(nat, nat)>, overwrites: nat, stopped: bool)
    requires m.Valid()
    modifies m
    ensures m.Valid() && AllListed(m.groups, m.status, m.avail)
    ensures if stopped then Follows(old(m.View()), events).None? && m.repeated
            else Follows(old(m.View()), events) == Some(m.View())
    ensures overwrites == Overwritten(old(m.View()), events)
    ensures overwrites == 0 ==> m.current == old(m.current) && m.exact == old(m.exact)
    ensures InOrder(order, m.groups, {})
    ensures forall p :: 0 <= p < |m.status| && m.status[p] == Needed && m.avail[p] > 0 ==> (m.avail[p], p) in order
    ensures m.current ==> RarestFirst(order, m.status, m.avail)
    ensures m.exact ==> AllExact(m.groups, m.status, m.avail) && EachOnce(order, m.status, m.avail)
  {
    hide Tidy, Counted, AllListed, AllCurrent, AllExact, InOrder, RarestFirst, EachOnce, Follow, Overwrites;
    overwrites, stopped := 0, false;
    ghost var v := m.View();
    for k := 0 to |events|
      invariant m.Valid() && !stopped && Follows(v, events[..k]) == Some(m.View())
      invariant overwrites == Overwritten(v, events[..k])
      invariant overwrites == 0 ==> m.current == old(m.current) && m.exact == old(m.exact)
    {
      FollowsMore(v, events, k);
      var e := events[k];
      if e.Tested? || e.GaveUp? || e.WentOn? || e.Returned? || e.Finished? {
        var overwrote := HandleWork(m, e);
        overwrites := overwrites + (if overwrote then 1 else 0);
      } else {
        PeersOverwriteNothing(m.View(), e);
        var inRange := HandlePeer(m, e);
        if !inRange {
          stopped := true;
          StopsThere(v, events, k + 1);
          break;
        }
      }
    }
    if !stopped {
      assert events[..|events|] == events;
    }
    order := m.Scan();
  }

  lemma PeersOverwriteNothing(v: Ledger, e: Event)
    requires !e.WentOn? && !e.Returned?
    ensures !Overwrites(v, e)
  {
  }

  /** Two starters look at a piece; one goes on, the piece is finished, and it is announced before and after that. */
  method OvertakenStarter() returns (m: PieceManager)
    ensures fresh(m) && m.Valid() && m.status == [Have] && m.avail == [3] && m.starting == multiset{0}
    ensures m.current && In(m.groups, 2, 0)
  {
    hide PieceManager.Valid, Moved, StartIndex, StartExact, NoOther;
    m := new PieceManager([Needed], true, [Needed]);
    m.Connect(1);
    m.OnPeerHasPiece(1, 0);
    var a := m.TestNeeded(0);
    var b := m.TestNeeded(0);
    m.Pick(0);
    ghost var g := m.groups;
    m.OnPeerHasPiece(1, 0);
    MovedIn(g, 0, 1, 2, 2, 0);
    m.Complete(0);
    m.OnPeerHasPiece(1, 0);
  }

  /** The second starter goes on, and the piece is returned: it is needed again, and in two groups. */
  method TwoGroups() returns (m: PieceManager)
    ensures fresh(m) && m.Valid() && m.status == [Needed] && m.avail == [3] && !m.current
    ensures In(m.groups, 2, 0) && In(m.groups, 3, 0)
  {
    hide IndexOk, Tidy, Counted, Moved;
    m := OvertakenStarter();
    ghost var g1 := m.groups;
    assert !NoOther(g1, 0, 3);
    m.Pick(0);
    ghost var g2 := m.groups;
    MovedIn(g1, 0, 3, IN_PROGRESS_GROUP, 2, 0);
    m.Return(0);
    MovedIn(g2, 0, IN_PROGRESS_GROUP, 3, 2, 0);
    MovedIn(g2, 0, IN_PROGRESS_GROUP, 3, 3, 0);
  }

  // ---- Start-up ----

  /** The group build_piece_rarity puts a piece in; none for skipped pieces. */
  function Group(status: Status, avail: nat): int {
    match status
    case Have => 0
    case Needed => avail
    case InProgress => IN_PROGRESS_GROUP
    case Skipped => -1
  }

  ghost predicate Built(groups: Groups, status: seq<Status>) {
    forall k: nat, p: nat :: In(groups, k, p) <==> p < |status| && Group(status[p], 0) == k
  }

  /** build_piece_rarity, while nobody has anything */
  method BuildGroups(status: seq<Status>) returns (g: Groups)
    ensures Built(g, status) && Tidy(g, |status|)
  {
    g := map[];
    for i := 0 to |status|
      invariant Tidy(g, |status|)
      invariant forall k: nat, p: nat :: In(g, k, p) <==> p < i && Group(status[p], 0) == k
    {
      var target := Group(status[i], 0);
      if target >= 0 {
        ghost var was := g;
        g := With(g, i, target);
        assert forall k: nat, p: nat :: In(g, k, p) <==> In(was, k, p) || (k == target && p == i);
      }
    }
  }

  /** What verification may make of a piece; a start-up without resume data leaves it as it is. */
  predicate MayBecome(loaded: Status, verified: Status) {
    verified == loaded || (loaded != Skipped && (verified == Have || verified == Needed))
  }

  /** The index after start-up: built on the loaded statuses, or empty if the resume file was unusable. */
  ghost predicate StartIndex(groups: Groups, loaded: seq<Status>, built: bool) {
    if built then Built(groups, loaded) else groups == map[]
  }

  /** No needed piece was loaded as in progress; or, if the index was not built, no piece is needed at all. */
  predicate StartExact(loaded: seq<Status>, built: bool, verified: seq<Status>)
    requires |verified| == |loaded|
  {
    forall p :: 0 <= p < |loaded| && verified[p] == Needed ==> built && loaded[p] != InProgress
  }

  /**
   * After every start-up the index is current; every needed piece is in exactly the group of its availability if and only
   * if the index was built (or nothing is needed) and no piece taken up again as in progress turned out to be needed.
   */
  lemma StartUpIff(groups: Groups, loaded: seq<Status>, built: bool, verified: seq<Status>, avail: seq<nat>)
    requires StartIndex(groups, loaded, built) && |verified| == |loaded| == |avail|
    requires forall p :: 0 <= p < |loaded| ==> MayBecome(loaded[p], verified[p]) && avail[p] == 0
    ensures AllListed(groups, verified, avail) && AllCurrent(groups, verified, avail)
    ensures AllExact(groups, verified, avail) <==> StartExact(loaded, built, verified)
  {
    forall p | 0 <= p < |loaded|
      ensures Exact(groups, p, verified[p], avail[p]) <==> (verified[p] == Needed ==> built && loaded[p] != InProgress)
    {
      if verified[p] == Needed && !(built && loaded[p] != InProgress) {
        assert !In(groups, avail[p], p);
      }
    }
  }

  // ---- Scanning in order ----

  /** The entries of all groups above zero that are not among the keys left, in ascending order of groups, each once. */
  ghost predicate InOrder(order: seq<(nat, nat)>, groups: Groups, left: set<nat>) {
    && (forall g: nat, p: nat :: (g, p) in order <==> g > 0 && g !in left && In(groups, g, p))
    && (forall i, j :: 0 <= i < j < |order| ==> order[i].0 <= order[j].0 && order[i] != order[j])
    && (forall i, g :: 0 <= i < |order| && g in left ==> order[i].0 < g)
  }

  /** Outside the group of pieces in progress, needed pieces come in non-decreasing availability, each once. */
  predicate RarestFirst(order: seq<(nat, nat)>, status: seq<Status>, avail: seq<nat>) {
    && |status| == |avail|
    && (forall i :: 0 <= i < |order| && Tried(order[i], status) ==> order[i].0 == avail[order[i].1])
    && (forall i, j :: 0 <= i < j < |order| && Tried(order[i], status) && Tried(order[j], status) ==>
          avail[order[i].1] <= avail[order[j].1] && order[i].1 != order[j].1)
  }

  predicate Tried(o: (nat, nat), status: seq<Status>) {
    o.0 != IN_PROGRESS_GROUP && Wanted(o.1, status)
  }

  predicate Wanted(p: nat, status: seq<Status>) {
    p < |status| && status[p] == Needed
  }

  /** Needed pieces come in non-decreasing availability, each once, and exactly those that somebody has. */
  predicate EachOnce(order: seq<(nat, nat)>, status: seq<Status>, avail: seq<nat>) {
    && |status| == |avail|
    && (forall i :: 0 <= i < |order| && Wanted(order[i].1, status) ==> order[i].0 == avail[order[i].1] > 0)
    && (forall i, j :: 0 <= i < j < |order| && Wanted(order[i].1, status) && Wanted(order[j].1, status) ==>
          avail[order[i].1] <= avail[order[j].1] && order[i].1 != order[j].1)
  }

  lemma SkipZero(order: seq<(nat, nat)>, groups: Groups, left: set<nat>)
    requires InOrder(order, groups, left)
    ensures InOrder(order, groups, left - {0})
  {
  }

  lemma NextGroup(order: seq<(nat, nat)>, groups: Groups, left: set<nat>, g: nat, more: seq<nat>)
    requires InOrder(order, groups, left) && g in left && g in groups && g > 0
    requires forall k :: k in left ==> g <= k
    requires (forall p :: p in more <==> p in groups[g]) && forall i, j :: 0 <= i < j < |more| ==> more[i] != more[j]
    ensures InOrder(order + seq(|more|, i requires 0 <= i < |more| => (g, more[i])), groups, left - {g})
  {
    var tail := seq(|more|, i requires 0 <= i < |more| => (g, more[i]));
    var all := order + tail;
    forall k: nat, p: nat ensures (k, p) in tail <==> k == g && p in more {
      if k == g && p in more {
        var i :| 0 <= i < |more| && more[i] == p;
        assert tail[i] == (k, p);
      }
    }
    forall i, j | 0 <= i < j < |all| ensures all[i].0 <= all[j].0 && all[i] != all[j] {
      assert i < |order| ==> all[i] == order[i];
      assert j >= |order| ==> all[j] == tail[j - |order|];
      assert i >= |order| ==> all[i] == tail[i - |order|];
    }
    forall i, k | 0 <= i < |all| && k in left - {g} ensures all[i].0 < k {
      assert i < |order| ==> all[i] == order[i];
      assert i >= |order| ==> all[i] == tail[i - |order|];
    }
  }

  lemma ScanFinds(order: seq<(nat, nat)>, groups: Groups, status: seq<Status>, avail: seq<nat>,
                  current: bool, exact: bool)
    requires InOrder(order, groups, {}) && IndexOk(groups, status, avail, current, exact)
    ensures forall p :: 0 <= p < |status| && status[p] == Needed && avail[p] > 0 ==> (avail[p], p) in order
    ensures current ==> RarestFirst(order, status, avail)
    ensures exact ==> EachOnce(order, status, avail)
  {
    forall p | 0 <= p < |status| && status[p] == Needed && avail[p] > 0 ensures (avail[p], p) in order {
      assert Listed(groups, p, status[p], avail[p]);
    }
    forall i | 0 <= i < |order|
      ensures order[i].0 > 0 && In(groups, order[i].0, order[i].1)
    {
      assert (order[i].0, order[i].1) in order;
    }
    if current {
      forall i | 0 <= i < |order| && order[i].0 != IN_PROGRESS_GROUP && Wanted(order[i].1, status)
        ensures order[i].0 == avail[order[i].1]
      {
        assert NoOther(groups, order[i].1, avail[order[i].1]);
      }
    }
    if exact {
      forall i | 0 <= i < |order| && Wanted(order[i].1, status) ensures order[i].0 == avail[order[i].1] {
        assert Exact(groups, order[i].1, status[order[i].1], avail[order[i].1]);
      }
    }
  }

  method Least(keys: set<nat>) returns (g: nat)
    requires keys != {}
    ensures g in keys && forall k :: k in keys ==> g <= k
  {
    var rest := keys;
    g :| g in rest;
    rest := rest - {g};
    while rest != {}
      invariant g in keys && rest <= keys
      invariant forall k :: k in keys ==> g <= k || k in rest
    {
      var k :| k in rest;
      rest := rest - {k};
      if k < g {
        g := k;
      }
    }
  }

  /** The shuffle: any order. */
  method AnyOrder(s: set<nat>) returns (r: seq<nat>)
    ensures forall p :: p in r <==> p in s
    ensures forall i, j :: 0 <= i < j < |r| ==> r[i] != r[j]
  {
    r := [];
    var rest := s;
    while rest != {}
      invariant rest <= s && forall p :: p in r <==> p in s - rest
      invariant forall i, j :: 0 <= i < j < |r| ==> r[i] != r[j]
    {
      var p :| p in rest;
      assert forall q :: q in r + [p] <==> q in r || q == p;
      rest := rest - {p};
      r := r + [p];
    }
  }
}

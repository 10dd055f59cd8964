/** Admitting connections and banning addresses, two operations under two locks. */
module Admission {
  import opened Bytes
  import opened Sets

  type PeerId = nat

  const BAN_SECONDS: nat := 3600
  const MAX_RATE: nat := 0xFFFF_FFFF_FFFF_FFFF

  /** A live connection; rate is what it has moved in both directions this round. */
  datatype Conn = Conn(addr: string, rate: nat)

  type Conns = map<PeerId, Conn>

  // ---- Addresses ----

  /** The position of the last colon, or the length if there is none. */
  function LastColon(addr: string): (r: nat)
    ensures r <= |addr|
    ensures r < |addr| ==> addr[r] == ':' && forall k :: r < k < |addr| ==> addr[k] != ':'
    ensures r == |addr| ==> ':' !in addr
  {
    if addr == [] then 0
    else
      var n := |addr| - 1;
      assert addr == addr[..n] + [addr[n]];
      if addr[n] == ':' then n
      else if LastColon(addr[..n]) < n then LastColon(addr[..n])
      else |addr|
  }

  /** extract_ip_from_addr */
  function IpOf(addr: string): string {
    addr[..LastColon(addr)]
  }

  /** The port goes, whatever colons the address itself has. */
  lemma IpAndPort(ip: string, port: string)
    requires ':' !in port
    ensures IpOf(ip + [':'] + port) == ip
  {
    var addr := ip + [':'] + port;
    assert addr[|ip|] == ':';
    forall k | |ip| < k < |addr| ensures addr[k] != ':' {
      assert addr[k] == port[k - |ip| - 1];
    }
    assert LastColon(addr) == |ip|;
  }

  // ---- Limits ----

  function FromIp(conns: Conns, ip: string): set<PeerId> {
    set id | id in conns && IpOf(conns[id].addr) == ip
  }

  ghost predicate WithinCaps(conns: Conns, maxTotal: nat, maxPerIp: nat) {
    |conns| <= maxTotal && forall ip :: |FromIp(conns, ip)| <= maxPerIp
  }

  lemma FewerWithin(conns: Conns, gone: set<PeerId>, maxTotal: nat, maxPerIp: nat)
    requires WithinCaps(conns, maxTotal, maxPerIp)
    ensures WithinCaps(conns - gone, maxTotal, maxPerIp)
    ensures |conns - gone| <= |conns|
    ensures forall ip :: |FromIp(conns - gone, ip)| <= |FromIp(conns, ip)|
  {
    forall ip ensures |FromIp(conns - gone, ip)| <= |FromIp(conns, ip)| {
      SubsetSize(FromIp(conns - gone, ip), FromIp(conns, ip));
    }
    SubsetSize((conns - gone).Keys, conns.Keys);
  }

  lemma OneMoreWithin(conns: Conns, id: PeerId, c: Conn, maxTotal: nat, maxPerIp: nat)
    requires WithinCaps(conns, maxTotal, maxPerIp)
    requires |conns| < maxTotal && |FromIp(conns, IpOf(c.addr))| < maxPerIp
    ensures WithinCaps(conns[id := c], maxTotal, maxPerIp)
  {
    hide IpOf;
    var r := conns[id := c];
    forall ip ensures |FromIp(r, ip)| <= maxPerIp {
      if ip == IpOf(c.addr) {
        SubsetSize(FromIp(r, ip), FromIp(conns, ip) + {id});
      } else {
        SubsetSize(FromIp(r, ip), FromIp(conns, ip));
      }
    }
    SubsetSize(r.Keys, conns.Keys + {id});
  }

  /** What find_worst_peer_locked may return: a slowest peer, and nobody only if all rates are at the maximum. */
  ghost predicate WorstOf(conns: Conns, worst: Option<PeerId>) {
    match worst
    case Some(w) =>
      w in conns && conns[w].rate < MAX_RATE && forall id :: id in conns ==> conns[w].rate <= conns[id].rate
    case None => forall id :: id in conns ==> conns[id].rate >= MAX_RATE
  }

  predicate Accepts(conns: Conns, c: Conn, worst: Option<PeerId>, maxTotal: nat, maxPerIp: nat) {
    |FromIp(conns, IpOf(c.addr))| < maxPerIp && (|conns| < maxTotal || worst.Some?)
  }

  /** add_connection once the address is known not to be banned. */
  function Admitted(conns: Conns, id: PeerId, c: Conn, worst: Option<PeerId>, maxTotal: nat, maxPerIp: nat): Conns {
    if !Accepts(conns, c, worst, maxTotal, maxPerIp) then conns
    else if |conns| >= maxTotal then (conns - {worst.value})[id := c]
    else conns[id := c]
  }

  lemma AdmittedWithin(conns: Conns, id: PeerId, c: Conn, worst: Option<PeerId>, maxTotal: nat, maxPerIp: nat)
    requires WithinCaps(conns, maxTotal, maxPerIp) && WorstOf(conns, worst)
    ensures WithinCaps(Admitted(conns, id, c, worst, maxTotal, maxPerIp), maxTotal, maxPerIp)
  {
    hide IpOf, FromIp;
    if Accepts(conns, c, worst, maxTotal, maxPerIp) {
      if |conns| >= maxTotal {
        FewerWithin(conns, {worst.value}, maxTotal, maxPerIp);
        OneGone(conns, worst.value);
        OneMoreWithin(conns - {worst.value}, id, c, maxTotal, maxPerIp);
      } else {
        OneMoreWithin(conns, id, c, maxTotal, maxPerIp);
      }
    }
  }

  lemma OneGone(conns: Conns, w: PeerId)
    requires w in conns
    ensures |conns - {w}| == |conns| - 1
  {
  }

  class PeerManager {
    const maxTotal: nat
    const maxPerIp: nat
    var conns: Conns

    constructor (maxTotal: nat, maxPerIp: nat)
      ensures this.maxTotal == maxTotal && this.maxPerIp == maxPerIp && conns == map[]
    {
      this.maxTotal, this.maxPerIp, conns := maxTotal, maxPerIp, map[];
    }

    method CountFromIp(ip: string) returns (n: nat)
      ensures n == |FromIp(conns, ip)|
    {
      hide IpOf;
      n := 0;
      var rest := conns.Keys;
      ghost var counted: set<PeerId> := {};
      while rest != {}
        invariant rest <= conns.Keys
        invariant counted == FromIp(conns, ip) - rest && n == |counted|
      {
        var id :| id in rest;
        rest := rest - {id};
        if IpOf(conns[id].addr) == ip {
          n := n + 1;
          counted := counted + {id};
        }
      }
      assert counted == FromIp(conns, ip);
    }

    method FindWorstPeer() returns (worst: Option<PeerId>)
      ensures WorstOf(conns, worst)
    {
      worst := None;
      var least := MAX_RATE;
      var rest := conns.Keys;
      while rest != {}
        invariant rest <= conns.Keys
        invariant worst.Some? ==> worst.value in conns && least == conns[worst.value].rate < MAX_RATE
        invariant worst.None? ==> least == MAX_RATE
        invariant forall id :: id in conns && id !in rest ==> least <= conns[id].rate
      {
        var id :| id in rest;
        rest := rest - {id};
        if conns[id].rate < least {
          least := conns[id].rate;
          worst := Some(id);
        }
      }
    }

    /** The part of add_connection after the ban check. */
    method Admit(id: PeerId, c: Conn) returns (ok: bool, ghost worst: Option<PeerId>)
      modifies this
      ensures WorstOf(old(conns), worst)
      ensures conns == Admitted(old(conns), id, c, worst, maxTotal, maxPerIp)
      ensures ok == Accepts(old(conns), c, worst, maxTotal, maxPerIp)
      ensures old(WithinCaps(conns, maxTotal, maxPerIp)) ==> WithinCaps(conns, maxTotal, maxPerIp)
    {
      hide IpOf, FromIp, WithinCaps, WorstOf;
      var count := CountFromIp(IpOf(c.addr));
      var slowest := FindWorstPeer();
      worst := slowest;
      if old(WithinCaps(conns, maxTotal, maxPerIp)) {
        AdmittedWithin(conns, id, c, worst, maxTotal, maxPerIp);
      }
      if count >= maxPerIp {
        return false, worst;
      }
      if |conns| >= maxTotal {
        if slowest.None? {
          return false, worst;
        }
        conns := conns - {slowest.value};
      }
      conns := conns[id := c];
      return true, worst;
    }
  }

  // ---- Two locks ----

  /**
   * holder: an addition that holds the connection lock and has found its address not banned. banned: when each ban ends.
   * removals: bans recorded under the ban lock whose removal of live connections, under the connection lock, is to come.
   */
  datatype State = State(now: nat, conns: Conns, banned: map<string, nat>, removals: multiset<string>,
                         holder: Option<(PeerId, Conn)>)

  datatype Limits = Limits(maxTotal: nat, maxPerIp: nat)

  datatype Step =
    | Tick(seconds: nat)
    | AddCheck(id: PeerId, c: Conn)
    | AddInsert(worst: Option<PeerId>)
    | BanRecord(ip: string, since: nat)
    | BanRemove(ip: string)
    | Disconnect(id: PeerId)
    | Cleanup
    | Traffic(id: PeerId, rate: nat)

  const IDLE := State(0, map[], map[], multiset{}, None)

  predicate Banned(s: State, ip: string) {
    ip in s.banned && s.now < s.banned[ip]
  }

  /** is_banned forgets a ban that has run out. */
  function Forget(s: State, ip: string): map<string, nat> {
    if ip in s.banned && s.now >= s.banned[ip] then s.banned - {ip} else s.banned
  }

  /** One step; a step that would have to wait for a lock, or that nobody is at, changes nothing. */
  ghost function Next(s: State, step: Step, l: Limits): State {
    match step
    case Tick(seconds) => s.(now := s.now + seconds)
    case AddCheck(id, c) =>
      if s.holder.Some? then s
      else if Banned(s, IpOf(c.addr)) then s
      else s.(banned := Forget(s, IpOf(c.addr)), holder := Some((id, c)))
    case AddInsert(worst) =>
      if s.holder.None? || !WorstOf(s.conns, worst) then s
      else
        var (id, c) := s.holder.value;
        s.(conns := Admitted(s.conns, id, c, worst, l.maxTotal, l.maxPerIp), holder := None)
    case BanRecord(ip, since) =>
      if since > s.now then s
      else s.(banned := s.banned[ip := since + BAN_SECONDS], removals := s.removals + multiset{ip})
    case BanRemove(ip) =>
      if s.holder.Some? || ip !in s.removals then s
      else s.(conns := s.conns - FromIp(s.conns, ip), removals := s.removals - multiset{ip})
    case Disconnect(id) => if s.holder.Some? then s else s.(conns := s.conns - {id})
    case Cleanup => s.(banned := map ip | ip in s.banned && s.now < s.banned[ip] :: s.banned[ip])
    case Traffic(id, rate) => if id in s.conns then s.(conns := s.conns[id := s.conns[id].(rate := rate)]) else s
  }

  /** A banned address has a live connection (or one about to be inserted) only while a removal for it is to come. */
  ghost predicate BansHold(s: State) {
    && (forall id :: id in s.conns ==> Excused(s, IpOf(s.conns[id].addr)))
    && (s.holder.Some? ==> Excused(s, IpOf(s.holder.value.1.addr)))
  }

  predicate Excused(s: State, ip: string) {
    Banned(s, ip) ==> ip in s.removals
  }

  ghost predicate Inv(s: State, l: Limits) {
    BansHold(s) && WithinCaps(s.conns, l.maxTotal, l.maxPerIp)
  }

  lemma AdmittedFrom(conns: Conns, id: PeerId, c: Conn, worst: Option<PeerId>, l: Limits, x: PeerId)
    requires x in Admitted(conns, id, c, worst, l.maxTotal, l.maxPerIp)
    ensures var r := Admitted(conns, id, c, worst, l.maxTotal, l.maxPerIp);
            (x in conns && r[x] == conns[x]) || (x == id && r[x] == c)
  {
  }

  lemma BansStep(s: State, step: Step, l: Limits)
    requires BansHold(s)
    ensures BansHold(Next(s, step, l))
  {
    hide IpOf, WorstOf, Admitted, FromIp;
    var r := Next(s, step, l);
    match step
    case AddInsert(worst) =>
      if s.holder.Some? && WorstOf(s.conns, worst) {
        forall x | x in r.conns ensures Excused(r, IpOf(r.conns[x].addr)) {
          AdmittedFrom(s.conns, s.holder.value.0, s.holder.value.1, worst, l, x);
          assert x in s.conns ==> Excused(s, IpOf(s.conns[x].addr));
        }
      }
    case BanRemove(ip) =>
      RemovalStep(s, ip, l);
    case _ =>
      forall x | x in r.conns ensures Excused(r, IpOf(r.conns[x].addr)) {
        assert Excused(s, IpOf(s.conns[x].addr));
      }
  }

  lemma RemovalStep(s: State, ip: string, l: Limits)
    requires BansHold(s)
    ensures BansHold(Next(s, BanRemove(ip), l))
  {
  }

  lemma SameConns(s: State, step: Step, l: Limits)
    requires step.Tick? || step.AddCheck? || step.BanRecord? || step.Cleanup?
    ensures Next(s, step, l).conns == s.conns
  {
    hide IpOf, FromIp, Banned, Forget;
  }

  lemma CapsStep(s: State, step: Step, l: Limits)
    requires WithinCaps(s.conns, l.maxTotal, l.maxPerIp)
    ensures WithinCaps(Next(s, step, l).conns, l.maxTotal, l.maxPerIp)
  {
    hide IpOf, FromIp, WorstOf, Admitted, WithinCaps, Banned, Forget;
    match step
    case AddInsert(worst) =>
      if s.holder.Some? && WorstOf(s.conns, worst) {
        AdmittedWithin(s.conns, s.holder.value.0, s.holder.value.1, worst, l.maxTotal, l.maxPerIp);
      }
    case BanRemove(ip) => FewerWithin(s.conns, FromIp(s.conns, ip), l.maxTotal, l.maxPerIp);
    case Disconnect(id) => FewerWithin(s.conns, {id}, l.maxTotal, l.maxPerIp);
    case Traffic(id, rate) => TrafficWithin(s.conns, id, rate, l);
    case _ => SameConns(s, step, l);
  }

  lemma TrafficWithin(conns: Conns, id: PeerId, rate: nat, l: Limits)
    requires WithinCaps(conns, l.maxTotal, l.maxPerIp)
    ensures id in conns ==> WithinCaps(conns[id := conns[id].(rate := rate)], l.maxTotal, l.maxPerIp)
  {
    if id in conns {
      var r := conns[id := conns[id].(rate := rate)];
      forall ip ensures FromIp(r, ip) == FromIp(conns, ip) {
      }
      assert r.Keys == conns.Keys;
    }
  }

  // ---- Every run ----

  ghost function After(steps: seq<Step>, l: Limits): State {
    if steps == [] then IDLE else Next(After(steps[..|steps| - 1], l), steps[|steps| - 1], l)
  }

  /**
   * Over every interleaving: an address that is banned now has a live connection only while the removal step of a ban on
   * it is to come, and neither limit is exceeded.
   */
  lemma {:induction false} EveryRun(steps: seq<Step>, l: Limits)
    ensures Inv(After(steps, l), l)
  {
    hide Next, BansHold, WithinCaps;
    if steps == [] {
      IdleOk(l);
    } else {
      EveryRun(steps[..|steps| - 1], l);
      BansStep(After(steps[..|steps| - 1], l), steps[|steps| - 1], l);
      CapsStep(After(steps[..|steps| - 1], l), steps[|steps| - 1], l);
    }
  }

  lemma IdleOk(l: Limits)
    ensures BansHold(IDLE) && WithinCaps(IDLE.conns, l.maxTotal, l.maxPerIp)
  {
  }

  /** Once no removal for an address is to come, a ban on it that has not run out leaves it without connections. */
  lemma BanIsFinal(steps: seq<Step>, l: Limits, ip: string)
    requires Banned(After(steps, l), ip) && ip !in After(steps, l).removals
    ensures FromIp(After(steps, l).conns, ip) == {}
  {
    hide IpOf, After, WithinCaps;
    EveryRun(steps, l);
    var s := After(steps, l);
    forall id | id in s.conns ensures IpOf(s.conns[id].addr) != ip {
      assert Excused(s, IpOf(s.conns[id].addr));
    }
  }

  // ---- What the steps do ----

  /** An addition that finds the lock free: a banned address is refused, any other is admitted as the limits say. */
  lemma Adds(s: State, id: PeerId, c: Conn, worst: Option<PeerId>, l: Limits)
    requires s.holder.None? && WorstOf(s.conns, worst)
    ensures var r := Next(Next(s, AddCheck(id, c), l), AddInsert(worst), l);
            && r.holder.None? && r.now == s.now && r.removals == s.removals
            && r.conns == (if Banned(s, IpOf(c.addr)) then s.conns
                           else Admitted(s.conns, id, c, worst, l.maxTotal, l.maxPerIp))
            && (!Banned(s, IpOf(c.addr)) ==> IpOf(c.addr) !in r.banned)
            && forall ip :: Banned(r, ip) <==> Banned(s, ip)
  {
    hide IpOf, Admitted, WorstOf, FromIp;
  }

  /** Who is admitted is connected; everybody else keeps their connection but the slowest, and that only over the limit. */
  lemma Admits(conns: Conns, id: PeerId, c: Conn, worst: Option<PeerId>, maxTotal: nat, maxPerIp: nat)
    requires Accepts(conns, c, worst, maxTotal, maxPerIp)
    ensures var r := Admitted(conns, id, c, worst, maxTotal, maxPerIp);
            && id in r && r[id] == c
            && forall x :: x in conns && x != id && (|conns| < maxTotal || worst != Some(x)) ==> x in r && r[x] == conns[x]
  {
  }

  /** A disconnection takes the connection and nothing else; traffic changes one rate and nothing else. */
  lemma Leaves(s: State, id: PeerId, rate: nat, l: Limits)
    ensures s.holder.None? ==> Next(s, Disconnect(id), l) == s.(conns := s.conns - {id})
    ensures id in s.conns ==> Next(s, Traffic(id, rate), l) == s.(conns := s.conns[id := Conn(s.conns[id].addr, rate)])
  {
  }

  /** The cleanup forgets exactly the bans that have run out; with time every ban does. */
  lemma BanEnds(s: State, ip: string, seconds: nat, l: Limits)
    requires ip in s.banned
    ensures var r := Next(s, Cleanup, l);
            r == s.(banned := r.banned) && forall x :: x in r.banned <==> Banned(s, x)
    ensures forall x :: Banned(Next(s, Cleanup, l), x) <==> Banned(s, x)
    ensures Banned(Next(s, Tick(seconds), l), ip) <==> s.now + seconds < s.banned[ip]
  {
  }

  /** While an addition holds the connection lock, whatever else needs the lock waits. */
  lemma LockHeld(s: State, step: Step, l: Limits)
    requires s.holder.Some? && (step.AddCheck? || step.BanRemove? || step.Disconnect?)
    ensures Next(s, step, l) == s
  {
  }

  /** A ban ends when it was set to end, unless it is set anew. */
  lemma BanStep(s: State, step: Step, l: Limits, ip: string)
    requires ip in s.banned && !(step.BanRecord? && step.ip == ip)
    ensures s.now <= Next(s, step, l).now
    ensures var r := Next(s, step, l); r.now < s.banned[ip] ==> ip in r.banned && r.banned[ip] == s.banned[ip]
  {
    hide IpOf, WorstOf, Admitted, FromIp;
  }

  predicate NoBanOf(steps: seq<Step>, ip: string) {
    forall k :: 0 <= k < |steps| ==> !(steps[k].BanRecord? && steps[k].ip == ip)
  }

  /** A ban holds through every run that ends before it does. */
  lemma {:induction false} BanLasts(before: seq<Step>, more: seq<Step>, l: Limits, ip: string)
    requires ip in After(before, l).banned && NoBanOf(more, ip)
    ensures After(before, l).now <= After(before + more, l).now
    ensures var s, r := After(before, l), After(before + more, l);
            r.now < s.banned[ip] ==> ip in r.banned && r.banned[ip] == s.banned[ip] && Banned(r, ip)
    decreases |more|
  {
    hide Next;
    if more == [] {
      assert before + more == before;
    } else {
      var n := |more| - 1;
      BanLasts(before, more[..n], l, ip);
      assert (before + more)[..|before + more| - 1] == before + more[..n];
      var m := After(before + more[..n], l);
      assert !(more[n].BanRecord? && more[n].ip == ip);
      Later(m, more[n], l);
      if ip in m.banned {
        BanStep(m, more[n], l, ip);
      }
    }
  }

  lemma Later(s: State, step: Step, l: Limits)
    ensures s.now <= Next(s, step, l).now
    ensures forall ip :: ip in Next(s, step, l).removals ==> ip in s.removals || (step.BanRecord? && step.ip == ip)
  {
    hide IpOf, WorstOf, Admitted, FromIp;
  }

  lemma {:induction false} NoNewRemovals(before: seq<Step>, more: seq<Step>, l: Limits, ip: string)
    requires ip !in After(before, l).removals && NoBanOf(more, ip)
    ensures ip !in After(before + more, l).removals
    decreases |more|
  {
    hide Next;
    if more == [] {
      assert before + more == before;
    } else {
      var n := |more| - 1;
      NoNewRemovals(before, more[..n], l, ip);
      assert (before + more)[..|before + more| - 1] == before + more[..n];
      assert !(more[n].BanRecord? && more[n].ip == ip);
      Later(After(before + more[..n], l), more[n], l);
    }
  }

  /** The two steps of a ban, when no addition is under way: recorded for an hour, and no connection is left. */
  lemma BanBoth(s: State, ip: string, l: Limits)
    requires s.holder.None? && ip !in s.removals
    ensures var r := Next(Next(s, BanRecord(ip, s.now), l), BanRemove(ip), l);
            && r == s.(conns := s.conns - FromIp(s.conns, ip), banned := s.banned[ip := s.now + BAN_SECONDS])
            && FromIp(r.conns, ip) == {}
  {
    hide IpOf;
    assert s.removals + multiset{ip} - multiset{ip} == s.removals;
  }

  /**
   * A ban keeps its address out for an hour: whatever runs after the two steps of a ban, as long as nobody bans the address
   * again and the hour is not over, it is banned and has no connection.
   */
  lemma BanKeepsOut(before: seq<Step>, more: seq<Step>, ip: string, l: Limits)
    requires After(before, l).holder.None? && ip !in After(before, l).removals && NoBanOf(more, ip)
    requires After(before + [BanRecord(ip, After(before, l).now), BanRemove(ip)] + more, l).now
             < After(before, l).now + BAN_SECONDS
    ensures var r := After(before + [BanRecord(ip, After(before, l).now), BanRemove(ip)] + more, l);
            Banned(r, ip) && FromIp(r.conns, ip) == {}
  {
    hide Next, After, FromIp, NoBanOf, Banned, IpOf;
    var s := After(before, l);
    var ban := [BanRecord(ip, s.now), BanRemove(ip)];
    TwoMore(before, ban[0], ban[1], l);
    BanBoth(s, ip, l);
    BanLasts(before + ban, more, l, ip);
    NoNewRemovals(before + ban, more, l, ip);
    BanIsFinal(before + ban + more, l, ip);
  }

  lemma TwoMore(before: seq<Step>, a: Step, b: Step, l: Limits)
    ensures After(before + [a, b], l) == Next(Next(After(before, l), a, l), b, l)
  {
    hide Next;
    assert (before + [a, b])[..|before| + 1] == before + [a];
    assert (before + [a])[..|before|] == before;
    assert After(before + [a], l) == Next(After(before, l), a, l);
  }

  /** The window is real: a ban recorded between the check and the insertion lets a banned address in, for a while. */
  lemma WindowExample(id: PeerId, c: Conn)
    ensures var s := After([AddCheck(id, c), BanRecord(IpOf(c.addr), 0), AddInsert(None)], Limits(500, 4));
            id in s.conns && Banned(s, IpOf(s.conns[id].addr)) && IpOf(c.addr) in s.removals
  {
    hide IpOf, After;
    var l := Limits(500, 4);
    var steps := [AddCheck(id, c), BanRecord(IpOf(c.addr), 0), AddInsert(None)];
    var s0 := Prefix(steps, 0, l);
    assert s0 == IDLE.(holder := Some((id, c)));
    var s1 := Prefix(steps, 1, l);
    assert FromIp(s1.conns, IpOf(c.addr)) == {};
    var s2 := Prefix(steps, 2, l);
    assert steps[..3] == steps;
  }

  lemma Prefix(steps: seq<Step>, n: nat, l: Limits) returns (s: State)
    requires n < |steps|
    ensures s == After(steps[..n + 1], l) == Next(After(steps[..n], l), steps[n], l)
    ensures n == 0 ==> After(steps[..n], l) == IDLE
  {
    assert steps[..n + 1][..n] == steps[..n];
    s := After(steps[..n + 1], l);
  }
}

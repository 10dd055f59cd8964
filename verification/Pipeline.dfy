/** The request pipeline of a peer connection: a window of requests on the wire and a queue of requests waiting. */
module Pipeline {
  const CAP: nat := 500
  const MAX_PIPELINE_BUFFER: nat := 8 * 1024 * 1024
  const TWO64: nat := 0x1_0000_0000_0000_0000
  const TWO32: nat := 0x1_0000_0000

  type uint32 = x: int | 0 <= x < TWO32

  datatype Request = Request(index: uint32, begin: uint32, length: uint32)

  /** wire lists the requests handed to the socket, in order. */
  datatype Pipe = Pipe(pending: seq<Request>, outstanding: nat, requested: nat, received: nat, choking: bool,
                       wire: seq<Request>)

  const START := Pipe([], 0, 0, 0, true, [])

  /** The bytes in flight as the source computes them, a subtraction of unsigned 64-bit numbers. */
  function PipelineBytes(p: Pipe): nat {
    (p.requested - p.received) % TWO64
  }

  predicate Full(p: Pipe) {
    p.outstanding >= CAP || PipelineBytes(p) >= MAX_PIPELINE_BUFFER
  }

  datatype Event =
    | Want(r: Request)
    | Completed(length: uint32)
    | Rejected(length: uint32)
    | SendFailed(length: uint32)
    | Cancelled(r: Request)
    | ChokeFlag
    | ChokeClear
    | Unchoke

  function Sent(p: Pipe, r: Request): Pipe {
    p.(requested := p.requested + r.length, outstanding := p.outstanding + 1, wire := p.wire + [r])
  }

  predicate CanSend(p: Pipe) {
    !p.choking && p.pending != [] && !Full(p)
  }

  function SendFront(p: Pipe): Pipe
    requires p.pending != []
  {
    Sent(p, p.pending[0]).(pending := p.pending[1..])
  }

  /** flush_pending_requests */
  function Flush(p: Pipe): Pipe
    decreases |p.pending|
  {
    if CanSend(p) then Flush(SendFront(p)) else p
  }

  function OneLess(p: Pipe): nat {
    if p.outstanding > 0 then p.outstanding - 1 else 0
  }

  function Credit(p: Pipe, length: uint32): Pipe {
    p.(received := if p.received + length > p.requested then p.requested else p.received + length,
       outstanding := OneLess(p))
  }

  function Release(p: Pipe, length: uint32): Pipe {
    p.(requested := if p.requested >= length then p.requested - length else 0, outstanding := OneLess(p))
  }

  function Find(s: seq<Request>, r: Request): (i: nat)
    ensures i <= |s| && (i < |s| ==> s[i] == r) && (i == |s| <==> r !in s)
  {
    if s == [] || s[0] == r then 0 else 1 + Find(s[1..], r)
  }

  function RemoveAt<T>(s: seq<T>, i: nat): (r: seq<T>)
    requires i < |s|
    ensures |r| == |s| - 1
  {
    s[..i] + s[i + 1..]
  }

  function Handle(p: Pipe, e: Event): Pipe {
    match e
    case Want(r) => if Full(p) then p.(pending := p.pending + [r]) else Sent(p, r)
    case Completed(length) => Flush(Credit(p, length))
    case Rejected(length) => Flush(Release(p, length))
    case SendFailed(length) => Flush(Release(p, length))
    case Cancelled(r) =>
      var i := Find(p.pending, r);
      if i < |p.pending| then Flush(p.(pending := RemoveAt(p.pending, i))) else Flush(Release(p, r.length))
    case ChokeFlag => p.(choking := true)
    case ChokeClear => p.(pending := [], outstanding := 0, requested := 0, received := 0)
    case Unchoke => Flush(p.(choking := false))
  }

  // ---- Following a run ----

  /**
   * A pipe with the history that its counters should reflect. inFlight: the requests sent and not yet answered. exact:
   * since the last choke, every completion, rejection, failed send and cancel on the wire named one of them. queued: the
   * queue with the number each request got when it was queued. released: those sent from the queue, in sending order.
   */
  datatype Trace = Trace(pipe: Pipe, inFlight: seq<Request>, exact: bool, queued: seq<(nat, Request)>,
                         released: seq<(nat, Request)>, next: nat)

  const ORIGIN := Trace(START, [], true, [], [], 0)

  function FlushTrace(t: Trace): Trace
    decreases |t.pipe.pending|
  {
    if CanSend(t.pipe) && t.queued != [] then
      FlushTrace(Trace(SendFront(t.pipe), t.inFlight + [t.pipe.pending[0]], t.exact, t.queued[1..],
                       t.released + [t.queued[0]], t.next))
    else t
  }

  /** An answer about the request at position `which` in flight, if that is what the answer is about. */
  function Answered(t: Trace, p: Pipe, which: nat, matches: bool): Trace {
    if which < |t.inFlight| && matches
    then FlushTrace(t.(pipe := p, inFlight := RemoveAt(t.inFlight, which)))
    else FlushTrace(t.(pipe := p, exact := false))
  }

  predicate Names(t: Trace, which: nat, length: uint32) {
    which < |t.inFlight| && t.inFlight[which].length == length
  }

  /** Handle, keeping the history; `which` tells which request in flight an answer is about. */
  function Track(t: Trace, e: Event, which: nat): Trace {
    var p := t.pipe;
    match e
    case Want(r) =>
      if Full(p) then t.(pipe := Handle(p, e), queued := t.queued + [(t.next, r)], next := t.next + 1)
      else t.(pipe := Handle(p, e), inFlight := t.inFlight + [r])
    case Completed(length) => Answered(t, Credit(p, length), which, Names(t, which, length))
    case Rejected(length) => Answered(t, Release(p, length), which, Names(t, which, length))
    case SendFailed(length) => Answered(t, Release(p, length), which, Names(t, which, length))
    case Cancelled(r) =>
      var i := Find(p.pending, r);
      if i < |p.pending| && i < |t.queued|
      then FlushTrace(t.(pipe := p.(pending := RemoveAt(p.pending, i)), queued := RemoveAt(t.queued, i)))
      else Answered(t, Release(p, r.length), which, which < |t.inFlight| && t.inFlight[which] == r)
    case ChokeFlag => t.(pipe := Handle(p, e))
    case ChokeClear => t.(pipe := Handle(p, e), inFlight := [], exact := true, queued := [])
    case Unchoke => FlushTrace(t.(pipe := p.(choking := false)))
  }

  function Run(events: seq<(Event, nat)>): Trace {
    if events == [] then ORIGIN
    else
      var n := |events| - 1;
      Track(Run(events[..n]), events[n].0, events[n].1)
  }

  // ---- What every event keeps ----

  function Sum(s: seq<Request>): nat {
    if s == [] then 0 else Sum(s[..|s| - 1]) + s[|s| - 1].length
  }

  lemma {:induction false} SumWithout(s: seq<Request>, i: nat)
    requires i < |s|
    ensures Sum(RemoveAt(s, i)) == Sum(s) - s[i].length
  {
    var n := |s| - 1;
    var r := RemoveAt(s, i);
    if i == n {
      assert r == s[..n];
    } else {
      SumWithout(s[..n], i);
      assert r[..n - 1] == RemoveAt(s[..n], i) && r[n - 1] == s[n];
    }
  }

  /** The counters are the truth about the requests in flight, and there is no unsigned underflow. */
  predicate Balanced(p: Pipe, inFlight: seq<Request>, longest: nat) {
    && p.outstanding == |inFlight|
    && p.requested - p.received == Sum(inFlight)
    && Sum(inFlight) < MAX_PIPELINE_BUFFER + longest
  }

  predicate Ascending(s: seq<(nat, Request)>, next: nat) {
    && (forall i, j :: 0 <= i < j < |s| ==> s[i].0 < s[j].0)
    && (forall i :: 0 <= i < |s| ==> s[i].0 < next)
  }

  /** The numbered queue is the queue. */
  predicate Mirrors(queued: seq<(nat, Request)>, pending: seq<Request>, longest: nat) {
    && |queued| == |pending|
    && (forall i :: 0 <= i < |queued| ==> queued[i].1 == pending[i])
    && (forall i :: 0 <= i < |pending| ==> pending[i].length <= longest)
  }

  predicate Ok(t: Trace, longest: nat) {
    && t.pipe.outstanding <= CAP
    && Mirrors(t.queued, t.pipe.pending, longest)
    && Ascending(t.released + t.queued, t.next)
    && (t.exact ==> Balanced(t.pipe, t.inFlight, longest))
  }

  /** Nothing waits while the window has room. */
  predicate WindowUsed(p: Pipe) {
    !p.choking && p.pending != [] ==> Full(p)
  }

  lemma SentBalanced(p: Pipe, inFlight: seq<Request>, r: Request, longest: nat)
    requires Balanced(p, inFlight, longest) && !Full(p) && r.length <= longest < TWO32
    ensures Balanced(Sent(p, r), inFlight + [r], longest)
  {
  }

  lemma {:induction false} FlushOk(t: Trace, longest: nat)
    requires Ok(t, longest) && longest < TWO32
    ensures Ok(FlushTrace(t), longest) && WindowUsed(FlushTrace(t).pipe)
    ensures FlushTrace(t).pipe == Flush(t.pipe)
    decreases |t.pipe.pending|
  {
    hide Balanced, Full, Ascending;
    if CanSend(t.pipe) {
      var r := t.pipe.pending[0];
      var u := Trace(SendFront(t.pipe), t.inFlight + [r], t.exact, t.queued[1..], t.released + [t.queued[0]], t.next);
      assert u.released + u.queued == t.released + t.queued;
      if t.exact {
        SentBalanced(t.pipe, t.inFlight, r, longest);
        SameCounters(Sent(t.pipe, r), u.pipe, u.inFlight, longest);
      }
      NotFull(t.pipe);
      FlushOk(u, longest);
    }
  }

  lemma NotFull(p: Pipe)
    requires !Full(p)
    ensures p.outstanding < CAP
  {
  }

  lemma SameCounters(p: Pipe, q: Pipe, inFlight: seq<Request>, longest: nat)
    requires Balanced(p, inFlight, longest)
    requires p.outstanding == q.outstanding && p.requested == q.requested && p.received == q.received
    ensures Balanced(q, inFlight, longest)
  {
  }

  lemma AnswerBalanced(t: Trace, which: nat, length: uint32, longest: nat)
    requires Balanced(t.pipe, t.inFlight, longest) && Names(t, which, length)
    ensures Balanced(Credit(t.pipe, length), RemoveAt(t.inFlight, which), longest)
    ensures Balanced(Release(t.pipe, length), RemoveAt(t.inFlight, which), longest)
  {
    SumWithout(t.inFlight, which);
  }

  lemma AnsweredOk(t: Trace, p: Pipe, which: nat, length: uint32, matches: bool, longest: nat)
    requires Ok(t, longest) && longest < TWO32
    requires p == Credit(t.pipe, length) || p == Release(t.pipe, length)
    requires matches ==> Names(t, which, length)
    ensures Ok(Answered(t, p, which, matches), longest) && WindowUsed(Answered(t, p, which, matches).pipe)
    ensures Answered(t, p, which, matches).pipe == Flush(p)
  {
    hide Balanced, Full, Ascending, Mirrors;
    if which < |t.inFlight| && matches {
      if t.exact {
        AnswerBalanced(t, which, length, longest);
      }
      FlushOk(t.(pipe := p, inFlight := RemoveAt(t.inFlight, which)), longest);
    } else {
      FlushOk(t.(pipe := p, exact := false), longest);
    }
  }

  lemma RemovedOk(t: Trace, i: nat, longest: nat)
    requires Ok(t, longest) && i < |t.pipe.pending| && i < |t.queued|
    ensures Ok(t.(pipe := t.pipe.(pending := RemoveAt(t.pipe.pending, i)), queued := RemoveAt(t.queued, i)), longest)
  {
    var u := t.(pipe := t.pipe.(pending := RemoveAt(t.pipe.pending, i)), queued := RemoveAt(t.queued, i));
    AscendingWithout(t.released, t.queued, i, t.next);
  }

  lemma AscendingWithout(a: seq<(nat, Request)>, b: seq<(nat, Request)>, i: nat, next: nat)
    requires i < |b| && Ascending(a + b, next)
    ensures Ascending(a + RemoveAt(b, i), next)
  {
    var s, r, c := a + b, a + RemoveAt(b, i), |a| + i;
    assert forall k :: 0 <= k < |r| ==> r[k] == s[if k < c then k else k + 1];
    forall j, k | 0 <= j < k < |r| ensures r[j].0 < r[k].0 < next {
      assert r[j] == s[if j < c then j else j + 1] && r[k] == s[if k < c then k else k + 1];
    }
  }

  lemma WantOk(t: Trace, r: Request, which: nat, longest: nat)
    requires Ok(t, longest) && WindowUsed(t.pipe) && r.length <= longest < TWO32
    ensures Ok(Track(t, Want(r), which), longest) && WindowUsed(Track(t, Want(r), which).pipe)
  {
    var u := Track(t, Want(r), which);
    if Full(t.pipe) {
      assert u.released + u.queued == (t.released + t.queued) + [(t.next, r)];
    } else if t.exact {
      SentBalanced(t.pipe, t.inFlight, r, longest);
    }
  }

  lemma TrackOk(t: Trace, e: Event, which: nat, longest: nat)
    requires Ok(t, longest) && WindowUsed(t.pipe) && longest < TWO32
    requires e.Want? ==> e.r.length <= longest
    ensures Ok(Track(t, e, which), longest) && WindowUsed(Track(t, e, which).pipe)
    ensures Track(t, e, which).pipe == Handle(t.pipe, e)
  {
    hide Balanced, Full, Ok, FlushTrace, Answered, Names, Credit, Release, RemoveAt;
    match e
    case Want(r) => WantOk(t, r, which, longest);
    case Completed(length) =>
      AnsweredOk(t, Credit(t.pipe, length), which, length, Names(t, which, length), longest);
    case Rejected(length) =>
      AnsweredOk(t, Release(t.pipe, length), which, length, Names(t, which, length), longest);
    case SendFailed(length) =>
      AnsweredOk(t, Release(t.pipe, length), which, length, Names(t, which, length), longest);
    case Cancelled(r) => CancelOk(t, r, which, longest);
    case ChokeFlag => SimpleOk(t, e, which, longest);
    case ChokeClear => SimpleOk(t, e, which, longest);
    case Unchoke =>
      UnchokedOk(t, longest);
      FlushOk(t.(pipe := t.pipe.(choking := false)), longest);
  }

  lemma UnchokedOk(t: Trace, longest: nat)
    requires Ok(t, longest)
    ensures Ok(t.(pipe := t.pipe.(choking := false)), longest)
  {
  }

  lemma SimpleOk(t: Trace, e: Event, which: nat, longest: nat)
    requires Ok(t, longest) && WindowUsed(t.pipe) && (e.ChokeFlag? || e.ChokeClear?)
    ensures Ok(Track(t, e, which), longest) && WindowUsed(Track(t, e, which).pipe)
    ensures Track(t, e, which).pipe == Handle(t.pipe, e)
  {
    var u := Track(t, e, which);
    var s := t.released + t.queued;
    forall i | 0 <= i < |t.released| ensures s[i] == t.released[i] {
    }
    assert e.ChokeClear? ==> u.released + u.queued == t.released;
  }

  lemma CancelOk(t: Trace, r: Request, which: nat, longest: nat)
    requires Ok(t, longest) && WindowUsed(t.pipe) && longest < TWO32
    ensures Ok(Track(t, Cancelled(r), which), longest) && WindowUsed(Track(t, Cancelled(r), which).pipe)
    ensures Track(t, Cancelled(r), which).pipe == Handle(t.pipe, Cancelled(r))
  {
    hide Balanced, Full, FlushTrace, Answered, Release, RemoveAt, Ascending;
    var i := Find(t.pipe.pending, r);
    assert |t.pipe.pending| == |t.queued|;
    if i < |t.pipe.pending| {
      RemovedOk(t, i, longest);
      FlushOk(t.(pipe := t.pipe.(pending := RemoveAt(t.pipe.pending, i)), queued := RemoveAt(t.queued, i)), longest);
    } else {
      AnsweredOk(t, Release(t.pipe, r.length), which, r.length, which < |t.inFlight| && t.inFlight[which] == r, longest);
    }
  }

  // ---- Every run ----

  /**
   * Over every run: the count never exceeds its cap; an unchoked connection with a non-empty queue has a full window;
   * requests leave the queue in the order they entered it. As long as every answer since the last choke named a request
   * in flight, the count is the number in flight, requested minus received is their total length, and that is below the
   * buffer limit plus one request.
   */
  lemma {:induction false} EveryRun(events: seq<(Event, nat)>, longest: nat)
    requires longest < TWO32
    requires forall k :: 0 <= k < |events| && events[k].0.Want? ==> events[k].0.r.length <= longest
    ensures Ok(Run(events), longest) && WindowUsed(Run(events).pipe)
  {
    hide Ok, WindowUsed, Track;
    if events == [] {
      OriginOk(longest);
    } else {
      var n := |events| - 1;
      EveryRun(events[..n], longest);
      TrackOk(Run(events[..n]), events[n].0, events[n].1, longest);
    }
  }

  lemma OriginOk(longest: nat)
    ensures Ok(ORIGIN, longest) && WindowUsed(ORIGIN.pipe)
  {
  }

  // ---- What a flush sends ----

  /** The pipe after the first n requests of the queue have gone out. */
  function SentFirst(p: Pipe, n: nat): Pipe
    requires n <= |p.pending|
  {
    p.(pending := p.pending[n..], wire := p.wire + p.pending[..n], outstanding := p.outstanding + n,
       requested := p.requested + Sum(p.pending[..n]))
  }

  /**
   * A flush sends a number of requests from the front of the queue: none while choked, and otherwise as many as it takes for
   * the queue to be empty or the window full, and no more.
   */
  lemma {:induction false} FlushSends(p: Pipe) returns (n: nat)
    ensures n <= |p.pending| && Flush(p) == SentFirst(p, n)
    ensures p.choking ==> n == 0 && Flush(p) == p
    ensures !p.choking ==> n == |p.pending| || Full(Flush(p))
    ensures forall k :: 0 <= k < n ==> !Full(SentFirst(p, k))
    decreases |p.pending|
  {
    hide Full;
    if CanSend(p) {
      var q := SendFront(p);
      var m := FlushSends(q);
      n := m + 1;
      FrontThen(p, m);
      NoneSent(p);
      forall k | 0 <= k < n ensures !Full(SentFirst(p, k)) {
        if k > 0 {
          FrontThen(p, k - 1);
        }
      }
    } else {
      n := 0;
      NoneSent(p);
    }
  }

  lemma NoneSent(p: Pipe)
    ensures SentFirst(p, 0) == p
  {
    assert p.pending[..0] == [] && p.wire + [] == p.wire && p.pending[0..] == p.pending;
  }

  lemma FrontThen(p: Pipe, m: nat)
    requires p.pending != [] && m < |p.pending|
    ensures SentFirst(SendFront(p), m) == SentFirst(p, m + 1)
  {
    var r, rest := p.pending[0], p.pending[1..];
    assert p.pending[..m + 1] == [r] + rest[..m] && p.pending[m + 1..] == rest[m..];
    assert p.wire + p.pending[..m + 1] == p.wire + [r] + rest[..m];
    SumFront(r, rest[..m]);
  }

  lemma {:induction false} SumFront(r: Request, s: seq<Request>)
    ensures Sum([r] + s) == r.length + Sum(s)
  {
    if s == [] {
      assert [r] + s == [r] && [r][..0] == [];
    } else {
      var n := |s| - 1;
      SumFront(r, s[..n]);
      assert ([r] + s)[..n + 1] == [r] + s[..n];
    }
  }

  /** The requests that have been sent or are waiting to be. */
  function Requests(p: Pipe): multiset<Request> {
    multiset(p.wire) + multiset(p.pending)
  }

  lemma FlushKeepsRequests(p: Pipe)
    ensures Requests(Flush(p)) == Requests(p)
  {
    hide Flush;
    var n := FlushSends(p);
    assert p.pending == p.pending[..n] + p.pending[n..];
  }

  lemma CountersAside(p: Pipe, length: uint32)
    ensures Requests(Credit(p, length)) == Requests(p) && Requests(Release(p, length)) == Requests(p)
    ensures Requests(p.(choking := true)) == Requests(p.(choking := false)) == Requests(p)
  {
  }

  lemma WantAdds(p: Pipe, r: Request)
    ensures Requests(Handle(p, Want(r))) == Requests(p) + multiset{r}
  {
  }

  lemma CancelTakes(p: Pipe, r: Request)
    ensures Requests(Handle(p, Cancelled(r))) == if r in p.pending then Requests(p) - multiset{r} else Requests(p)
  {
    hide Flush, Find, Release;
    var i := Find(p.pending, r);
    if i < |p.pending| {
      var q := p.(pending := RemoveAt(p.pending, i));
      FlushKeepsRequests(q);
      assert p.pending == p.pending[..i] + [r] + p.pending[i + 1..];
      assert multiset(p.pending) == multiset(q.pending) + multiset{r};
    } else {
      CountersAside(p, r.length);
      FlushKeepsRequests(Release(p, r.length));
    }
  }

  /** No request is lost or sent twice: only a new one adds one, only a cancel in the queue or a choke takes any away. */
  lemma NothingLost(p: Pipe, e: Event)
    ensures Requests(Handle(p, e)) ==
            match e
            case Want(r) => Requests(p) + multiset{r}
            case Cancelled(r) => if r in p.pending then Requests(p) - multiset{r} else Requests(p)
            case ChokeClear => multiset(p.wire)
            case _ => Requests(p)
  {
    match e
    case Want(r) => WantAdds(p, r);
    case Cancelled(r) => CancelTakes(p, r);
    case ChokeClear => assert multiset(p.wire) + multiset([]) == multiset(p.wire);
    case _ => FlushedAnswers(p, e);
  }

  lemma FlushedAnswers(p: Pipe, e: Event)
    requires !e.Want? && !e.Cancelled? && !e.ChokeClear?
    ensures Requests(Handle(p, e)) == Requests(p)
  {
    hide Flush, Credit, Release, Requests;
    var length := if e.Completed? || e.Rejected? || e.SendFailed? then e.length else 0;
    CountersAside(p, length);
    FlushKeepsRequests(Credit(p, length));
    FlushKeepsRequests(Release(p, length));
    FlushKeepsRequests(p.(choking := false));
  }

  /** From the moment the peer chokes us, no answer sends anything from the queue, until it unchokes us. */
  lemma ChokedSendsNothing(p: Pipe, e: Event)
    requires !e.Want? && !e.Unchoke?
    ensures Handle(p, ChokeFlag) == p.(choking := true)
    ensures Handle(Handle(p, ChokeFlag), e).wire == p.wire && Handle(Handle(p, ChokeFlag), e).choking
  {
  }

  /** A choke starts the account afresh. */
  lemma ChokeRestores(events: seq<(Event, nat)>, which: nat)
    ensures var t := Run(events + [(ChokeClear, which)]);
            t.exact && t.inFlight == [] && t.pipe.outstanding == 0 && t.pipe.pending == [] && !Underflown(t.pipe)
  {
    hide Run;
    var more := events + [(ChokeClear, which)];
    var t := RunPrefix(more, |events|);
    assert more[..|events| + 1] == more && more[..|events|] == events;
  }

  // ---- Without the hypothesis ----

  predicate Underflown(p: Pipe) {
    p.requested < p.received
  }

  /**
   * Exactly when a rejection (or failed send, or cancel on the wire) makes requested minus received underflow: some
   * bytes were received and the answer is about more bytes than are in flight.
   */
  lemma UnderflowIff(p: Pipe, length: uint32)
    requires !Underflown(p)
    ensures Underflown(Flush(Release(p, length))) <==> p.received > 0 && p.requested - p.received < length
    ensures !Underflown(Flush(Credit(p, length)))
  {
    hide Flush;
    FlushKeepsSign(Release(p, length));
    FlushKeepsSign(Credit(p, length));
  }

  lemma {:induction false} FlushKeepsSign(p: Pipe)
    requires Underflown(p) ==> p.received - p.requested < TWO32
    ensures Underflown(Flush(p)) <==> Underflown(p)
    decreases |p.pending|
  {
    if CanSend(p) {
      FlushKeepsSign(SendFront(p));
    }
  }

  /** After an underflow the window looks full, so nothing more is sent until a block arrives or the peer chokes. */
  lemma UnderflowLooksFull(p: Pipe, r: Request)
    requires Underflown(p) && p.received - p.requested <= TWO64 - MAX_PIPELINE_BUFFER
    ensures Full(p) && Handle(p, Want(r)).wire == p.wire
  {
  }

  /** A rejection that comes after its block does this: nothing is in flight, and still nothing can be sent. */
  lemma LateRejection(r: Request)
    requires r.length > 0
    ensures var t := Run([(Unchoke, 0), (Want(r), 0), (Completed(r.length), 0), (Rejected(r.length), 0)]);
            !t.exact && t.inFlight == [] && t.pipe.outstanding == 0 && Underflown(t.pipe) && Full(t.pipe)
  {
    hide Run;
    var e: seq<(Event, nat)> := [(Unchoke, 0), (Want(r), 0), (Completed(r.length), 0), (Rejected(r.length), 0)];
    var t0 := RunPrefix(e, 0);
    assert t0 == ORIGIN.(pipe := START.(choking := false));
    var t1 := RunPrefix(e, 1);
    assert t1.inFlight == [r] && t1.pipe.requested == r.length && t1.pipe.pending == [];
    var t2 := RunPrefix(e, 2);
    assert t2.inFlight == [] && t2.pipe.received == r.length == t2.pipe.requested;
    var t3 := RunPrefix(e, 3);
    assert e[..4] == e;
  }

  lemma RunPrefix(events: seq<(Event, nat)>, n: nat) returns (t: Trace)
    requires n < |events|
    ensures t == Run(events[..n + 1]) == Track(Run(events[..n]), events[n].0, events[n].1)
    ensures n == 0 ==> Run(events[..n]) == ORIGIN
  {
    assert events[..n + 1][..n] == events[..n];
    t := Run(events[..n + 1]);
  }

  // ---- The connection ----

  class PeerConnection {
    var pending: seq<Request>
    var outstanding: nat
    var requested: nat
    var received: nat
    var choking: bool
    var wire: seq<Request>

    ghost function State(): Pipe
      reads this
    {
      Pipe(pending, outstanding, requested, received, choking, wire)
    }

    constructor ()
      ensures State() == START
    {
      pending, outstanding, requested, received, choking, wire := [], 0, 0, 0, true, [];
    }

    method FlushPendingRequests()
      modifies this
      ensures State() == Flush(old(State()))
    {
      if choking {
        return;
      }
      while pending != []
        invariant Flush(State()) == Flush(old(State())) && !choking
        decreases |pending|
      {
        var bytes := (requested - received) % TWO64;
        if outstanding >= CAP || bytes >= MAX_PIPELINE_BUFFER {
          break;
        }
        var r := pending[0];
        pending := pending[1..];
        wire := wire + [r];
        requested := requested + r.length;
        outstanding := outstanding + 1;
      }
    }

    /** send_request up to the write; the result tells whether the request is handed to the socket now. */
    method SendRequest(r: Request) returns (now: bool)
      modifies this
      ensures State() == Handle(old(State()), Want(r)) && now == !Full(old(State()))
    {
      var bytes := (requested - received) % TWO64;
      if outstanding >= CAP || bytes >= MAX_PIPELINE_BUFFER {
        pending := pending + [r];
        return false;
      }
      requested := requested + r.length;
      outstanding := outstanding + 1;
      wire := wire + [r];
      return true;
    }

    /** What send_request, on_request_rejected and send_cancel do when a request will not be answered. */
    method GiveBack(length: uint32)
      modifies this
      ensures State() == Flush(Release(old(State()), length))
    {
      if requested >= length {
        requested := requested - length;
      } else {
        requested := 0;
      }
      if outstanding > 0 {
        outstanding := outstanding - 1;
      }
      FlushPendingRequests();
    }

    method OnRequestCompleted(length: uint32)
      modifies this
      ensures State() == Handle(old(State()), Completed(length))
    {
      if received + length > requested {
        received := requested;
      } else {
        received := received + length;
      }
      if outstanding > 0 {
        outstanding := outstanding - 1;
      }
      FlushPendingRequests();
    }

    method OnRequestRejected(length: uint32)
      modifies this
      ensures State() == Handle(old(State()), Rejected(length))
    {
      GiveBack(length);
    }

    /** send_cancel; the result tells whether a cancel message goes out. */
    method SendCancel(r: Request) returns (onWire: bool)
      modifies this
      ensures State() == Handle(old(State()), Cancelled(r)) && onWire == (r !in old(pending))
    {
      var i := Find(pending, r);
      if i < |pending| {
        pending := RemoveAt(pending, i);
        FlushPendingRequests();
        return false;
      }
      GiveBack(r.length);
      return true;
    }

    method OnChoke()
      modifies this
      ensures State() == Handle(Handle(old(State()), ChokeFlag), ChokeClear)
    {
      choking := true;
      pending := [];
      outstanding, requested, received := 0, 0, 0;
    }

    method OnUnchoke()
      modifies this
      ensures State() == Handle(old(State()), Unchoke)
    {
      choking := false;
      FlushPendingRequests();
    }
  }
}

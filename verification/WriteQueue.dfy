/**
 * The per-socket write queue. Any number of coroutines send messages at once; the one that finds no drain active
 * becomes the drain, and only the drain encrypts and writes. The model steps between suspension points, with the
 * socket taking each frame in arbitrary portions, and the connection failing at any of them.
 */
module WriteQueue {
  import opened Bytes
  import opened StreamCipher
  import opened Framing

  /** Where a draining coroutine stands: about to take the lock, or with bytes of a frame still to write. */
  datatype Drain = AtLock | Writing(rest: bytes)

  datatype Queue = Queue(
    queue: seq<bytes>,           // messages whose frames are queued and not yet taken
    writing: bool,
    drains: map<nat, Drain>,     // the coroutines inside drain_write_queue
    cipher: Cipher,
    wire: bytes,                 // what the socket has taken
    dead: bool,                  // the socket has failed
    sent: seq<bytes>,            // history: all messages ever sent, in queue order
    taken: seq<bytes>,           // history: the messages taken for writing before the socket failed
    lost: bytes                  // history: what was left of the frame at which the socket failed
  )

  function Start(c: Cipher): Queue {
    Queue([], false, map[], c, [], false, [], [], [])
  }

  datatype Step =
    | Send(who: nat, m: bytes)   // enqueue_write, locked part
    | Take(who: nat)             // drain: pop the front frame and encrypt it
    | Put(who: nat, n: nat)      // the socket takes n bytes of the frame
    | Written(who: nat)          // async_write completes
    | Finish(who: nat)           // drain: the queue is empty
    | Fail(who: nat)             // async_write fails: fail_all_writes

  predicate Enabled(s: Queue, step: Step) {
    match step
    case Send(w, _) => w !in s.drains
    case Take(w) => w in s.drains && s.drains[w].AtLock? && s.queue != []
    case Put(w, n) => !s.dead && w in s.drains && s.drains[w].Writing? && 0 < n <= |s.drains[w].rest|
    case Written(w) => !s.dead && w in s.drains && s.drains[w] == Writing([])
    case Finish(w) => w in s.drains && s.drains[w].AtLock? && s.queue == []
    case Fail(w) => w in s.drains && s.drains[w].Writing?
  }

  function Next(s: Queue, step: Step): Queue
    requires Enabled(s, step)
  {
    match step
    case Send(w, m) =>
      var s' := s.(queue := s.queue + [m], sent := s.sent + [m]);
      if s.writing then s' else s'.(writing := true, drains := s.drains[w := AtLock])
    case Take(w) =>
      var m := s.queue[0];
      var s' := s.(queue := s.queue[1..], drains := s.drains[w := Writing(Crypt(s.cipher, Frame(m)))],
                   cipher := Advance(s.cipher, |Frame(m)|));
      if s.dead then s' else s'.(taken := s.taken + [m])
    case Put(w, n) =>
      var rest := s.drains[w].rest;
      s.(wire := s.wire + rest[..n], drains := s.drains[w := Writing(rest[n..])])
    case Written(w) =>
      s.(drains := s.drains[w := AtLock])
    case Finish(w) =>
      s.(writing := false, drains := s.drains - {w})
    case Fail(w) =>
      var s' := s.(queue := [], writing := false, drains := s.drains - {w}, dead := true);
      if s.dead then s' else s'.(lost := s.drains[w].rest)
  }

  /** The state after a run of steps, if each is possible when it is taken. */
  function Run(s: Queue, steps: seq<Step>): Option<Queue> {
    if steps == [] then Some(s)
    else
      var before := Run(s, steps[..|steps| - 1]);
      var step := steps[|steps| - 1];
      if before.Some? && Enabled(before.value, step) then Some(Next(before.value, step)) else None
  }

  // ---- What every step keeps ----

  /** At most one drain, and one exactly while the queue says it is being written. */
  predicate OneDrain(s: Queue) {
    && (forall v, w :: v in s.drains && w in s.drains ==> v == w)
    && (s.writing <==> s.drains != map[])
  }

  /** The wire and the unwritten rest are the encrypted frames of the messages taken, which were sent in that order. */
  ghost predicate WireOk(c: Cipher, s: Queue, rest: bytes) {
    && s.taken <= s.sent
    && (s.dead ==> s.wire + s.lost == Crypt(c, Frames(s.taken)) && OfLast(s.taken, s.lost))
    && (!s.dead ==>
          && s.wire + rest == Crypt(c, Frames(s.taken))
          && OfLast(s.taken, rest)
          && s.cipher == Advance(c, |Frames(s.taken)|)
          && s.taken + s.queue == s.sent)
  }

  /** No more than the last frame is unwritten. */
  predicate OfLast(taken: seq<bytes>, rest: bytes) {
    rest == [] || (taken != [] && |rest| <= |Frame(taken[|taken| - 1])|)
  }

  function Rest(d: Drain): bytes {
    if d.Writing? then d.rest else []
  }

  ghost predicate Inv(c: Cipher, s: Queue) {
    && OneDrain(s)
    && (s.drains == map[] ==> WireOk(c, s, []))
    && (forall w :: w in s.drains ==> WireOk(c, s, Rest(s.drains[w])))
    && (s.dead || s.lost == [])
    && (!s.writing && !s.dead ==> s.queue == [])
  }

  lemma TakeStep(c: Cipher, s: Queue, m: bytes)
    requires !s.dead && WireOk(c, s, []) && s.queue != [] && m == s.queue[0]
    ensures s.wire + Crypt(s.cipher, Frame(m)) == Crypt(c, Frames(s.taken + [m]))
    ensures Advance(s.cipher, |Frame(m)|) == Advance(c, |Frames(s.taken + [m])|)
    ensures s.taken + [m] + s.queue[1..] == s.sent
  {
    hide Crypt, Advance, Frame;
    FramesSnoc(s.taken, m);
    CryptSplit(c, Frames(s.taken), Frame(m));
    AdvanceSum(c, |Frames(s.taken)|, |Frame(m)|);
    assert s.queue == [m] + s.queue[1..];
  }

  lemma SendStep(c: Cipher, s: Queue, w: nat, m: bytes)
    requires Inv(c, s) && Enabled(s, Send(w, m))
    ensures Inv(c, Next(s, Send(w, m)))
  {
  }

  lemma PutStep(c: Cipher, s: Queue, w: nat, n: nat)
    requires Inv(c, s) && Enabled(s, Put(w, n))
    ensures Inv(c, Next(s, Put(w, n)))
  {
  }

  lemma EndStep(c: Cipher, s: Queue, step: Step)
    requires Inv(c, s) && Enabled(s, step) && (step.Finish? || step.Fail?)
    ensures Inv(c, Next(s, step))
  {
  }

  lemma InvStep(c: Cipher, s: Queue, step: Step)
    requires Inv(c, s) && Enabled(s, step)
    ensures Inv(c, Next(s, step))
  {
    hide Crypt, Advance, Frame, Frames;
    match step
    case Send(w, m) => SendStep(c, s, w, m);
    case Take(w) =>
      if !s.dead {
        TakeStep(c, s, s.queue[0]);
      }
    case Put(w, n) => PutStep(c, s, w, n);
    case Written(w) =>
    case Finish(_) => EndStep(c, s, step);
    case Fail(_) => EndStep(c, s, step);
  }

  lemma InvStart(c: Cipher)
    ensures Inv(c, Start(c))
  {
  }

  lemma {:induction false} InvRun(c: Cipher, steps: seq<Step>)
    requires Run(Start(c), steps).Some?
    ensures Inv(c, Run(Start(c), steps).value)
    decreases |steps|
  {
    if steps == [] {
      InvStart(c);
    } else {
      InvRun(c, steps[..|steps| - 1]);
      InvStep(c, Run(Start(c), steps[..|steps| - 1]).value, steps[|steps| - 1]);
    }
  }

  // ---- End to end ----

  /** The wire of a reachable state: whole encrypted frames in queue order, and then part of one more. */
  lemma WireIsFrames(c: Cipher, steps: seq<Step>) returns (whole: seq<bytes>, part: bytes)
    requires Run(Start(c), steps).Some?
    ensures var s := Run(Start(c), steps).value;
            && s.wire == (if c.Keyed? then Crypted(c.st, Frames(whole) + part) else Frames(whole) + part)
            && s.wire == Crypt(c, Frames(whole) + part)
            && whole <= s.sent
            && (part == [] || (|whole| < |s.sent| && part <= Frame(s.sent[|whole|]) && |part| < |Frame(s.sent[|whole|])|))
            && (s.drains == map[] && !s.dead ==> whole == s.sent && part == [])
  {
    InvRun(c, steps);
    var s := Run(Start(c), steps).value;
    var rest := if s.dead then s.lost else if s.drains == map[] then [] else Rest(s.drains[DrainOf(s)]);
    whole, part := Cut(c, s.taken, s.wire, rest);
  }

  ghost function DrainOf(s: Queue): (w: nat)
    requires s.drains != map[]
    ensures w in s.drains
  {
    var w :| w in s.drains; w
  }

  /** The written part of the encrypted frames, cut at the last frame that is complete. */
  lemma Cut(c: Cipher, taken: seq<bytes>, wire: bytes, rest: bytes) returns (whole: seq<bytes>, part: bytes)
    requires wire + rest == Crypt(c, Frames(taken)) && OfLast(taken, rest)
    ensures wire == Crypt(c, Frames(whole) + part) && whole <= taken
    ensures rest == [] ==> whole == taken && part == []
    ensures rest != [] ==> |whole| < |taken| && part <= Frame(taken[|whole|]) && |part| < |Frame(taken[|whole|])|
  {
    hide Crypt, Frame, Frames;
    if rest == [] {
      whole, part := taken, [];
      assert wire + [] == wire && Frames(taken) + [] == Frames(taken);
    } else {
      var last := taken[|taken| - 1];
      whole := taken[..|taken| - 1];
      assert taken == whole + [last];
      FramesSnoc(whole, last);
      var k := |Frame(last)| - |rest|;
      part := Frame(last)[..k];
      assert Frames(taken) == (Frames(whole) + part) + Frame(last)[k..];
      CryptSplit(c, Frames(whole) + part, Frame(last)[k..]);
      assert wire == (wire + rest)[..|wire|];
    }
  }

  lemma RunMore(s: Queue, steps: seq<Step>, step: Step)
    requires Run(s, steps).Some? && Enabled(Run(s, steps).value, step)
    ensures Run(s, steps + [step]) == Some(Next(Run(s, steps).value, step))
  {
    hide Next, Enabled;
    assert (steps + [step])[..|steps|] == steps;
  }

  /** How far the drain is from taking the next frame or leaving. */
  ghost function Rank(s: Queue): nat {
    if s.drains == map[] then 0
    else match s.drains[DrainOf(s)] case AtLock => 1 case Writing(rest) => if rest == [] then 2 else 3
  }

  /** What the drain does next if the socket does not fail. */
  ghost function DrainStep(s: Queue): Step
    requires s.drains != map[]
  {
    var w := DrainOf(s);
    match s.drains[w]
    case AtLock => if s.queue == [] then Finish(w) else Take(w)
    case Writing(rest) => if rest == [] then Written(w) else Put(w, |rest|)
  }

  lemma DrainAdvances(c: Cipher, s: Queue)
    requires Inv(c, s) && !s.dead && s.drains != map[]
    ensures Enabled(s, DrainStep(s))
    ensures var r := Next(s, DrainStep(s));
            && !r.dead && r.sent == s.sent
            && (|r.queue| < |s.queue| || (|r.queue| == |s.queue| && Rank(r) < Rank(s)))
  {
    hide Crypt, Advance, Frame, Frames, WireOk;
    var w, r := DrainOf(s), Next(s, DrainStep(s));
    if r.drains != map[] {
      assert DrainOf(r) in r.drains && (forall v :: v in r.drains ==> v == w);
    }
  }

  /**
   * From every reachable state in which the socket has not failed, the drain alone brings every message that was sent onto
   * the wire.
   */
  lemma {:induction false} CanDrain(c: Cipher, steps: seq<Step>) returns (more: seq<Step>)
    requires Run(Start(c), steps).Some? && !Run(Start(c), steps).value.dead
    ensures Run(Start(c), steps + more).Some?
    ensures var s, r := Run(Start(c), steps).value, Run(Start(c), steps + more).value;
            r.drains == map[] && !r.dead && r.sent == s.sent && r.wire == Crypt(c, Frames(s.sent))
    decreases |Run(Start(c), steps).value.queue|, Rank(Run(Start(c), steps).value)
  {
    hide Run, Crypt, Frames, Next, Enabled, DrainStep, Rank;
    InvRun(c, steps);
    var s := Run(Start(c), steps).value;
    if s.drains == map[] {
      more := [];
      assert steps + more == steps;
      Drained(c, s);
    } else {
      var step := DrainStep(s);
      DrainAdvances(c, s);
      RunMore(Start(c), steps, step);
      var rest := CanDrain(c, steps + [step]);
      more := [step] + rest;
      assert steps + [step] + rest == steps + more;
    }
  }

  lemma Drained(c: Cipher, s: Queue)
    requires Inv(c, s) && s.drains == map[] && !s.dead
    ensures s.wire == Crypt(c, Frames(s.sent))
  {
    hide Crypt, Advance, Frame, Frames;
    assert s.wire + [] == s.wire && s.taken + [] == s.taken;
  }

  /** A failed write drops what is queued; the next sender starts a new drain. */
  lemma FailDrops(c: Cipher, s: Queue, w: nat, v: nat, m: bytes)
    requires Inv(c, s) && Enabled(s, Fail(w))
    ensures var r := Next(s, Fail(w));
            && r.queue == [] && r.drains == map[] && !r.writing && r.dead && r.wire == s.wire
            && Enabled(r, Send(v, m)) && Next(r, Send(v, m)).drains == map[v := AtLock] && Next(r, Send(v, m)).queue == [m]
  {
    hide Crypt, Advance, Frame, Frames, WireOk;
  }

  /**
   * For every interleaving of senders and drain, every way the socket takes the bytes, and with or without
   * encryption: the receiver gets the messages in the order they were queued, each whole; and when the queue is
   * drained it gets all of them, if and only if they are within the size limit.
   */
  lemma EndToEnd(c: Cipher, steps: seq<Step>)
    requires Run(Start(c), steps).Some?
    requires forall k :: 0 <= k < |Run(Start(c), steps).value.sent| ==>
                           |Run(Start(c), steps).value.sent[k]| < 0x1_0000_0000
    ensures var s := Run(Start(c), steps).value;
            var (received, _) := ReceiveAll(s.wire, c);
            && received <= s.sent
            && (s.drains == map[] && !s.dead ==> (received == s.sent <==> AllFit(s.sent)))
  {
    hide Crypt, Frame, Frames, Run, ReceiveAll;
    var s := Run(Start(c), steps).value;
    var whole, part := WireIsFrames(c, steps);
    AcceptedAll(whole);
    if part == [] {
      EmptyPart([]);
      ReceiveSent(whole, [], part, c);
    } else if |s.sent[|whole|]| <= MAX_MESSAGE_SIZE {
      ReceiveSent(whole, s.sent[|whole|], part, c);
    } else {
      ReceivePrefix(whole, s.sent[|whole|], part, c);
    }
  }

  lemma EmptyPart(m: bytes)
    ensures [] <= Frame(m) && 0 < |Frame(m)|
  {
  }
}

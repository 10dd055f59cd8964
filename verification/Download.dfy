/**
 * Downloading pieces. Starters, block deliveries and the coroutines that hash, return, write and announce a completed
 * piece interleave freely; each step is what one of them does between two suspension points.
 */
module Download {
  import opened Bytes
  import opened Layout
  import opened Blocks
  import opened PieceStatus

  type Digest = bytes

  /** The torrent, the digest of each piece, and the hash function. */
  datatype Env = Env(t: Torrent, expected: seq<Digest>, sha1: bytes -> Digest)

  predicate ValidEnv(e: Env) {
    ValidTorrent(e.t) && |e.expected| == e.t.numPieces
  }

  function Size(e: Env, p: nat): nat
    requires ValidEnv(e)
  {
    SizeByRemainder(e.t, p)
  }

  predicate Matches(e: Env, p: nat, data: bytes)
    requires p < |e.expected|
  {
    e.sha1(data) == e.expected[p]
  }

  // ---- Counting finished pieces ----

  function CountHave(s: seq<Status>): nat {
    if s == [] then 0 else CountHave(s[..|s| - 1]) + (if s[|s| - 1] == Have then 1 else 0)
  }

  lemma {:induction false} CountUpdate(s: seq<Status>, i: nat, x: Status)
    requires i < |s|
    ensures CountHave(s[i := x]) == CountHave(s) - (if s[i] == Have then 1 else 0) + (if x == Have then 1 else 0)
  {
    var n := |s| - 1;
    if i < n {
      CountUpdate(s[..n], i, x);
      assert s[i := x][..n] == s[..n][i := x];
    } else {
      assert s[i := x][..n] == s[..n];
    }
  }

  lemma {:induction false} CountBounds(s: seq<Status>)
    ensures CountHave(s) <= |s|
    ensures CountHave(s) == |s| <==> forall i :: 0 <= i < |s| ==> s[i] == Have
    ensures CountHave(s) == 0 <==> forall i :: 0 <= i < |s| ==> s[i] != Have
  {
    if s != [] {
      var n := |s| - 1;
      CountBounds(s[..n]);
      assert forall i :: 0 <= i < n ==> s[i] == s[..n][i];
    }
  }

  lemma NotAll(s: seq<Status>, i: nat)
    requires i < |s| && s[i] != Have
    ensures CountHave(s) < |s|
  {
    CountBounds(s);
  }

  // ---- Work in progress ----

  predicate ProgressOk(x: Progress, size: nat) {
    |x.data| == size && |x.flags| == TotalBlocks(size) && x.count == CountTrue(x.flags)
  }

  predicate Full(x: Progress) {
    x.count == |x.flags|
  }

  /** A complete piece takes no more blocks; a piece becomes complete exactly by the delivery that observes it. */
  lemma DeliveredOk(x: Progress, size: nat, d: Delivery)
    requires ProgressOk(x, size) && Fits(x, d)
    ensures ProgressOk(Delivered(x, d), size)
    ensures Full(Delivered(x, d)) <==> Full(x) || Observes(x, d)
    ensures Observes(x, d) ==> !Full(x)
  {
    hide TotalBlocks;
    CountAll(x.flags);
    if Accepts(x, d) {
      CountSet(x.flags, d.begin / BLOCK_SIZE);
      assert !x.flags[d.begin / BLOCK_SIZE];
    }
  }

  lemma FreshOk(size: nat)
    ensures ProgressOk(Fresh(size), size)
  {
    CountNone(Fresh(size).flags);
  }

  // ---- The state ----

  /**
   * Where the coroutine that completed a piece stands: about to hash it, about to return it because the digest did not
   * match, writing its bytes because it did, or announcing it.
   */
  datatype Stage = Checking | Returning | Writing(data: bytes) | Finishing

  /**
   * starting: starters that found the piece needed and are looking for peers. stage: the pieces that are being completed.
   * History: content holds the bytes with which pieces became Have, claimed the pieces that are Have because a resume file
   * says so; overwritten counts starters that went on with a piece that was Have by then; overrun says that a block was
   * copied past the end of its piece, after which nothing is known.
   */
  datatype State = State(status: seq<Status>, completed: nat, complete: bool, progress: map<nat, Progress>,
                         starting: multiset<nat>, stage: map<nat, Stage>,
                         content: map<nat, bytes>, claimed: set<nat>, overwritten: nat, overrun: bool)

  datatype Event =
    | Test(p: nat)
    | GiveUp(p: nat)
    | Proceed(p: nat)
    | Block(p: nat, d: Delivery)
    | Hash(p: nat)
    | Return(p: nat)
    | Mark(p: nat)
    | Done(p: nat)

  function Begin(e: Env): State {
    State(seq(|e.expected|, _ => Needed), 0, false, map[], multiset{}, map[], map[], {}, 0, false)
  }

  /** try_piece_download from its peer lookup on: the status is not looked at again. */
  function Proceeded(e: Env, s: State, p: nat): State
    requires ValidEnv(e) && p < |s.status|
  {
    s.(starting := s.starting - multiset{p},
       status := s.status[p := InProgress],
       progress := if p in s.progress then s.progress else s.progress[p := Fresh(Size(e, p))],
       overwritten := s.overwritten + (if s.status[p] == Have then 1 else 0))
  }

  /** on_piece_block up to the point where it knows whether the piece is complete. */
  function Received(s: State, p: nat, d: Delivery): State
    requires p < |s.status|
  {
    if s.status[p] == Have || p !in s.progress then s
    else if !Fits(s.progress[p], d) then s.(overrun := true)
    else s.(progress := s.progress[p := Delivered(s.progress[p], d)],
            stage := if Observes(s.progress[p], d) then s.stage[p := Checking] else s.stage)
  }

  function Hashed(e: Env, s: State, p: nat): State
    requires p < |e.expected| && p in s.progress
  {
    var data := s.progress[p].data;
    s.(stage := s.stage[p := if Matches(e, p, data) then Writing(data) else Returning])
  }

  /** return_piece_to_queue */
  function Returned(s: State, p: nat): State
    requires p < |s.status|
  {
    s.(stage := s.stage - {p}, progress := s.progress - {p}, status := s.status[p := Needed])
  }

  function Marked(s: State, p: nat): State
    requires p < |s.status| && p in s.stage && s.stage[p].Writing?
  {
    s.(stage := s.stage[p := Finishing], status := s.status[p := Have],
       completed := s.completed + 1, content := s.content[p := s.stage[p].data])
  }

  function Finished(s: State, p: nat): State {
    s.(stage := s.stage - {p}, progress := s.progress - {p}, complete := s.complete || s.completed == |s.status|)
  }

  /** The step is possible: its coroutine is at that point, and nothing has gone out of bounds. */
  predicate Enabled(e: Env, s: State, ev: Event) {
    && !s.overrun && ev.p < |s.status| && ev.p < |e.expected|
    && match ev
       case Test(p) => s.status[p] == Needed
       case GiveUp(p) => p in s.starting
       case Proceed(p) => p in s.starting
       case Block(_, _) => true
       case Hash(p) => p in s.stage && s.stage[p] == Checking && p in s.progress
       case Return(p) => p in s.stage && s.stage[p] == Returning
       case Mark(p) => p in s.stage && s.stage[p].Writing?
       case Done(p) => p in s.stage && s.stage[p] == Finishing
  }

  /** One step; one that is not possible does not happen. */
  function Next(e: Env, s: State, ev: Event): State
    requires ValidEnv(e)
  {
    if !Enabled(e, s, ev) then s
    else match ev
      case Test(p) => s.(starting := s.starting + multiset{p})
      case GiveUp(p) => s.(starting := s.starting - multiset{p})
      case Proceed(p) => Proceeded(e, s, p)
      case Block(p, d) => Received(s, p, d)
      case Hash(p) => Hashed(e, s, p)
      case Return(p) => Returned(s, p)
      case Mark(p) => Marked(s, p)
      case Done(p) => Finished(s, p)
  }

  // ---- What every step keeps ----

  /**
   * A piece in progress: its blocks are counted right; while it is being completed it has all of them, and it is not Have
   * before it is marked; what is being written is its data, with the expected digest.
   */
  predicate PieceOk(e: Env, s: State, p: nat)
    requires ValidEnv(e) && p in s.progress
  {
    && p < |s.status| == |e.expected|
    && ProgressOk(s.progress[p], Size(e, p))
    && (p in s.stage ==> StageOk(e, p, s.stage[p], s.progress[p], s.status[p]))
  }

  predicate StageOk(e: Env, p: nat, stage: Stage, x: Progress, status: Status)
    requires p < |e.expected|
  {
    && Full(x)
    && (stage != Finishing ==> status != Have)
    && (stage.Writing? ==> stage.data == x.data && Matches(e, p, x.data))
  }

  ghost predicate WorkOk(e: Env, s: State)
    requires ValidEnv(e)
  {
    && |s.status| == |e.expected| && s.stage.Keys <= s.progress.Keys
    && forall p :: p in s.progress ==> PieceOk(e, s, p)
  }

  /** Every Have piece has bytes of its length with the expected digest, or was claimed by a resume file. */
  ghost predicate ContentOk(e: Env, s: State)
    requires ValidEnv(e)
  {
    && |s.status| == |e.expected|
    && (forall p :: p in s.content ==>
          p < |s.status| && |s.content[p]| == Size(e, p) && Matches(e, p, s.content[p]))
    && (forall p :: 0 <= p < |s.status| && s.status[p] == Have ==> p in s.content || p in s.claimed)
  }

  /** The counter is the number of Have pieces and of Have pieces that starters overwrote. */
  predicate CounterOk(s: State) {
    && s.completed == CountHave(s.status) + s.overwritten
    && (s.complete && s.overwritten == 0 ==> s.completed == |s.status|)
  }

  ghost predicate Ok(e: Env, s: State)
    requires ValidEnv(e)
  {
    |s.status| == |e.expected| && WorkOk(e, s) && ContentOk(e, s) && CounterOk(s)
  }

  lemma ProceedCounts(e: Env, s: State, p: nat)
    requires ValidEnv(e) && CounterOk(s) && p < |s.status|
    ensures CounterOk(Proceeded(e, s, p))
  {
    hide CountHave;
    CountUpdate(s.status, p, InProgress);
    if s.status[p] != Have {
      NotAll(s.status, p);
    }
  }

  lemma NextCounts(e: Env, s: State, ev: Event)
    requires ValidEnv(e) && WorkOk(e, s) && CounterOk(s)
    ensures CounterOk(Next(e, s, ev))
  {
    hide CountHave, ProgressOk, Full, Matches, Delivered, Observes, Fits, Size;
    if Enabled(e, s, ev) {
      match ev
      case Proceed(p) => ProceedCounts(e, s, p);
      case Return(p) =>
        assert PieceOk(e, s, p);
        CountUpdate(s.status, p, Needed);
      case Mark(p) =>
        assert PieceOk(e, s, p);
        CountUpdate(s.status, p, Have);
        NotAll(s.status, p);
      case _ =>
    }
  }

  lemma MarkContent(e: Env, s: State, p: nat)
    requires ValidEnv(e) && WorkOk(e, s) && ContentOk(e, s) && p in s.stage && s.stage[p].Writing?
    ensures p < |s.status| && ContentOk(e, Marked(s, p))
  {
    hide Full, Matches, Size, TotalBlocks;
    assert PieceOk(e, s, p);
  }

  lemma SameContent(e: Env, s: State, r: State)
    requires ValidEnv(e) && ContentOk(e, s)
    requires |r.status| == |s.status| && r.content == s.content && r.claimed == s.claimed
    requires forall p :: 0 <= p < |s.status| && r.status[p] == Have ==> s.status[p] == Have
    ensures ContentOk(e, r)
  {
  }

  lemma NextContent(e: Env, s: State, ev: Event)
    requires ValidEnv(e) && WorkOk(e, s) && ContentOk(e, s)
    ensures ContentOk(e, Next(e, s, ev))
  {
    hide ContentOk, PieceOk, Matches, Delivered, Observes, Fits, Size;
    if Enabled(e, s, ev) && ev.Mark? {
      MarkContent(e, s, ev.p);
    } else {
      SameContent(e, s, Next(e, s, ev));
    }
  }

  /** A change to one piece leaves the others right. */
  lemma OthersOk(e: Env, s: State, r: State, p: nat)
    requires ValidEnv(e) && WorkOk(e, s) && |r.status| == |s.status|
    requires forall q :: q != p && 0 <= q < |s.status| ==> r.status[q] == s.status[q]
    requires r.progress - {p} == s.progress - {p} && r.stage - {p} == s.stage - {p}
    requires (p in r.progress ==> PieceOk(e, r, p)) && (p in r.stage ==> p in r.progress)
    ensures WorkOk(e, r)
  {
    hide ProgressOk, StageOk, Size;
    forall q | q in r.progress ensures PieceOk(e, r, q) {
      if q != p {
        assert q in r.progress - {p} && q in s.progress - {p};
        assert PieceOk(e, s, q);
        assert q in r.stage ==> q in r.stage - {p};
      }
    }
    forall q | q in r.stage ensures q in r.progress {
      if q != p {
        assert q in r.stage - {p};
        assert q in s.progress - {p};
      }
    }
  }

  /** Only one delivery completes a piece: none does while the piece is being completed. */
  lemma OneCompleter(e: Env, s: State, p: nat, d: Delivery)
    requires ValidEnv(e) && WorkOk(e, s) && p in s.progress && Observes(s.progress[p], d)
    ensures p !in s.stage
  {
    assert PieceOk(e, s, p);
    CountAll(s.progress[p].flags);
  }

  lemma FullKeepsData(x: Progress, d: Delivery, size: nat)
    requires ProgressOk(x, size) && Fits(x, d)
    ensures Full(x) ==> Delivered(x, d) == x
  {
    CountAll(x.flags);
  }

  lemma ReceivedWork(e: Env, s: State, p: nat, d: Delivery)
    requires ValidEnv(e) && WorkOk(e, s) && p < |s.status|
    ensures WorkOk(e, Received(s, p, d))
  {
    hide ProgressOk, Full, Matches, Size, Delivered, Observes, Fits;
    var r := Received(s, p, d);
    if s.status[p] != Have && p in s.progress && Fits(s.progress[p], d) {
      assert PieceOk(e, s, p);
      DeliveredOk(s.progress[p], Size(e, p), d);
      FullKeepsData(s.progress[p], d, Size(e, p));
      OthersOk(e, s, r, p);
    } else {
      OthersOk(e, s, r, |s.status|);
    }
  }

  lemma ProceedWork(e: Env, s: State, p: nat)
    requires ValidEnv(e) && WorkOk(e, s) && p < |s.status|
    ensures WorkOk(e, Proceeded(e, s, p))
  {
    hide ProgressOk, Full, Matches, Size, Fresh;
    FreshOk(Size(e, p));
    if p in s.progress {
      assert PieceOk(e, s, p);
    }
    OthersOk(e, s, Proceeded(e, s, p), p);
  }

  lemma NextWork(e: Env, s: State, ev: Event)
    requires ValidEnv(e) && WorkOk(e, s)
    ensures WorkOk(e, Next(e, s, ev))
  {
    hide ProgressOk, Full, Matches, Size, Proceeded, Received;
    if Enabled(e, s, ev) {
      if ev.p in s.progress {
        assert PieceOk(e, s, ev.p);
      }
      match ev
      case Proceed(p) => ProceedWork(e, s, p);
      case Block(p, d) => ReceivedWork(e, s, p, d);
      case _ => OthersOk(e, s, Next(e, s, ev), ev.p);
    }
  }

  lemma NextLength(e: Env, s: State, ev: Event)
    requires ValidEnv(e)
    ensures |Next(e, s, ev).status| == |s.status|
  {
  }

  lemma NextOk(e: Env, s: State, ev: Event)
    requires ValidEnv(e) && Ok(e, s)
    ensures Ok(e, Next(e, s, ev))
  {
    hide WorkOk, ContentOk, CounterOk, Next;
    NextLength(e, s, ev);
    NextWork(e, s, ev);
    NextContent(e, s, ev);
    NextCounts(e, s, ev);
  }

  // ---- Every run ----

  function After(e: Env, s: State, evs: seq<Event>): State
    requires ValidEnv(e)
  {
    if evs == [] then s else Next(e, After(e, s, evs[..|evs| - 1]), evs[|evs| - 1])
  }

  /** No starter goes on with a piece that has become Have since it looked. */
  predicate Guarded(e: Env, s: State, evs: seq<Event>)
    requires ValidEnv(e)
  {
    evs == [] ||
    (Guarded(e, s, evs[..|evs| - 1]) && !Overwrites(e, After(e, s, evs[..|evs| - 1]), evs[|evs| - 1]))
  }

  predicate Overwrites(e: Env, s: State, ev: Event) {
    ev.Proceed? && Enabled(e, s, ev) && s.status[ev.p] == Have
  }

  /**
   * Over every run: blocks are counted right and each complete piece is hashed by one delivery; every Have piece has bytes
   * with the expected digest unless a resume file claimed it; the counter is the number of Have pieces plus the number of
   * Have pieces that starters overwrote.
   */
  lemma {:induction false} EveryRun(e: Env, s: State, evs: seq<Event>)
    requires ValidEnv(e) && Ok(e, s)
    ensures Ok(e, After(e, s, evs))
    ensures After(e, s, evs).claimed == s.claimed && After(e, s, evs).overwritten >= s.overwritten
  {
    hide Ok, Next;
    if evs != [] {
      var b := After(e, s, evs[..|evs| - 1]);
      EveryRun(e, s, evs[..|evs| - 1]);
      NextOk(e, b, evs[|evs| - 1]);
      NextHistory(e, b, evs[|evs| - 1]);
    }
  }

  lemma NextHistory(e: Env, s: State, ev: Event)
    requires ValidEnv(e)
    ensures Next(e, s, ev).claimed == s.claimed
    ensures Next(e, s, ev).overwritten == s.overwritten + (if Overwrites(e, s, ev) then 1 else 0)
  {
  }

  /** One second half of a start: the counter stays right if and only if the piece is not Have when it runs. */
  lemma ProceedIff(e: Env, s: State, p: nat)
    requires ValidEnv(e) && Enabled(e, s, Proceed(p)) && s.completed == CountHave(s.status)
    ensures var r := Next(e, s, Proceed(p));
            r.completed == CountHave(r.status) <==> s.status[p] != Have
  {
    CountUpdate(s.status, p, InProgress);
  }

  lemma {:induction false} GuardedIff(e: Env, s: State, evs: seq<Event>)
    requires ValidEnv(e)
    ensures After(e, s, evs).overwritten >= s.overwritten
    ensures Guarded(e, s, evs) <==> After(e, s, evs).overwritten == s.overwritten
  {
    hide Next, Overwrites;
    if evs != [] {
      GuardedIff(e, s, evs[..|evs| - 1]);
      NextHistory(e, After(e, s, evs[..|evs| - 1]), evs[|evs| - 1]);
    }
  }

  /**
   * A whole download, from any state in which the counter is right: the counter is the number of Have pieces afterwards if
   * and only if no starter went on with a piece that had become Have; and then complete means that every piece is Have.
   */
  lemma CounterRightIff(e: Env, s: State, evs: seq<Event>)
    requires ValidEnv(e) && Ok(e, s) && s.overwritten == 0
    ensures After(e, s, evs).completed == CountHave(After(e, s, evs).status) <==> Guarded(e, s, evs)
    ensures Guarded(e, s, evs) && After(e, s, evs).complete ==>
              forall p :: 0 <= p < |After(e, s, evs).status| ==> After(e, s, evs).status[p] == Have
  {
    var r := After(e, s, evs);
    EveryRun(e, s, evs);
    GuardedIff(e, s, evs);
    CountBounds(r.status);
  }

  /** After a start-up that left no claim unverified, every Have piece has bytes with the expected digest. */
  lemma HaveHasDigest(e: Env, s: State, evs: seq<Event>, p: nat)
    requires ValidEnv(e) && Ok(e, s) && s.claimed == {} && p < |After(e, s, evs).status|
    requires After(e, s, evs).status[p] == Have
    ensures p in After(e, s, evs).content && p < |e.expected|
    ensures |After(e, s, evs).content[p]| == PieceLen(e.t, p) && Matches(e, p, After(e, s, evs).content[p])
  {
    hide After, WorkOk;
    EveryRun(e, s, evs);
    SizesAgree(e.t, p);
  }

  lemma NextStaysHave(e: Env, s: State, ev: Event, p: nat)
    requires ValidEnv(e) && WorkOk(e, s) && !Overwrites(e, s, ev) && p < |s.status| && s.status[p] == Have
    ensures |Next(e, s, ev).status| == |s.status| && Next(e, s, ev).status[p] == Have
  {
    hide ProgressOk, Full, Matches, Size, Fits, Delivered, Observes;
    if p in s.progress {
      assert PieceOk(e, s, p);
    }
  }

  /** While starters are guarded, a finished piece stays finished. */
  lemma {:induction false} StaysHave(e: Env, s: State, evs: seq<Event>, p: nat)
    requires ValidEnv(e) && Ok(e, s) && Guarded(e, s, evs) && p < |s.status| && s.status[p] == Have
    ensures p < |After(e, s, evs).status| && After(e, s, evs).status[p] == Have
  {
    hide Next, WorkOk, ContentOk, CounterOk, Overwrites;
    if evs != [] {
      var n := |evs| - 1;
      StaysHave(e, s, evs[..n], p);
      EveryRun(e, s, evs[..n]);
      NextStaysHave(e, After(e, s, evs[..n]), evs[n], p);
    }
  }

  // ---- What a download comes to ----

  lemma {:induction false} AfterBoth(e: Env, s: State, a: seq<Event>, b: seq<Event>)
    requires ValidEnv(e)
    ensures After(e, s, a + b) == After(e, After(e, s, a), b)
    decreases |b|
  {
    hide Next;
    if b == [] {
      assert a + b == a;
    } else {
      var n := |b| - 1;
      AfterBoth(e, s, a, b[..n]);
      assert (a + b)[..|a + b| - 1] == a + b[..n];
    }
  }

  lemma After2(e: Env, s: State, a: Event, b: Event)
    requires ValidEnv(e)
    ensures After(e, s, [a, b]) == Next(e, Next(e, s, a), b)
  {
    hide Next;
    assert [a, b][..1] == [a] && [a][..0] == [];
    assert After(e, s, [a]) == Next(e, After(e, s, []), a);
  }

  lemma After3(e: Env, s: State, a: Event, b: Event, c: Event)
    requires ValidEnv(e)
    ensures After(e, s, [a, b, c]) == Next(e, Next(e, Next(e, s, a), b), c)
  {
    hide Next;
    After2(e, s, a, b);
    assert [a, b, c][..2] == [a, b];
  }

  /** The piece is as it was, and where it was. */
  predicate SamePiece(s: State, r: State, q: nat)
    requires q < |s.status| == |r.status|
  {
    && r.status[q] == s.status[q]
    && (q in r.progress <==> q in s.progress) && (q in s.progress ==> r.progress[q] == s.progress[q])
    && (q in r.stage <==> q in s.stage) && (q in s.stage ==> r.stage[q] == s.stage[q])
  }

  /** A returned piece is needed and can be started again, nothing of it is kept, and no other piece is touched. */
  lemma ReturnEffect(e: Env, s: State, p: nat)
    requires ValidEnv(e) && Ok(e, s) && Enabled(e, s, Return(p))
    ensures var r := Next(e, s, Return(p));
            && |r.status| == |s.status| && r.status[p] == Needed && p !in r.progress && p !in r.stage
            && (forall q :: 0 <= q < |s.status| && q != p ==> SamePiece(s, r, q))
            && r.starting == s.starting && r.completed == s.completed && r.complete == s.complete && r.content == s.content
            && Enabled(e, r, Test(p))
  {
    hide Ok, Size;
  }

  /**
   * From every reachable state: a complete piece whose bytes do not match is hashed, returned and started again, with none of
   * its blocks received.
   */
  lemma Retried(e: Env, s: State, evs: seq<Event>, p: nat)
    requires ValidEnv(e) && Ok(e, s)
    requires var r := After(e, s, evs); Enabled(e, r, Hash(p)) && !Matches(e, p, r.progress[p].data)
    ensures var r := After(e, s, evs + [Hash(p), Return(p)] + [Test(p), Proceed(p)]);
            && !r.overrun && p < |r.status| && r.status[p] == InProgress
            && p in r.progress && r.progress[p] == Fresh(Size(e, p)) && p !in r.stage
  {
    hide After, Size, Ok, Matches;
    EveryRun(e, s, evs);
    var r := After(e, s, evs);
    AfterBoth(e, s, evs + [Hash(p), Return(p)], [Test(p), Proceed(p)]);
    AfterBoth(e, s, evs, [Hash(p), Return(p)]);
    After2(e, r, Hash(p), Return(p));
    HashFails(e, r, p);
    var back := Next(e, Next(e, r, Hash(p)), Return(p));
    After2(e, back, Test(p), Proceed(p));
    Starts(e, back, p);
  }

  lemma HashFails(e: Env, s: State, p: nat)
    requires ValidEnv(e) && Ok(e, s) && Enabled(e, s, Hash(p)) && !Matches(e, p, s.progress[p].data)
    ensures Next(e, Next(e, s, Hash(p)), Return(p))
         == s.(stage := s.stage - {p}, progress := s.progress - {p}, status := s.status[p := Needed])
  {
    hide Ok, Matches, Size;
  }

  /** A starter looks at a needed piece without an entry and goes on. */
  lemma Starts(e: Env, s: State, p: nat)
    requires ValidEnv(e) && Enabled(e, s, Test(p)) && p !in s.progress
    ensures Next(e, Next(e, s, Test(p)), Proceed(p))
         == s.(status := s.status[p := InProgress], progress := s.progress[p := Fresh(Size(e, p))])
  {
    hide Size;
    assert s.starting + multiset{p} - multiset{p} == s.starting;
  }

  /** A starter that finds no peer leaves everything as it was. */
  lemma LooksInVain(e: Env, s: State, p: nat)
    requires ValidEnv(e) && Enabled(e, s, Test(p))
    ensures Next(e, Next(e, s, Test(p)), GiveUp(p)) == s
  {
    assert s.starting + multiset{p} - multiset{p} == s.starting;
  }

  /** A block that is taken and does not fit ends the model; nothing happens after it. */
  lemma Overruns(e: Env, s: State, p: nat, d: Delivery, ev: Event)
    requires ValidEnv(e) && Enabled(e, s, Block(p, d)) && s.status[p] != Have && p in s.progress
    requires Accepts(s.progress[p], d) && d.begin + |d.block| > |s.progress[p].data|
    ensures var r := Next(e, s, Block(p, d));
            r == s.(overrun := true) && Next(e, r, ev) == r
  {
  }

  function Deliveries(p: nat, ds: seq<Delivery>): seq<Event> {
    if ds == [] then [] else Deliveries(p, ds[..|ds| - 1]) + [Block(p, ds[|ds| - 1])]
  }

  /** The piece after these blocks: being hashed if it has them all. */
  function Collected(s: State, p: nat, x: Progress): State {
    s.(progress := s.progress[p := x], stage := if Full(x) then s.stage[p := Checking] else s.stage)
  }

  /** Blocks in any order, with duplicates, arrive for a piece that has just been started. */
  lemma {:induction false} Collects(e: Env, s: State, p: nat, ds: seq<Delivery>)
    requires ValidEnv(e) && p < |s.status| == |e.expected| && !s.overrun && s.status[p] == InProgress
    requires p in s.progress && s.progress[p] == Fresh(Size(e, p)) && p !in s.stage
    requires AllWellFormed(Size(e, p), ds)
    ensures After(e, s, Deliveries(p, ds)) == Collected(s, p, Blocks.After(Size(e, p), ds))
  {
    hide Size, TotalBlocks, Delivered, Next, AllWellFormed, WellFormed;
    var size := Size(e, p);
    if ds == [] {
      PositiveSize(e, p);
      Empty(size);
      assert s.progress[p := s.progress[p]] == s.progress;
    } else {
      var n := |ds| - 1;
      Prefixes(size, ds);
      Collects(e, s, p, ds[..n]);
      CollectsOne(e, s, p, ds);
      var evs := Deliveries(p, ds);
      assert evs[..|evs| - 1] == Deliveries(p, ds[..n]);
    }
  }

  lemma Prefixes(size: nat, ds: seq<Delivery>)
    requires AllWellFormed(size, ds) && ds != []
    ensures AllWellFormed(size, ds[..|ds| - 1]) && WellFormed(size, ds[|ds| - 1])
  {
  }

  lemma FullStep(size: nat, ds: seq<Delivery>)
    requires AllWellFormed(size, ds) && ds != []
    ensures var x, y, d := Blocks.After(size, ds[..|ds| - 1]), Blocks.After(size, ds), ds[|ds| - 1];
            && Fits(x, d) && y == Delivered(x, d)
            && (Full(y) <==> Full(x) || Observes(x, d)) && (Observes(x, d) ==> !Full(x))
  {
    hide TotalBlocks, WellFormed;
    var x, d := Blocks.After(size, ds[..|ds| - 1]), ds[|ds| - 1];
    WellFormedFits(size, x, d);
    CountStep(size, ds);
  }

  lemma CollectsOne(e: Env, s: State, p: nat, ds: seq<Delivery>)
    requires ValidEnv(e) && p < |s.status| == |e.expected| && !s.overrun && s.status[p] == InProgress
    requires p in s.progress && p !in s.stage && AllWellFormed(Size(e, p), ds) && ds != []
    ensures var size, n := Size(e, p), |ds| - 1;
            Next(e, Collected(s, p, Blocks.After(size, ds[..n])), Block(p, ds[n])) == Collected(s, p, Blocks.After(size, ds))
  {
    hide Size, TotalBlocks, WellFormed, Blocks.After, Delivered, Fits, Observes, Full;
    var size, n := Size(e, p), |ds| - 1;
    FullStep(size, ds);
    var x, y := Blocks.After(size, ds[..n]), Blocks.After(size, ds);
    assert s.progress[p := x][p := y] == s.progress[p := y];
    assert s.stage[p := Checking][p := Checking] == s.stage[p := Checking];
  }

  /** Every block of the piece is among the deliveries. */
  predicate Covers(size: nat, ds: seq<Delivery>) {
    forall b :: 0 <= b < TotalBlocks(size) ==> Has(ds, b)
  }

  /** The bytes of a piece: of each block the first delivery, in order. */
  function Assembled(size: nat, ds: seq<Delivery>): bytes {
    Joined(ds, TotalBlocks(size))
  }

  /**
   * A needed piece is started, and all its blocks arrive, in any order and with any duplicates. If the digest of the blocks
   * put together is right, the piece ends up Have with these bytes, one more is counted, and the download is complete if the
   * counter then says so; if not, the piece is needed again and nothing at all has changed.
   */
  lemma WholeDownload(e: Env, s: State, p: nat, ds: seq<Delivery>)
    requires ValidEnv(e) && Ok(e, s) && Enabled(e, s, Test(p)) && p !in s.progress
    requires AllWellFormed(Size(e, p), ds) && Covers(Size(e, p), ds)
    ensures Matches(e, p, Assembled(Size(e, p), ds)) ==>
              After(e, s, [Test(p), Proceed(p)] + Deliveries(p, ds) + [Hash(p), Mark(p), Done(p)])
              == s.(status := s.status[p := Have], completed := s.completed + 1,
                    complete := s.complete || s.completed + 1 == |s.status|,
                    content := s.content[p := Assembled(Size(e, p), ds)])
    ensures !Matches(e, p, Assembled(Size(e, p), ds)) ==>
              After(e, s, [Test(p), Proceed(p)] + Deliveries(p, ds) + [Hash(p), Return(p)]) == s
  {
    hide After, Size, Matches, Deliveries, Fresh, Covers, AllWellFormed, Next;
    var size := Size(e, p);
    var begun := Begun(e, s, p);
    Collects(e, begun, p, ds);
    var x := Blocks.After(size, ds);
    Complete(e, p, ds);
    var r := Collected(begun, p, x);
    AfterBoth(e, s, [Test(p), Proceed(p)], Deliveries(p, ds));
    if Matches(e, p, x.data) {
      AfterBoth(e, s, [Test(p), Proceed(p)] + Deliveries(p, ds), [Hash(p), Mark(p), Done(p)]);
      After3(e, r, Hash(p), Mark(p), Done(p));
      Succeeds(e, s, p, x);
    } else {
      AfterBoth(e, s, [Test(p), Proceed(p)] + Deliveries(p, ds), [Hash(p), Return(p)]);
      After2(e, r, Hash(p), Return(p));
      Fails(e, s, p, x);
    }
  }

  lemma Begun(e: Env, s: State, p: nat) returns (r: State)
    requires ValidEnv(e) && Ok(e, s) && Enabled(e, s, Test(p)) && p !in s.progress
    ensures r == After(e, s, [Test(p), Proceed(p)])
    ensures r == s.(status := s.status[p := InProgress], progress := s.progress[p := Fresh(Size(e, p))])
    ensures p !in r.stage
  {
    hide After, Size, Next;
    After2(e, s, Test(p), Proceed(p));
    Starts(e, s, p);
    r := After(e, s, [Test(p), Proceed(p)]);
  }

  lemma Complete(e: Env, p: nat, ds: seq<Delivery>)
    requires ValidEnv(e) && p < |e.expected| && AllWellFormed(Size(e, p), ds) && Covers(Size(e, p), ds)
    ensures Full(Blocks.After(Size(e, p), ds)) && Blocks.After(Size(e, p), ds).data == Assembled(Size(e, p), ds)
  {
    hide Has, Size, TotalBlocks, AllWellFormed, Blocks.After;
    SizesAgree(e.t, p);
    assert 0 < Size(e, p) by {
      PositiveSize(e, p);
    }
    AllDelivered(Size(e, p), ds);
    WholePiece(Size(e, p), ds);
  }

  lemma PositiveSize(e: Env, p: nat)
    requires ValidEnv(e) && p < |e.expected|
    ensures 0 < Size(e, p)
  {
    SizesAgree(e.t, p);
  }

  /** A piece whose bytes match is hashed, written and marked. */
  lemma HashSucceeds(e: Env, s: State, p: nat)
    requires ValidEnv(e) && Enabled(e, s, Hash(p)) && Matches(e, p, s.progress[p].data)
    ensures Next(e, Next(e, s, Hash(p)), Mark(p))
         == s.(stage := s.stage[p := Finishing], status := s.status[p := Have], completed := s.completed + 1,
               content := s.content[p := s.progress[p].data])
  {
    hide Matches, Size;
  }

  lemma Announced(e: Env, s: State, p: nat)
    requires ValidEnv(e) && Enabled(e, s, Done(p))
    ensures Next(e, s, Done(p))
         == s.(stage := s.stage - {p}, progress := s.progress - {p}, complete := s.complete || s.completed == |s.status|)
  {
  }

  lemma Succeeds(e: Env, s: State, p: nat, x: Progress)
    requires ValidEnv(e) && Ok(e, s) && Enabled(e, s, Test(p)) && p !in s.progress && Full(x) && Matches(e, p, x.data)
    ensures var begun := s.(status := s.status[p := InProgress], progress := s.progress[p := Fresh(Size(e, p))]);
            Next(e, Next(e, Next(e, Collected(begun, p, x), Hash(p)), Mark(p)), Done(p))
            == s.(status := s.status[p := Have], completed := s.completed + 1,
                  complete := s.complete || s.completed + 1 == |s.status|, content := s.content[p := x.data])
  {
    hide Size, Matches, Full, PieceOk, ContentOk, CounterOk, Fresh, Next;
    var begun := s.(status := s.status[p := InProgress], progress := s.progress[p := Fresh(Size(e, p))]);
    var r := Collected(begun, p, x);
    HashSucceeds(e, r, p);
    Announced(e, Next(e, Next(e, r, Hash(p)), Mark(p)), p);
    assert r.progress - {p} == s.progress && r.stage[p := Finishing] - {p} == s.stage;
    assert r.status[p := Have] == s.status[p := Have];
  }

  lemma Fails(e: Env, s: State, p: nat, x: Progress)
    requires ValidEnv(e) && Ok(e, s) && Enabled(e, s, Test(p)) && p !in s.progress && Full(x) && !Matches(e, p, x.data)
    ensures var begun := s.(status := s.status[p := InProgress], progress := s.progress[p := Fresh(Size(e, p))]);
            Next(e, Next(e, Collected(begun, p, x), Hash(p)), Return(p)) == s
  {
    hide Size, Matches, Full, PieceOk, ContentOk, CounterOk, Fresh;
    var begun := s.(status := s.status[p := InProgress], progress := s.progress[p := Fresh(Size(e, p))]);
    var r := Next(e, Next(e, Collected(begun, p, x), Hash(p)), Return(p));
    assert r.progress == s.progress && r.stage == s.stage && r.status == s.status;
  }

  // ---- A run that overwrites ----

  /** Two pieces of one byte; the hash is the identity. */
  function TwoPieces(): Env {
    Env(Torrent([FileInfo(2, true)], 1, 2), [[7], [8]], b => b)
  }

  /** Two starters look at the same piece before either goes on; the second goes on when the piece has been downloaded. */
  function TwoStarters(): seq<Event> {
    var d := Delivery(0, [7]);
    [Test(0), Test(0), Proceed(0), Block(0, d), Hash(0), Mark(0), Done(0), Proceed(0),
     Block(0, d), Hash(0), Mark(0), Done(0)]
  }

  lemma TwoPiecesOk()
    ensures ValidEnv(TwoPieces()) && Size(TwoPieces(), 0) == 1 && TotalBlocks(1) == 1
  {
    var t := TwoPieces().t;
    assert FileStart(t.files, 1) == FileStart(t.files, 0) + 2;
  }

  lemma Prefix(e: Env, s: State, evs: seq<Event>, n: nat) returns (r: State)
    requires ValidEnv(e) && n < |evs|
    ensures r == After(e, s, evs[..n + 1]) == Next(e, After(e, s, evs[..n]), evs[n])
    ensures n == 0 ==> After(e, s, evs[..n]) == s
  {
    assert evs[..n + 1][..n] == evs[..n];
    r := After(e, s, evs[..n + 1]);
  }

  /** Nothing is going on but a start of piece 0. */
  predicate Quiet(s: State, progress: map<nat, Progress>) {
    !s.overrun && |s.status| == 2 && s.progress == progress && s.stage == map[]
  }

  /** The one block of piece 0 arrives and matches. */
  lemma OneByteArrives(e: Env, s: State) returns (r: State)
    requires e == TwoPieces() && ValidEnv(e) && Quiet(s, map[0 := Fresh(1)]) && s.status[0] == InProgress
    ensures r == Next(e, Next(e, s, Block(0, Delivery(0, [7]))), Hash(0))
    ensures r == s.(progress := map[0 := Progress([7], [true], 1)], stage := map[0 := Writing([7])])
  {
    TwoPiecesOk();
    var a := Next(e, s, Block(0, Delivery(0, [7])));
    assert a.progress[0] == Progress([7], [true], 1);
    r := Next(e, a, Hash(0));
  }

  /** It is marked and announced. */
  lemma OneByteRound(e: Env, s: State) returns (r: State)
    requires e == TwoPieces() && ValidEnv(e) && Quiet(s, map[0 := Fresh(1)]) && s.status[0] == InProgress
    ensures r == Next(e, Next(e, Next(e, Next(e, s, Block(0, Delivery(0, [7]))), Hash(0)), Mark(0)), Done(0))
    ensures Quiet(r, map[]) && r.status == s.status[0 := Have] && r.completed == s.completed + 1
    ensures r.starting == s.starting && r.complete == (s.complete || r.completed == 2)
  {
    var b := OneByteArrives(e, s);
    var c := Next(e, b, Mark(0));
    r := Next(e, c, Done(0));
    assert r.progress == map[] && r.stage == map[];
  }

  lemma GoesOn(e: Env, s: State)
    requires e == TwoPieces() && ValidEnv(e) && Quiet(s, map[]) && 0 in s.starting
    ensures var r := Next(e, s, Proceed(0));
            && Quiet(r, map[0 := Fresh(1)]) && r.status == s.status[0 := InProgress]
            && r.completed == s.completed && r.complete == s.complete && r.starting == s.starting - multiset{0}
  {
    TwoPiecesOk();
  }

  lemma BothLook(e: Env)
    requires e == TwoPieces() && ValidEnv(e)
    ensures var r := Next(e, Next(e, Begin(e), Test(0)), Test(0));
            && Quiet(r, map[]) && r.status == [Needed, Needed] && r.starting == multiset{0, 0}
            && r.completed == 0 && !r.complete
  {
  }

  /** The session reports a complete download while the other piece is missing. */
  lemma CompleteWithoutAll()
    ensures ValidEnv(TwoPieces())
    ensures var r := After(TwoPieces(), Begin(TwoPieces()), TwoStarters());
            r.complete && r.status == [Have, Needed] && r.completed == 2 && CountHave(r.status) == 1
    ensures !Guarded(TwoPieces(), Begin(TwoPieces()), TwoStarters())
  {
    hide Next, CountHave, Quiet, Guarded, Ok;
    TwoPiecesOk();
    var e, evs := TwoPieces(), TwoStarters();
    var s := Twelve(e, Begin(e), evs);
    BothLook(e);
    var s2 := Next(e, Next(e, Begin(e), Test(0)), Test(0));
    GoesOn(e, s2);
    var a := OneByteRound(e, Next(e, s2, Proceed(0)));
    GoesOn(e, a);
    var b := OneByteRound(e, Next(e, a, Proceed(0)));
    assert s == b;
    OneOfTwo();
    BeginOk(e);
    CounterRightIff(e, Begin(e), evs);
  }

  /** The run, step by step. */
  lemma Twelve(e: Env, s: State, evs: seq<Event>) returns (r: State)
    requires ValidEnv(e) && |evs| == 12
    ensures r == After(e, s, evs)
    ensures var m := Next(e, Next(e, Next(e, Next(e, Next(e, Next(e, s, evs[0]), evs[1]), evs[2]), evs[3]), evs[4]), evs[5]);
            r == Next(e, Next(e, Next(e, Next(e, Next(e, Next(e, m, evs[6]), evs[7]), evs[8]), evs[9]), evs[10]), evs[11])
  {
    hide Next;
    var s0 := Prefix(e, s, evs, 0);
    var s1 := Prefix(e, s, evs, 1);
    var s2 := Prefix(e, s, evs, 2);
    var s3 := Prefix(e, s, evs, 3);
    var s4 := Prefix(e, s, evs, 4);
    var s5 := Prefix(e, s, evs, 5);
    var s6 := Prefix(e, s, evs, 6);
    var s7 := Prefix(e, s, evs, 7);
    var s8 := Prefix(e, s, evs, 8);
    var s9 := Prefix(e, s, evs, 9);
    var s10 := Prefix(e, s, evs, 10);
    r := Prefix(e, s, evs, 11);
    assert evs[..12] == evs;
  }

  lemma OneOfTwo()
    ensures CountHave([Have, Needed]) == 1
  {
    assert [Have, Needed][..1] == [Have] && |[Have][..0]| == 0;
  }

  lemma BeginOk(e: Env)
    requires ValidEnv(e)
    ensures Ok(e, Begin(e)) && Begin(e).overwritten == 0 && Begin(e).claimed == {}
  {
    CountBounds(Begin(e).status);
  }
}

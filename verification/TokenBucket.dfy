/** The token bucket that limits transfer rates. */
module TokenBucket {
  const TWO64: nat := 0x1_0000_0000_0000_0000

  /** A caller that asked for tokens; callers are numbered in the order they asked. */
  datatype Caller = Caller(id: nat, amount: nat)

  /**
   * next: the number of the next caller. granted and aborted: the callers completed either way. served: the numbers of
   * those that had to wait, in the order they were completed.
   */
  datatype Bucket = Bucket(rate: nat, capacity: nat, tokens: nat, stopping: bool, waiters: seq<Caller>,
                           next: nat, granted: seq<Caller>, aborted: seq<Caller>, served: seq<nat>)

  function Fresh(rate: nat, factor: nat): Bucket {
    var capacity := rate * factor % TWO64;
    Bucket(rate, capacity, capacity, false, [], 0, [], [], [])
  }

  datatype Event =
    | Await(amount: nat)
    | SetRate(bps: nat)
    | Refill
    | Stop

  predicate Ready(b: Bucket) {
    b.waiters != [] && b.tokens >= b.waiters[0].amount
  }

  function Serve(b: Bucket): Bucket
    requires Ready(b)
  {
    var w := b.waiters[0];
    b.(waiters := b.waiters[1..], tokens := b.tokens - w.amount, granted := b.granted + [w],
       served := b.served + [w.id])
  }

  /** collect_ready_waiters_locked */
  function Collect(b: Bucket): Bucket
    decreases |b.waiters|
  {
    if Ready(b) then Collect(Serve(b)) else b
  }

  function Min(a: nat, b: nat): nat {
    if a < b then a else b
  }

  function Ids(s: seq<Caller>): (r: seq<nat>)
    ensures |r| == |s| && forall i :: 0 <= i < |s| ==> r[i] == s[i].id
  {
    seq(|s|, i requires 0 <= i < |s| => s[i].id)
  }

  function Handle(b: Bucket, e: Event): Bucket {
    match e
    case Await(amount) =>
      var c := Caller(b.next, amount);
      var n := b.(next := b.next + 1);
      if b.stopping then n.(aborted := b.aborted + [c])
      else if b.rate == 0 then n.(granted := b.granted + [c])
      else if b.tokens >= amount then n.(tokens := b.tokens - amount, granted := b.granted + [c])
      else n.(waiters := b.waiters + [c])
    case SetRate(bps) =>
      if b.stopping then b
      else if bps == 0 then
        b.(rate := 0, capacity := 0, tokens := TWO64 - 1, waiters := [], granted := b.granted + b.waiters,
           served := b.served + Ids(b.waiters))
      else Collect(b.(rate := bps, capacity := bps, tokens := Min(b.tokens, bps)))
    case Refill =>
      if b.stopping then b
      else Collect(b.(tokens := Min((b.tokens + b.rate / 10) % TWO64, b.capacity)))
    case Stop =>
      if b.stopping then b
      else b.(stopping := true, waiters := [], aborted := b.aborted + b.waiters, served := b.served + Ids(b.waiters))
  }

  function After(b: Bucket, es: seq<Event>): Bucket {
    if es == [] then b else Handle(After(b, es[..|es| - 1]), es[|es| - 1])
  }

  // ---- What every event keeps ----

  /** The waiter at the head needs more than there is. */
  predicate HeadWaits(b: Bucket) {
    b.waiters != [] ==> b.tokens < b.waiters[0].amount
  }

  predicate Ascending(s: seq<nat>, next: nat) {
    && (forall i, j :: 0 <= i < j < |s| ==> s[i] < s[j])
    && (forall i :: 0 <= i < |s| ==> s[i] < next)
  }

  /** First come, first served. */
  predicate Fifo(b: Bucket) {
    Ascending(b.served + Ids(b.waiters), b.next)
  }

  /** Every caller is granted, aborted or waiting, and only one of these, once. */
  ghost predicate Accounted(b: Bucket) {
    multiset(Ids(b.granted)) + multiset(Ids(b.aborted)) + multiset(Ids(b.waiters)) == multiset(Upto(b.next))
  }

  function Upto(n: nat): (r: seq<nat>)
    ensures |r| == n && forall i :: 0 <= i < n ==> r[i] == i
  {
    if n == 0 then [] else Upto(n - 1) + [n - 1]
  }

  ghost predicate Inv(b: Bucket) {
    HeadWaits(b) && Fifo(b) && Accounted(b) && (b.rate > 0 ==> b.tokens <= b.capacity)
  }

  lemma IdsOfTwo(a: seq<Caller>, b: seq<Caller>)
    ensures Ids(a + b) == Ids(a) + Ids(b)
  {
  }

  lemma ServeKeeps(b: Bucket)
    requires Ready(b)
    ensures Fifo(b) ==> Fifo(Serve(b))
    ensures Accounted(b) ==> Accounted(Serve(b))
  {
    var w := b.waiters[0];
    assert b.waiters == [w] + b.waiters[1..];
    IdsOfTwo([w], b.waiters[1..]);
    IdsOfTwo(b.granted, [w]);
    assert Ids([w]) == [w.id];
    assert b.served + Ids(b.waiters) == b.served + [w.id] + Ids(b.waiters[1..]);
  }

  lemma {:induction false} CollectKeeps(b: Bucket)
    requires Fifo(b) && Accounted(b)
    ensures Fifo(Collect(b)) && Accounted(Collect(b)) && HeadWaits(Collect(b))
    ensures Collect(b).tokens <= b.tokens && Collect(b).rate == b.rate && Collect(b).capacity == b.capacity
    decreases |b.waiters|
  {
    hide Fifo, Accounted;
    if Ready(b) {
      ServeKeeps(b);
      CollectKeeps(Serve(b));
    }
  }

  lemma ReleaseKeeps(b: Bucket, r: Bucket)
    requires Inv(b) && r.waiters == [] && r.next == b.next && r.served == b.served + Ids(b.waiters)
    requires || (r.granted == b.granted + b.waiters && r.aborted == b.aborted)
             || (r.granted == b.granted && r.aborted == b.aborted + b.waiters)
    ensures Fifo(r) && Accounted(r)
  {
    assert r.served + Ids(r.waiters) == b.served + Ids(b.waiters);
    IdsOfTwo(b.granted, b.waiters);
    IdsOfTwo(b.aborted, b.waiters);
  }

  lemma OneMoreFifo(b: Bucket, r: Bucket, c: Caller)
    requires Fifo(b) && c.id == b.next && r.next == b.next + 1 && r.served == b.served
    requires r.waiters == b.waiters || r.waiters == b.waiters + [c]
    ensures Fifo(r)
  {
    var s := b.served + Ids(b.waiters);
    if r.waiters == b.waiters + [c] {
      IdsOfTwo(b.waiters, [c]);
      assert r.served + Ids(r.waiters) == s + [c.id];
    } else {
      assert r.served + Ids(r.waiters) == s;
    }
  }

  lemma OneMoreAccounted(b: Bucket, r: Bucket, c: Caller)
    requires Accounted(b) && c.id == b.next && r.next == b.next + 1
    requires || (r.granted == b.granted + [c] && r.aborted == b.aborted && r.waiters == b.waiters)
             || (r.granted == b.granted && r.aborted == b.aborted + [c] && r.waiters == b.waiters)
             || (r.granted == b.granted && r.aborted == b.aborted && r.waiters == b.waiters + [c])
    ensures Accounted(r)
  {
    hide Upto, Ids;
    OneMoreId(b.granted, c);
    OneMoreId(b.aborted, c);
    OneMoreId(b.waiters, c);
    UptoMore(b.next);
  }

  lemma OneMoreId(s: seq<Caller>, c: Caller)
    ensures multiset(Ids(s + [c])) == multiset(Ids(s)) + multiset{c.id}
  {
    IdsOfTwo(s, [c]);
    assert Ids([c]) == [c.id];
  }

  lemma AwaitKeeps(b: Bucket, amount: nat)
    requires Inv(b)
    ensures Inv(Handle(b, Await(amount)))
  {
    hide Fifo, Accounted;
    var c, r := Caller(b.next, amount), Handle(b, Await(amount));
    OneMoreFifo(b, r, c);
    OneMoreAccounted(b, r, c);
  }

  lemma UptoMore(n: nat)
    ensures multiset(Upto(n + 1)) == multiset(Upto(n)) + multiset{n}
  {
  }

  lemma HandleKeeps(b: Bucket, e: Event)
    requires Inv(b)
    ensures Inv(Handle(b, e))
  {
    hide Fifo, Accounted, Collect;
    match e
    case Await(amount) => AwaitKeeps(b, amount);
    case SetRate(bps) =>
      if !b.stopping {
        if bps == 0 {
          ReleaseKeeps(b, Handle(b, e));
        } else {
          var m := b.(rate := bps, capacity := bps, tokens := Min(b.tokens, bps));
          SameQueue(b, m);
          CollectKeeps(m);
        }
      }
    case Refill =>
      if !b.stopping {
        var m := b.(tokens := Min((b.tokens + b.rate / 10) % TWO64, b.capacity));
        SameQueue(b, m);
        CollectKeeps(m);
      }
    case Stop =>
      if !b.stopping {
        ReleaseKeeps(b, Handle(b, e));
      }
  }

  lemma SameQueue(b: Bucket, m: Bucket)
    requires Fifo(b) && Accounted(b)
    requires m.waiters == b.waiters && m.served == b.served && m.next == b.next
    requires m.granted == b.granted && m.aborted == b.aborted
    ensures Fifo(m) && Accounted(m)
  {
  }

  // ---- Every run ----

  /**
   * In every reachable state the head waiter needs more than the tokens on hand, waiters have been completed in the order
   * they came, and each caller has been completed exactly once or is still waiting.
   */
  lemma {:induction false} EveryRun(rate: nat, factor: nat, es: seq<Event>)
    ensures Inv(After(Fresh(rate, factor), es))
  {
    hide Inv, Handle;
    if es == [] {
      FreshInv(rate, factor);
    } else {
      EveryRun(rate, factor, es[..|es| - 1]);
      HandleKeeps(After(Fresh(rate, factor), es[..|es| - 1]), es[|es| - 1]);
    }
  }

  lemma FreshInv(rate: nat, factor: nat)
    ensures Inv(Fresh(rate, factor))
  {
  }

  // ---- The rate ----

  function Bytes(s: seq<Caller>): nat {
    if s == [] then 0 else Bytes(s[..|s| - 1]) + s[|s| - 1].amount
  }

  function Refills(es: seq<Event>): nat {
    if es == [] then 0 else Refills(es[..|es| - 1]) + (if es[|es| - 1] == Refill then 1 else 0)
  }

  lemma BytesMore(s: seq<Caller>, c: Caller)
    ensures Bytes(s + [c]) == Bytes(s) + c.amount
  {
  }

  /** Collecting turns tokens into granted bytes, one for one. */
  lemma {:induction false} CollectConserves(b: Bucket)
    ensures Bytes(Collect(b).granted) + Collect(b).tokens == Bytes(b.granted) + b.tokens
    ensures Collect(b).rate == b.rate && Collect(b).stopping == b.stopping
    decreases |b.waiters|
  {
    if Ready(b) {
      BytesMore(b.granted, b.waiters[0]);
      CollectConserves(Serve(b));
    }
  }

  lemma HandleConserves(b: Bucket, e: Event)
    requires b.rate > 0 && !e.SetRate?
    ensures Bytes(Handle(b, e).granted) + Handle(b, e).tokens
         <= Bytes(b.granted) + b.tokens + (if e == Refill then b.rate / 10 else 0)
    ensures Handle(b, e).rate == b.rate
  {
    hide Bytes, Collect;
    match e
    case Await(amount) => BytesMore(b.granted, Caller(b.next, amount));
    case Refill => CollectConserves(b.(tokens := Min((b.tokens + b.rate / 10) % TWO64, b.capacity)));
    case Stop =>
  }

  lemma {:induction false} StretchConserves(b: Bucket, es: seq<Event>)
    requires b.rate > 0 && forall k :: 0 <= k < |es| ==> !es[k].SetRate?
    ensures Bytes(After(b, es).granted) + After(b, es).tokens
         <= Bytes(b.granted) + b.tokens + Refills(es) * (b.rate / 10)
    ensures After(b, es).rate == b.rate
  {
    hide Handle, Bytes;
    if es == [] {
      assert Refills(es) * (b.rate / 10) == 0;
    } else {
      var n := |es| - 1;
      StretchConserves(b, es[..n]);
      HandleConserves(After(b, es[..n]), es[n]);
      OneRefillMore(Refills(es[..n]), b.rate / 10);
    }
  }

  lemma OneRefillMore(n: nat, x: nat)
    ensures (n + 1) * x == n * x + x
  {
  }

  /**
   * From any reachable state, over any stretch at a constant positive rate: the bytes granted are at most the capacity
   * plus a tenth of the rate for each refill.
   */
  lemma RateBound(rate: nat, factor: nat, before: seq<Event>, stretch: seq<Event>)
    requires After(Fresh(rate, factor), before).rate > 0
    requires forall k :: 0 <= k < |stretch| ==> !stretch[k].SetRate?
    ensures var b := After(Fresh(rate, factor), before);
            Bytes(After(b, stretch).granted) - Bytes(b.granted) <= b.capacity + Refills(stretch) * (b.rate / 10)
  {
    hide After, Bytes, Refills;
    EveryRun(rate, factor, before);
    StretchConserves(After(Fresh(rate, factor), before), stretch);
  }

  // ---- What the events do ----

  /** The first n waiters are served, and so many tokens are left. */
  function ServedFirst(b: Bucket, n: nat, tokens: nat): Bucket
    requires n <= |b.waiters|
  {
    b.(waiters := b.waiters[n..], granted := b.granted + b.waiters[..n], served := b.served + Ids(b.waiters[..n]),
       tokens := tokens)
  }

  lemma HeadThen(b: Bucket, m: nat, tokens: nat)
    requires Ready(b) && m < |b.waiters|
    ensures ServedFirst(Serve(b), m, tokens) == ServedFirst(b, m + 1, tokens)
  {
    var w, rest := b.waiters[0], b.waiters[1..];
    assert b.waiters[..m + 1] == [w] + rest[..m] && b.waiters[m + 1..] == rest[m..];
    IdsOfTwo([w], rest[..m]);
    assert Ids([w]) == [w.id];
    assert b.granted + b.waiters[..m + 1] == b.granted + [w] + rest[..m];
    assert b.served + Ids(b.waiters[..m + 1]) == b.served + [w.id] + Ids(rest[..m]);
  }

  lemma NoneServed(b: Bucket)
    ensures ServedFirst(b, 0, b.tokens) == b
  {
    assert b.waiters[..0] == [] && b.waiters[0..] == b.waiters;
    assert b.granted + [] == b.granted && b.served + Ids([]) == b.served;
  }

  /** Collecting serves waiters from the head, as many as there are tokens for, and changes nothing else. */
  lemma {:induction false} CollectServes(b: Bucket) returns (n: nat)
    ensures n <= |b.waiters| && HeadWaits(Collect(b)) && (n == 0 <==> !Ready(b))
    ensures Collect(b) == ServedFirst(b, n, Collect(b).tokens)
    decreases |b.waiters|
  {
    hide ServedFirst;
    if Ready(b) {
      var m := CollectServes(Serve(b));
      n := m + 1;
      HeadThen(b, m, Collect(b).tokens);
    } else {
      n := 0;
      NoneServed(b);
    }
  }

  /** A refill adds a tenth of the rate up to the capacity, and grants exactly the bytes it takes. */
  lemma RefillConserves(b: Bucket)
    requires !b.stopping
    ensures var r := Handle(b, Refill);
            && Bytes(r.granted) + r.tokens == Bytes(b.granted) + Min((b.tokens + b.rate / 10) % TWO64, b.capacity)
            && r.rate == b.rate && r.capacity == b.capacity && !r.stopping && r.aborted == b.aborted
  {
    hide Bytes, Collect;
    var m := b.(tokens := Min((b.tokens + b.rate / 10) % TWO64, b.capacity));
    CollectConserves(m);
    var n := CollectServes(m);
  }

  /** A caller is granted exactly the tokens it takes, or waits and takes none. */
  lemma AwaitConserves(b: Bucket, amount: nat)
    requires !b.stopping && b.rate > 0
    ensures var r := Handle(b, Await(amount));
            && Bytes(r.granted) + r.tokens == Bytes(b.granted) + b.tokens
            && r.granted + r.waiters == (if amount <= b.tokens then b.granted + [Caller(b.next, amount)] + b.waiters
                                         else b.granted + (b.waiters + [Caller(b.next, amount)]))
  {
    hide Bytes;
    BytesMore(b.granted, Caller(b.next, amount));
  }

  /** A new rate is the new capacity; tokens above it are lost, and the others go to the waiters that they suffice for. */
  lemma NewRate(b: Bucket, bps: nat)
    requires !b.stopping && bps > 0
    ensures var r := Handle(b, SetRate(bps));
            && r.rate == r.capacity == bps && !r.stopping && r.aborted == b.aborted && HeadWaits(r)
            && Bytes(r.granted) + r.tokens == Bytes(b.granted) + Min(b.tokens, bps)
  {
    hide Bytes, Collect;
    var m := b.(rate := bps, capacity := bps, tokens := Min(b.tokens, bps));
    CollectConserves(m);
    var n := CollectServes(m);
  }

  /** Lifting the limit releases everybody, and nobody has to wait afterwards. */
  lemma Lifted(b: Bucket, amount: nat)
    requires !b.stopping
    ensures var r := Handle(b, SetRate(0));
            && r.waiters == [] && r.granted == b.granted + b.waiters && r.aborted == b.aborted
            && Handle(r, Await(amount)) == r.(next := r.next + 1, granted := r.granted + [Caller(r.next, amount)])
            && r.rate == r.capacity == 0 && !r.stopping
  {
  }

  /** Setting a limit after one was lifted starts with a full bucket. */
  lemma LimitedAgain(b: Bucket, bps: nat)
    requires !b.stopping && 0 < bps < TWO64
    ensures var r := Handle(Handle(b, SetRate(0)), SetRate(bps));
            r.rate == r.capacity == r.tokens == bps && r.waiters == [] && r.granted == b.granted + b.waiters
  {
  }

  /** After a stop, everybody who waited has been aborted, and whatever happens nobody is granted anything any more. */
  lemma {:induction false} StopsForGood(b: Bucket, es: seq<Event>)
    requires !b.stopping
    ensures var r := After(Handle(b, Stop), es);
            && r.stopping && r.waiters == [] && r.granted == b.granted && b.aborted + b.waiters <= r.aborted
  {
    if es != [] {
      StopsForGood(b, es[..|es| - 1]);
    }
  }

  function Refilled(b: Bucket, n: nat): Bucket
    decreases n
  {
    if n == 0 then b else Refilled(Handle(b, Refill), n - 1)
  }

  /** Nothing but refills. */
  function OnlyRefills(n: nat): seq<Event> {
    if n == 0 then [] else OnlyRefills(n - 1) + [Refill]
  }

  lemma {:induction false} RefilledMore(b: Bucket, n: nat)
    ensures Refilled(b, n + 1) == Handle(Refilled(b, n), Refill)
    decreases n
  {
    hide Handle;
    if n > 0 {
      RefilledMore(Handle(b, Refill), n - 1);
    }
  }

  lemma OneMoreEvent(b: Bucket, es: seq<Event>, e: Event)
    ensures After(b, es + [e]) == Handle(After(b, es), e)
    ensures Refills(es + [e]) == Refills(es) + (if e == Refill then 1 else 0)
  {
    hide Handle;
    assert (es + [e])[..|es|] == es;
  }

  lemma {:induction false} RefilledIsRun(b: Bucket, n: nat)
    ensures Refilled(b, n) == After(b, OnlyRefills(n)) && Refills(OnlyRefills(n)) == n
  {
    hide Handle;
    if n > 0 {
      RefilledIsRun(b, n - 1);
      RefilledMore(b, n - 1);
      OneMoreEvent(b, OnlyRefills(n - 1), Refill);
    }
  }

  lemma RefillKeeps(b: Bucket)
    requires !b.stopping && b.rate > 0
    ensures var r := Handle(b, Refill);
            && b.granted <= r.granted && !r.stopping && r.rate == b.rate && r.capacity == b.capacity && r.tokens <= r.capacity
            && HeadWaits(r)
  {
    hide Collect;
    var m := b.(tokens := Min((b.tokens + b.rate / 10) % TWO64, b.capacity));
    var n := CollectServes(m);
    hide Bytes;
    CollectConserves(m);
    GrantedBytes(m.granted, m.waiters[..n]);
  }

  lemma {:induction false} GrantedBytes(a: seq<Caller>, b: seq<Caller>)
    ensures Bytes(a) <= Bytes(a + b)
    decreases |b|
  {
    if b == [] {
      assert a + b == a;
    } else {
      var n := |b| - 1;
      GrantedBytes(a, b[..n]);
      assert a + b == a + b[..n] + [b[n]];
      BytesMore(a + b[..n], b[n]);
    }
  }

  lemma {:induction false} RefilledKeeps(b: Bucket, n: nat)
    requires !b.stopping && b.rate > 0
    ensures b.granted <= Refilled(b, n).granted
    decreases n
  {
    hide Handle;
    if n > 0 {
      RefillKeeps(b);
      RefilledKeeps(Handle(b, Refill), n - 1);
    }
  }

  /** A refill that does not serve the head leaves everything but the tokens. */
  lemma RefillAt(b: Bucket)
    requires !b.stopping && b.waiters != [] && b.tokens <= b.capacity && b.capacity + b.rate / 10 < TWO64
    ensures var sum := Min(b.tokens + b.rate / 10, b.capacity);
            if sum < b.waiters[0].amount then Handle(b, Refill) == b.(tokens := sum)
            else b.waiters[0] in Handle(b, Refill).granted
  {
    hide Collect;
    var m := b.(tokens := Min(b.tokens + b.rate / 10, b.capacity));
    assert (b.tokens + b.rate / 10) % TWO64 == b.tokens + b.rate / 10;
    var n := CollectServes(m);
    if Ready(m) {
      assert m.waiters[..n][0] == b.waiters[0];
      assert b.waiters[0] in m.granted + m.waiters[..n];
    } else {
      assert m.waiters[..0] == [] && m.waiters[0..] == m.waiters;
      NotReady(m);
    }
  }

  lemma NotReady(b: Bucket)
    requires !Ready(b)
    ensures Collect(b) == b
  {
  }

  /** Refills alone serve the head waiter once they have brought in what it needs, if the bucket can hold that much. */
  lemma {:induction false} HeadServed(b: Bucket, n: nat)
    requires !b.stopping && HeadWaits(b) && b.waiters != [] && b.rate > 0 && b.tokens <= b.capacity
    requires b.capacity + b.rate / 10 < TWO64
    requires b.waiters[0].amount <= b.capacity && b.waiters[0].amount <= b.tokens + n * (b.rate / 10)
    ensures b.waiters[0] in Refilled(b, n).granted
    decreases n
  {
    hide Handle;
    if n > 0 {
      RefillAt(b);
      OneRefillMore(n - 1, b.rate / 10);
      var r := Handle(b, Refill);
      if Min(b.tokens + b.rate / 10, b.capacity) < b.waiters[0].amount {
        HeadServed(r, n - 1);
      } else {
        RefillKeeps(b);
        RefilledKeeps(r, n - 1);
      }
    }
  }

  /**
   * A waiter that asks for more than the bucket can hold is never served by refills, and holds up everybody behind it; so is
   * any waiter at a rate below ten.
   */
  lemma {:induction false} HeadStuck(b: Bucket, n: nat)
    requires !b.stopping && b.waiters != [] && HeadWaits(b) && b.tokens <= b.capacity && b.capacity + b.rate / 10 < TWO64
    requires b.capacity < b.waiters[0].amount || b.rate < 10
    ensures Refilled(b, n).waiters == b.waiters && Refilled(b, n).granted == b.granted
    decreases n
  {
    hide Handle;
    if n > 0 {
      RefillAt(b);
      HeadStuck(Handle(b, Refill), n - 1);
    }
  }

  /**
   * In every reachable state with a limit (and nothing that wraps around): refills alone will serve the first waiter if and
   * only if the rate is at least ten and it asks for no more than the capacity.
   */
  lemma ServedIff(rate: nat, factor: nat, es: seq<Event>)
    requires var b := After(Fresh(rate, factor), es);
             b.waiters != [] && !b.stopping && b.rate > 0 && b.capacity + b.rate / 10 < TWO64
    ensures var b := After(Fresh(rate, factor), es);
            (exists n: nat :: Left(After(b, OnlyRefills(n)), b.waiters[0])) <==>
            b.rate >= 10 && b.waiters[0].amount <= b.capacity
  {
    hide After, Handle, Refilled, OnlyRefills, Left;
    EveryRun(rate, factor, es);
    var b := After(Fresh(rate, factor), es);
    if b.rate >= 10 && b.waiters[0].amount <= b.capacity {
      var n := HeadLeaves(b);
    } else {
      forall n: nat ensures !Left(After(b, OnlyRefills(n)), b.waiters[0]) {
        HeadStuck(b, n);
        RefilledIsRun(b, n);
        StillFirst(Refilled(b, n), b.waiters[0]);
      }
    }
  }

  /** The caller is not, or no longer, the first waiter. */
  predicate Left(b: Bucket, c: Caller) {
    b.waiters == [] || b.waiters[0] != c
  }

  lemma StillFirst(b: Bucket, c: Caller)
    requires b.waiters != [] && b.waiters[0] == c
    ensures !Left(b, c)
  {
  }

  lemma HeadLeaves(b: Bucket) returns (n: nat)
    requires Inv(b) && b.waiters != [] && !b.stopping && b.rate >= 10 && b.capacity + b.rate / 10 < TWO64
    requires b.waiters[0].amount <= b.capacity
    ensures Left(After(b, OnlyRefills(n)), b.waiters[0])
  {
    hide Refilled, Fifo, Accounted, Inv;
    n := b.waiters[0].amount;
    Enough(n, b.rate / 10);
    Facts(b);
    HeadServed(b, n);
    RefilledInv(b, n);
    NotBoth(Refilled(b, n), b.waiters[0]);
    RefilledIsRun(b, n);
  }

  lemma Facts(b: Bucket)
    requires Inv(b)
    ensures HeadWaits(b) && (b.rate > 0 ==> b.tokens <= b.capacity)
  {
  }

  lemma Enough(n: nat, x: nat)
    requires x >= 1
    ensures n <= n * x
  {
  }

  lemma {:induction false} RefilledInv(b: Bucket, n: nat)
    requires Inv(b)
    ensures Inv(Refilled(b, n))
    decreases n
  {
    hide Handle, Inv;
    if n > 0 {
      HandleKeeps(b, Refill);
      RefilledInv(Handle(b, Refill), n - 1);
    }
  }

  /** Nobody is granted and waiting. */
  lemma NotBoth(b: Bucket, c: Caller)
    requires Inv(b) && c in b.granted
    ensures c !in b.waiters
  {
    hide Fifo, HeadWaits;
    if c in b.waiters {
      var i :| 0 <= i < |b.granted| && b.granted[i] == c;
      var j :| 0 <= j < |b.waiters| && b.waiters[j] == c;
      assert Ids(b.granted)[i] == c.id && Ids(b.waiters)[j] == c.id;
      assert c.id in multiset(Ids(b.granted)) && c.id in multiset(Ids(b.waiters));
      OnceUpto(b.next, c.id);
      assert false;
    }
  }

  lemma {:induction false} OnceUpto(n: nat, x: nat)
    ensures multiset(Upto(n))[x] <= 1
    ensures x >= n ==> multiset(Upto(n))[x] == 0
  {
    if n > 0 {
      OnceUpto(n - 1, x);
    }
  }

  // ---- The limiter ----

  class AsyncRateLimiter {
    var rate: nat
    var capacity: nat
    var tokens: nat
    var stopping: bool
    var waiters: seq<Caller>

    // The calls made so far and what became of them.
    ghost var next: nat
    ghost var granted: seq<Caller>
    ghost var aborted: seq<Caller>
    ghost var served: seq<nat>

    ghost function State(): Bucket
      reads this
    {
      Bucket(rate, capacity, tokens, stopping, waiters, next, granted, aborted, served)
    }

    constructor (rate: nat, factor: nat)
      ensures State() == Fresh(rate, factor)
    {
      this.rate := rate;
      capacity := rate * factor % TWO64;
      tokens := rate * factor % TWO64;
      stopping, waiters := false, [];
      next, granted, aborted, served := 0, [], [], [];
    }

    /** await_tokens; waits iff the result is false, and otherwise completes at once. */
    method AwaitTokens(amount: nat, id: nat) returns (now: bool)
      requires id == next
      modifies this
      ensures State() == Handle(old(State()), Await(amount))
      ensures now == (stopping || rate == 0 || old(tokens) >= amount)
    {
      next := next + 1;
      if stopping {
        aborted := aborted + [Caller(id, amount)];
        return true;
      } else if rate == 0 {
        granted := granted + [Caller(id, amount)];
        return true;
      } else if tokens >= amount {
        tokens := tokens - amount;
        granted := granted + [Caller(id, amount)];
        return true;
      } else {
        waiters := waiters + [Caller(id, amount)];
        return false;
      }
    }

    method CollectReadyWaiters()
      modifies this
      ensures State() == Collect(old(State()))
    {
      while waiters != [] && tokens >= waiters[0].amount
        invariant Collect(State()) == Collect(old(State()))
        decreases |waiters|
      {
        var w := waiters[0];
        waiters := waiters[1..];
        tokens := tokens - w.amount;
        granted := granted + [w];
        served := served + [w.id];
      }
    }

    method ChangeRate(bps: nat)
      modifies this
      ensures State() == Handle(old(State()), SetRate(bps))
    {
      if stopping {
        return;
      }
      rate := bps;
      capacity := bps;
      if bps == 0 {
        tokens := TWO64 - 1;
        granted := granted + waiters;
        served := served + Ids(waiters);
        waiters := [];
      } else {
        tokens := if tokens < capacity then tokens else capacity;
        CollectReadyWaiters();
      }
    }

    method Shutdown()
      modifies this
      ensures State() == Handle(old(State()), Stop)
    {
      if stopping {
        return;
      }
      stopping := true;
      aborted := aborted + waiters;
      served := served + Ids(waiters);
      waiters := [];
    }

    method OnRefill()
      modifies this
      ensures State() == Handle(old(State()), Refill)
    {
      if stopping {
        return;
      }
      var sum := (tokens + rate / 10) % TWO64;
      tokens := if sum < capacity then sum else capacity;
      CollectReadyWaiters();
    }
  }
}

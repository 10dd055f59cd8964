/**
 * The life of a KRPC query, whose completion is raced by the response, a protocol error, cancellation of the waiting
 * operation, shutdown, the cleanup sweep and the query's own expiry timer. Every access under a lock, every atomic
 * exchange and every timer operation is one step, and steps of any number of queries interleave freely.
 */
module Krpc {
  type Tid = nat
  type QueryId = nat

  /** Where the caller that won the exchange stands. */
  datatype Phase = Nobody | Won | TimerCancelled

  /**
   * ready: the completion has been stored. armed: the expiry timer is waiting. missed: it expired before the
   * completion was stored. extracted: somebody took it out of the table, to complete it. calls: callers that hold the
   * query and are about to invoke its completion. swept: shutdown extracted it and will also cancel its timer. runs: how
   * often the handler has run.
   */
  datatype Query = Query(tid: Tid, ready: bool, armed: bool, missed: bool, completed: bool, extracted: bool, calls: nat,
                         swept: bool, phase: Phase, runs: nat)

  datatype State = State(queries: map<QueryId, Query>, pending: map<Tid, QueryId>)

  datatype Step =
    | Create(q: QueryId, tid: Tid)
    | StoreCompletion(q: QueryId)
    | Register(q: QueryId)
    | Answer(tid: Tid)
    | Cancel(q: QueryId)
    | Erase(tid: Tid)
    | Stop
    | Sweep(expired: set<Tid>)
    | Expire(q: QueryId)
    | Exchange(q: QueryId)
    | CancelTimer(q: QueryId)
    | RunHandler(q: QueryId)
    | StopCancelsTimer(q: QueryId)

  const EMPTY := State(map[], map[])

  /** Puts one more caller on its way to the completion of every query in qs. */
  function Called(m: map<QueryId, Query>, qs: set<QueryId>, stopping: bool): map<QueryId, Query> {
    map q | q in m ::
      if q in qs then m[q].(extracted := true, calls := m[q].calls + 1, swept := m[q].swept || stopping) else m[q]
  }

  /** Takes the entries with these transaction identifiers out of the table and hands them to a caller. */
  function Extracted(s: State, tids: set<Tid>, stopping: bool): State {
    State(Called(s.queries, set t | t in s.pending && t in tids :: s.pending[t], stopping), s.pending - tids)
  }

  /** One step; a step whose program point no thread is at changes nothing. */
  function Next(s: State, step: Step): State {
    match step
    case Create(q, tid) =>
      if q in s.queries then s
      else s.(queries := s.queries[q := Query(tid, false, true, false, false, false, 0, false, Nobody, 0)])
    case StoreCompletion(q) =>
      if q in s.queries then s.(queries := s.queries[q := s.queries[q].(ready := true)]) else s
    case Register(q) =>
      if q in s.queries && s.queries[q].ready then s.(pending := s.pending[s.queries[q].tid := q]) else s
    case Answer(tid) => Extracted(s, {tid}, false)
    case Cancel(q) => if q in s.queries then Extracted(s, {s.queries[q].tid}, false) else s
    case Erase(tid) => s.(pending := s.pending - {tid})
    case Stop => Extracted(s, s.pending.Keys, true)
    case Sweep(expired) => Extracted(s, expired, false)
    case Expire(q) => if q in s.queries then s.(queries := s.queries[q := Expired(s.queries[q])]) else s
    case Exchange(q) => if q in s.queries then s.(queries := s.queries[q := Exchanged(s.queries[q])]) else s
    case CancelTimer(q) => if q in s.queries then s.(queries := s.queries[q := TimerOff(s.queries[q])]) else s
    case RunHandler(q) => if q in s.queries then s.(queries := s.queries[q := Handled(s.queries[q])]) else s
    case StopCancelsTimer(q) =>
      if q in s.queries && s.queries[q].swept && s.queries[q].completed
      then s.(queries := s.queries[q := s.queries[q].(armed := false)]) else s
  }

  /** The timer callback: it invokes the completion if there is one. */
  function Expired(x: Query): Query {
    if !x.armed then x
    else if x.ready then x.(armed := false, calls := x.calls + 1)
    else x.(armed := false, missed := true)
  }

  /** The first thing the completion does: exactly one caller finds the flag unset. */
  function Exchanged(x: Query): Query {
    if x.calls == 0 then x
    else if x.completed then x.(calls := x.calls - 1)
    else x.(calls := x.calls - 1, completed := true, phase := Won)
  }

  function TimerOff(x: Query): Query {
    if x.phase == Won then x.(phase := TimerCancelled, armed := false) else x
  }

  function Handled(x: Query): Query {
    if x.phase == TimerCancelled then x.(phase := Nobody, runs := x.runs + 1) else x
  }

  // ---- What every step keeps ----

  predicate QueryOk(x: Query) {
    && (x.completed ==> x.runs + (if x.phase == Nobody then 0 else 1) == 1)
    && (!x.completed ==> x.phase == Nobody && x.runs == 0)
    && (!x.completed ==> x.armed || x.calls > 0 || x.missed)
    && (!x.ready ==> x.calls == 0 && !x.completed && !x.swept && !x.extracted)
    && (x.missed ==> !x.armed)
    && (x.extracted ==> x.calls > 0 || x.completed)
    && (x.missed && (x.calls > 0 || x.completed) ==> x.extracted)
  }

  predicate Registered(s: State, tid: Tid)
    requires tid in s.pending
  {
    s.pending[tid] in s.queries && s.queries[s.pending[tid]].ready && s.queries[s.pending[tid]].tid == tid
  }

  ghost predicate Inv(s: State) {
    && (forall q :: q in s.queries ==> QueryOk(s.queries[q]))
    && (forall tid :: tid in s.pending ==> Registered(s, tid))
  }

  lemma ExtractedInv(s: State, tids: set<Tid>, stopping: bool)
    requires Inv(s)
    ensures Inv(Extracted(s, tids, stopping))
  {
  }

  lemma UpdateInv(s: State, q: QueryId, x: Query)
    requires Inv(s) && QueryOk(x)
    requires q in s.queries ==> x.tid == s.queries[q].tid && (s.queries[q].ready ==> x.ready)
    ensures Inv(s.(queries := s.queries[q := x]))
  {
  }

  lemma NextInv(s: State, step: Step)
    requires Inv(s)
    ensures Inv(Next(s, step))
  {
    match step
    case Create(q, tid) =>
      if q !in s.queries {
        UpdateInv(s, q, Query(tid, false, true, false, false, false, 0, false, Nobody, 0));
      }
    case StoreCompletion(q) =>
      if q in s.queries {
        UpdateInv(s, q, s.queries[q].(ready := true));
      }
    case Register(q) =>
    case Answer(tid) => ExtractedInv(s, {tid}, false);
    case Cancel(q) =>
      if q in s.queries {
        ExtractedInv(s, {s.queries[q].tid}, false);
      }
    case Erase(tid) =>
    case Stop => ExtractedInv(s, s.pending.Keys, true);
    case Sweep(expired) => ExtractedInv(s, expired, false);
    case Expire(q) =>
      if q in s.queries {
        UpdateInv(s, q, Expired(s.queries[q]));
      }
    case Exchange(q) =>
      if q in s.queries {
        UpdateInv(s, q, Exchanged(s.queries[q]));
      }
    case CancelTimer(q) =>
      if q in s.queries {
        UpdateInv(s, q, TimerOff(s.queries[q]));
      }
    case RunHandler(q) =>
      if q in s.queries {
        UpdateInv(s, q, Handled(s.queries[q]));
      }
    case StopCancelsTimer(q) =>
      if q in s.queries && s.queries[q].swept && s.queries[q].completed {
        UpdateInv(s, q, s.queries[q].(armed := false));
      }
  }

  // ---- Every run ----

  function After(steps: seq<Step>): State {
    if steps == [] then EMPTY else Next(After(steps[..|steps| - 1]), steps[|steps| - 1])
  }

  lemma {:induction false} EveryRun(steps: seq<Step>)
    ensures Inv(After(steps))
  {
    hide Next;
    if steps != [] {
      EveryRun(steps[..|steps| - 1]);
      NextInv(After(steps[..|steps| - 1]), steps[|steps| - 1]);
    }
  }

  /** Whatever interleaving: no handler runs twice, even when transaction identifiers collide. */
  lemma AtMostOnce(steps: seq<Step>, q: QueryId)
    requires q in After(steps).queries
    ensures After(steps).queries[q].runs <= 1
  {
    EveryRun(steps);
    assert QueryOk(After(steps).queries[q]);
  }

  /**
   * A query that is not completed still has its timer armed, or someone (the timer's callback among others) is about
   * to invoke its completion; so nothing but its own timer is needed for it to complete.
   */
  lemma NeverStranded(steps: seq<Step>, q: QueryId)
    requires q in After(steps).queries && !After(steps).queries[q].missed
    ensures var x := After(steps).queries[q]; !x.completed ==> x.armed || x.calls > 0
  {
    EveryRun(steps);
    assert QueryOk(After(steps).queries[q]);
  }

  /** The timer is no longer armed, and nobody is between extracting the query and running its handler. */
  predicate AtRest(x: Query) {
    !x.armed && x.calls == 0 && x.phase == Nobody
  }

  /**
   * A query at rest has run its handler exactly once, unless its timer expired before its completion was stored. Then it has
   * if and only if somebody else (a response, an error, a cancellation, shutdown or the cleanup sweep) took it out of the
   * table.
   */
  lemma ExactlyOnce(steps: seq<Step>, q: QueryId)
    requires q in After(steps).queries && AtRest(After(steps).queries[q])
    ensures !After(steps).queries[q].missed ==> After(steps).queries[q].runs == 1
    ensures After(steps).queries[q].missed ==>
              After(steps).queries[q].runs == if After(steps).queries[q].extracted then 1 else 0
  {
    EveryRun(steps);
    assert QueryOk(After(steps).queries[q]);
  }

  /** A query whose timer expires before its completion is stored, and which is registered all the same. */
  function MissedQuery(tid: Tid): State {
    State(map[0 := Query(tid, true, false, true, false, false, 0, false, Nobody, 0)], map[tid := 0])
  }

  lemma MissedReached(tid: Tid, steps: seq<Step>)
    requires |steps| >= 4 && steps[..4] == [Create(0, tid), Expire(0), StoreCompletion(0), Register(0)]
    ensures After(steps[..4]) == MissedQuery(tid)
  {
    hide After;
    assert steps[0] == steps[..4][0] && steps[1] == steps[..4][1] && steps[2] == steps[..4][2] && steps[3] == steps[..4][3];
    var s0 := Prefix(steps, 0);
    var s1 := Prefix(steps, 1);
    var s2 := Prefix(steps, 2);
    var s3 := Prefix(steps, 3);
  }

  /** The timer expires first, and the caller gives up on the query: its handler never runs. */
  lemma MissedForGood(tid: Tid)
    ensures var s := After([Create(0, tid), Expire(0), StoreCompletion(0), Register(0), Erase(tid)]);
            && 0 in s.queries && AtRest(s.queries[0]) && s.queries[0].missed && s.queries[0].runs == 0
            && s.pending == map[]
  {
    hide After;
    var steps := [Create(0, tid), Expire(0), StoreCompletion(0), Register(0), Erase(tid)];
    MissedReached(tid, steps);
    var s4 := Prefix(steps, 4);
    assert steps[..5] == steps;
  }

  /** The timer expires first, and a response comes after all: the handler runs once. */
  lemma MissedAndAnswered(tid: Tid)
    ensures var s := After([Create(0, tid), Expire(0), StoreCompletion(0), Register(0), Answer(tid), Exchange(0),
                            CancelTimer(0), RunHandler(0)]);
            0 in s.queries && AtRest(s.queries[0]) && s.queries[0].missed && s.queries[0].runs == 1
  {
    hide After;
    var steps := [Create(0, tid), Expire(0), StoreCompletion(0), Register(0), Answer(tid), Exchange(0),
                  CancelTimer(0), RunHandler(0)];
    MissedReached(tid, steps);
    var s4 := Prefix(steps, 4);
    assert 0 in s4.queries && s4.queries[0].calls == 1;
    var s5 := Prefix(steps, 5);
    var s6 := Prefix(steps, 6);
    var s7 := Prefix(steps, 7);
    assert steps[..8] == steps;
  }

  lemma Prefix(steps: seq<Step>, n: nat) returns (s: State)
    requires n < |steps|
    ensures s == After(steps[..n + 1]) == Next(After(steps[..n]), steps[n])
    ensures n == 0 ==> After(steps[..n]) == EMPTY
  {
    assert steps[..n + 1][..n] == steps[..n];
    s := After(steps[..n + 1]);
  }

  // ---- Taking queries out of the table ----

  predicate Extracts(step: Step) {
    step.Answer? || step.Cancel? || step.Stop? || step.Sweep?
  }

  /** The transaction identifiers whose entries the step takes: the one answered or cancelled, the expired ones, or all. */
  function Affected(s: State, step: Step): set<Tid>
    requires Extracts(step)
  {
    match step
    case Answer(tid) => {tid}
    case Cancel(q) => if q in s.queries then {s.queries[q].tid} else {}
    case Sweep(expired) => expired
    case Stop => s.pending.Keys
  }

  /** The query is in the table, under its own identifier. */
  predicate InTable(s: State, q: QueryId) {
    q in s.queries && s.queries[q].tid in s.pending && s.pending[s.queries[q].tid] == q
  }

  /**
   * In every reachable state a response or error, a cancellation, shutdown and the cleanup sweep do this and nothing else:
   * the affected identifiers leave the table, and each query that was registered under one of them has one more caller on its
   * way to its completion.
   */
  lemma ExtractionEffect(steps: seq<Step>, step: Step)
    requires Extracts(step)
    ensures var s, r := After(steps), Next(After(steps), step);
            && r.pending == s.pending - Affected(s, step)
            && r.queries.Keys == s.queries.Keys
    ensures var s, r := After(steps), Next(After(steps), step);
            forall q :: q in s.queries ==>
              && q in r.queries
              && r.queries[q] == (
                if InTable(s, q) && s.queries[q].tid in Affected(s, step)
                then s.queries[q].(calls := s.queries[q].calls + 1, extracted := true,
                                   swept := s.queries[q].swept || step.Stop?)
                else s.queries[q])
  {
    hide After;
    EveryRun(steps);
    var s := After(steps);
    var taken := set t | t in s.pending && t in Affected(s, step) :: s.pending[t];
    forall q | q in s.queries ensures q in taken <==> InTable(s, q) && s.queries[q].tid in Affected(s, step) {
      if q in taken {
        var t :| t in s.pending && t in Affected(s, step) && s.pending[t] == q;
        assert Registered(s, t);
      }
    }
  }

  /** Any of these steps brings a registered query to its one handler run. */
  lemma ExtractionSuffices(steps: seq<Step>, step: Step, q: QueryId)
    requires Extracts(step) && InTable(After(steps), q) && !After(steps).queries[q].completed
    requires After(steps).queries[q].tid in Affected(After(steps), step)
    ensures var s := After(steps + [step, Exchange(q), CancelTimer(q), RunHandler(q)]);
            q in s.queries && s.queries[q].runs == 1 && s.queries[q].completed && !s.queries[q].armed
  {
    hide After, Next, Affected;
    ExtractionEffect(steps, step);
    var s := OneMore(steps, step);
    CallSuffices(steps + [step], q);
    assert steps + [step] + [Exchange(q), CancelTimer(q), RunHandler(q)]
        == steps + [step, Exchange(q), CancelTimer(q), RunHandler(q)];
  }

  /**
   * Registering puts a query in the table in place of whatever was there; erasing takes it out and calls nobody;
   * once the completion of a query swept at shutdown has begun, shutdown also cancels its timer.
   */
  lemma TableEffect(s: State, q: QueryId, tid: Tid)
    requires q in s.queries && s.queries[q].ready
    ensures Next(s, Register(q)) == State(s.queries, s.pending[s.queries[q].tid := q])
    ensures Next(s, Erase(tid)).queries == s.queries && Next(s, Erase(tid)).pending.Keys == s.pending.Keys - {tid}
    ensures forall t :: t in s.pending && t != tid ==> Next(s, Erase(tid)).pending[t] == s.pending[t]
    ensures s.queries[q].swept && s.queries[q].completed ==>
              Next(s, StopCancelsTimer(q)) == s.(queries := s.queries[q := s.queries[q].(armed := false)])
  {
  }

  /** The timer fires once; a caller who comes too late only leaves. */
  lemma OnceOnly(s: State, q: QueryId)
    requires q in s.queries
    ensures var r := Next(s, Expire(q));
            && q in r.queries && !r.queries[q].armed && Next(r, Expire(q)) == r
            && r.queries[q].calls == s.queries[q].calls + (if s.queries[q].armed && s.queries[q].ready then 1 else 0)
    ensures s.queries[q].completed && s.queries[q].calls > 0 ==>
              Next(s, Exchange(q)) == s.(queries := s.queries[q := s.queries[q].(calls := s.queries[q].calls - 1)])
  {
    assert s.queries[q := s.queries[q]] == s.queries;
    var r := Next(s, Expire(q));
    assert r.queries[q := r.queries[q]] == r.queries;
  }

  /** Whoever is about to invoke the completion of a query that is not completed brings it to its one handler run. */
  lemma CallSuffices(steps: seq<Step>, q: QueryId)
    requires q in After(steps).queries && After(steps).queries[q].calls > 0 && !After(steps).queries[q].completed
    ensures var s := After(steps + [Exchange(q), CancelTimer(q), RunHandler(q)]);
            q in s.queries && s.queries[q].runs == 1 && s.queries[q].completed && !s.queries[q].armed
  {
    hide After;
    EveryRun(steps);
    assert QueryOk(After(steps).queries[q]);
    var s1 := OneMore(steps, Exchange(q));
    var s2 := OneMore(steps + [Exchange(q)], CancelTimer(q));
    var s3 := OneMore(steps + [Exchange(q)] + [CancelTimer(q)], RunHandler(q));
    assert steps + [Exchange(q)] + [CancelTimer(q)] + [RunHandler(q)] == steps + [Exchange(q), CancelTimer(q), RunHandler(q)];
  }

  /** From every reachable state the timer alone brings a waiting query to its one handler run. */
  lemma TimerSuffices(steps: seq<Step>, q: QueryId)
    requires q in After(steps).queries
    requires var x := After(steps).queries[q]; x.ready && x.armed && !x.completed
    ensures var s := After(steps + [Expire(q), Exchange(q), CancelTimer(q), RunHandler(q)]);
            q in s.queries && s.queries[q].runs == 1 && s.queries[q].completed && !s.queries[q].armed
  {
    hide After;
    var s := OneMore(steps, Expire(q));
    CallSuffices(steps + [Expire(q)], q);
    assert steps + [Expire(q)] + [Exchange(q), CancelTimer(q), RunHandler(q)]
        == steps + [Expire(q), Exchange(q), CancelTimer(q), RunHandler(q)];
  }

  lemma OneMore(steps: seq<Step>, step: Step) returns (s: State)
    ensures s == After(steps + [step]) == Next(After(steps), step)
  {
    assert (steps + [step])[..|steps|] == steps;
    s := After(steps + [step]);
  }
}

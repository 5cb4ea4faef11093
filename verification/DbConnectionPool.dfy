/**
  The database connection pool as a protocol: every critical section is one atomic step,
  and steps of different threads interleave freely. Waiting on the condition variable
  releases the lock, so a thread that waits leaves its critical section and takes a new
  step once it has been woken, by `notify_one` or spuriously.
*/
module Pooling {
  import opened Common

  type Conn = nat
  type Thread = nat

  /**
    `idle` is the queue; `asleep` threads are blocked in `wait`; `woken` ones have been
    released from it but have not yet run; `validating` ones hold a connection outside the
    lock; `leased` connections are in the hands of callers; `created` are all there are.
    `checking` is what the check thread still has to ping of its snapshot of the queue; it pings
    the first of them, without the lock.
  */
  datatype Pool = Pool(
    idle: seq<Conn>,
    initialized: bool,
    asleep: set<Thread>,
    woken: set<Thread>,
    validating: map<Thread, Conn>,
    leased: set<Conn>,
    created: set<Conn>,
    checking: seq<Conn>)

  const EMPTY: Pool := Pool([], false, {}, {}, map[], {}, {}, [])

  datatype Event =
    | Init(made: seq<Conn>, ok: bool)
    | Enter(t: Thread)
    | SpuriousWake(t: Thread)
    | Resume(t: Thread)
    | Validated(t: Thread)
    | ValidationFailed(t: Thread, notified: Option<Thread>)
    | Return(c: Conn, notified: Option<Thread>)
    | Snapshot
    | Checked

  /** `notify_one` releases some waiting thread, if there is one. */
  ghost predicate Notifies(asleep: set<Thread>, notified: Option<Thread>) {
    if asleep == {} then notified == None else notified.Some? && notified.value in asleep
  }

  ghost predicate Distinct(s: seq<Conn>) {
    forall i, j | 0 <= i < j < |s| :: s[i] != s[j]
  }

  predicate InPool(s: Pool, t: Thread) {
    t in s.asleep || t in s.woken || t in s.validating
  }

  ghost predicate Enabled(s: Pool, e: Event) {
    match e
    case Init(made, ok) => Distinct(made) && forall c | c in made :: c !in s.created
    case Enter(t) => !InPool(s, t)
    case SpuriousWake(t) => t in s.asleep
    case Resume(t) => t in s.woken
    case Validated(t) => t in s.validating
    case ValidationFailed(t, notified) => t in s.validating && Notifies(s.asleep, notified)
    case Return(c, notified) => c in s.leased && Notifies(s.asleep, notified)
    case Snapshot => s.idle != [] && s.checking == []
    case Checked => s.checking != []
  }

  function Elements(q: seq<Conn>): set<Conn> {
    set c | c in q
  }

  /** The loop of `getConnection` from the moment the lock is held to where it is released. */
  function TakeOrWait(s: Pool, t: Thread): Pool {
    if s.idle != [] then s.(idle := s.idle[1..], validating := s.validating[t := s.idle[0]])
    else if !s.initialized then s
    else s.(asleep := s.asleep + {t})
  }

  function Notify(s: Pool, notified: Option<Thread>): Pool {
    match notified
    case None => s
    case Some(t) => s.(asleep := s.asleep - {t}, woken := s.woken + {t})
  }

  function Next(s: Pool, e: Event): Pool {
    match e
    case Init(made, ok) =>
      if s.initialized then s
      else s.(idle := s.idle + made, initialized := ok, created := s.created + Elements(made))
    case Enter(t) => TakeOrWait(s, t)
    case SpuriousWake(t) => s.(asleep := s.asleep - {t}, woken := s.woken + {t})
    case Resume(t) => TakeOrWait(s.(woken := s.woken - {t}), t)
    case Validated(t) =>
      if t !in s.validating then s
      else s.(validating := s.validating - {t}, leased := s.leased + {s.validating[t]})
    case ValidationFailed(t, notified) =>
      if t !in s.validating then s
      else Notify(s.(validating := s.validating - {t}, idle := s.idle + [s.validating[t]]), notified)
    case Return(c, notified) =>
      Notify(s.(leased := s.leased - {c}, idle := s.idle + [c]), notified)
    case Snapshot => s.(checking := s.idle)
    case Checked => s.(checking := if s.checking == [] then [] else s.checking[1..])
  }

  // ---- invariants ------------------------------------------------------------------

  /** Every connection is in exactly one place: the queue, one validating thread, or one lease. */
  ghost predicate Conserved(s: Pool) {
    && Distinct(s.idle)
    && (forall t, u | t in s.validating && u in s.validating && t != u :: s.validating[t] != s.validating[u])
    && Elements(s.idle) !! s.validating.Values !! s.leased
    && Elements(s.idle) + s.validating.Values + s.leased == s.created
  }

  ghost predicate ThreadsApart(s: Pool) {
    s.asleep !! s.woken !! s.validating.Keys
  }

  /** If a thread sleeps, every idle connection is spoken for by a thread already woken. */
  ghost predicate NoLostWakeup(s: Pool) {
    s.asleep != {} ==> |s.idle| <= |s.woken|
  }

  ghost predicate Inv(s: Pool) {
    && Conserved(s) && ThreadsApart(s) && NoLostWakeup(s)
    && (!s.initialized ==> s.asleep == {} && s.woken == {})
    && CheckedExist(s)
  }

  ghost predicate CheckedExist(s: Pool) {
    forall c | c in s.checking :: c in s.created
  }

  lemma TakeConserves(s: Pool, t: Thread)
    requires Conserved(s) && t !in s.validating
    ensures Conserved(TakeOrWait(s, t))
  {
    if s.idle != [] {
      var c, s' := s.idle[0], TakeOrWait(s, t);
      assert c in Elements(s.idle);
      assert Elements(s.idle) == {c} + Elements(s.idle[1..]);
      assert c !in s.idle[1..];
      ValuesAdd(s.validating, t, c);
    }
  }

  lemma ValuesAdd(m: map<Thread, Conn>, t: Thread, c: Conn)
    requires t !in m
    ensures m[t := c].Values == m.Values + {c}
  {
    var m' := m[t := c];
    assert t in m';
    forall v | v in m.Values ensures v in m'.Values {
      var k :| k in m && m[k] == v;
      assert m'[k] == v;
    }
  }

  lemma ValuesRemove(m: map<Thread, Conn>, t: Thread)
    requires t in m && forall k, u | k in m && u in m && k != u :: m[k] != m[u]
    ensures (m - {t}).Values == m.Values - {m[t]}
  {
    var m' := m - {t};
    forall v | v in m.Values - {m[t]} ensures v in m'.Values {
      var k :| k in m && m[k] == v;
      assert k in m' && m'[k] == v;
    }
  }

  lemma ElementsAppend(q: seq<Conn>, r: seq<Conn>)
    ensures Elements(q + r) == Elements(q) + Elements(r)
  {}

  lemma InitConserves(s: Pool, made: seq<Conn>, ok: bool)
    requires Conserved(s) && Enabled(s, Init(made, ok))
    ensures Conserved(Next(s, Init(made, ok)))
  {
    ElementsAppend(s.idle, made);
    var added := Elements(made);
    assert added !! s.created;
    assert Elements(s.idle) <= s.created;
    forall i, j | 0 <= i < |s.idle| && 0 <= j < |made| ensures s.idle[i] != made[j] {
      assert s.idle[i] in Elements(s.idle) && made[j] in added;
    }
  }

  /** A connection that is pushed back goes to the end of the queue and nowhere else. */
  lemma PushConserves(s: Pool, c: Conn, s': Pool)
    requires Conserved(s) && s' == s.(leased := s.leased - {c}, idle := s.idle + [c]) && c in s.leased
    ensures Conserved(s')
  {
    ElementsAppend(s.idle, [c]);
    assert c !in Elements(s.idle);
  }

  lemma LeaseConserves(s: Pool, t: Thread)
    requires Conserved(s) && t in s.validating
    ensures Conserved(s.(validating := s.validating - {t}, leased := s.leased + {s.validating[t]}))
  {
    ValuesRemove(s.validating, t);
    assert s.validating[t] in s.validating.Values;
  }

  lemma NextConserves(s: Pool, e: Event)
    requires Conserved(s) && ThreadsApart(s) && Enabled(s, e)
    ensures Conserved(Next(s, e))
  {
    match e
    case Init(made, ok) => InitConserves(s, made, ok);
    case Enter(t) => TakeConserves(s, t);
    case Resume(t) => TakeConserves(s.(woken := s.woken - {t}), t);
    case SpuriousWake(t) =>
    case Validated(t) => LeaseConserves(s, t);
    case ValidationFailed(t, notified) =>
      // giving up is leasing and returning at once
      LeaseConserves(s, t);
      var c := s.validating[t];
      var lent := s.(validating := s.validating - {t}, leased := s.leased + {c});
      PushConserves(lent, c, lent.(leased := lent.leased - {c}, idle := lent.idle + [c]));
      NotLeased(s, t);
    case Return(c, notified) =>
      PushConserves(s, c, s.(leased := s.leased - {c}, idle := s.idle + [c]));
    case Snapshot =>
    case Checked =>
  }

  lemma NotLeased(s: Pool, t: Thread)
    requires Conserved(s) && t in s.validating
    ensures s.leased + {s.validating[t]} - {s.validating[t]} == s.leased
  {
    assert s.validating[t] in s.validating.Values;
  }

  lemma NextApart(s: Pool, e: Event)
    requires ThreadsApart(s) && Enabled(s, e)
    requires !s.initialized ==> s.asleep == {} && s.woken == {}
    ensures ThreadsApart(Next(s, e))
    ensures var s' := Next(s, e); !s'.initialized ==> s'.asleep == {} && s'.woken == {}
  {}

  /** Each step that adds an idle connection or takes a woken thread keeps the balance. */
  lemma NextNoLostWakeup(s: Pool, e: Event)
    requires Inv(s) && Enabled(s, e)
    ensures NoLostWakeup(Next(s, e))
  {
    match e
    case SpuriousWake(t) =>
      assert t !in s.woken;
    case ValidationFailed(t, notified) =>
      if notified.Some? {
        assert notified.value !in s.woken;
      }
    case Return(c, notified) =>
      if notified.Some? {
        assert notified.value !in s.woken;
      }
    case _ =>
  }

  // ---- every reachable interleaving -----------------------------------------------------

  ghost predicate Possible(s: Pool, trace: seq<Event>)
    decreases |trace|
  {
    trace == [] || (Enabled(s, trace[0]) && Possible(Next(s, trace[0]), trace[1..]))
  }

  function Run(s: Pool, trace: seq<Event>): Pool
    decreases |trace|
  {
    if trace == [] then s else Run(Next(s, trace[0]), trace[1..])
  }

  lemma {:induction false} RunKeepsInv(s: Pool, trace: seq<Event>)
    requires Inv(s) && Possible(s, trace)
    ensures Inv(Run(s, trace))
    decreases |trace|
  {
    if trace != [] {
      NextKeepsInv(s, trace[0]);
      RunKeepsInv(Next(s, trace[0]), trace[1..]);
    }
  }

  /** In every interleaving: conservation, exclusive leases and no lost wakeup. */
  lemma EveryInterleaving(trace: seq<Event>)
    requires Possible(EMPTY, trace)
    ensures var s := Run(EMPTY, trace);
      Conserved(s) && NoLostWakeup(s) && |s.leased| <= |s.created|
  {
    RunKeepsInv(EMPTY, trace);
    var s := Run(EMPTY, trace);
    SubsetSize(s.leased, s.created);
  }

  lemma SubsetSize(a: set<Conn>, b: set<Conn>)
    requires a <= b
    ensures |a| <= |b|
  {
    assert b == a + (b - a);
  }

  /** Once every woken thread has run, a sleeping thread means that every connection is in use. */
  lemma SleepersMeanAllInUse(trace: seq<Event>)
    requires Possible(EMPTY, trace)
    requires var s := Run(EMPTY, trace); s.woken == {} && s.asleep != {}
    ensures var s := Run(EMPTY, trace);
      s.idle == [] && s.validating.Values + s.leased == s.created
  {
    RunKeepsInv(EMPTY, trace);
  }

  /** While a thread sleeps and a connection is idle, some woken thread is about to take one. */
  lemma IdleIsClaimed(trace: seq<Event>) returns (t: Thread)
    requires Possible(EMPTY, trace)
    requires var s := Run(EMPTY, trace); s.asleep != {} && s.idle != []
    ensures var s := Run(EMPTY, trace);
      Enabled(s, Resume(t)) && Next(s, Resume(t)).validating == s.validating[t := s.idle[0]]
  {
    RunKeepsInv(EMPTY, trace);
    t := SomeWoken(Run(EMPTY, trace));
  }

  lemma SomeWoken(s: Pool) returns (t: Thread)
    requires NoLostWakeup(s) && s.asleep != {} && s.idle != []
    ensures t in s.woken && Next(s, Resume(t)).validating == s.validating[t := s.idle[0]]
  {
    assert s.woken != {};
    t :| t in s.woken;
  }

  /**
    No deadlock: when every lease has been returned, every validation is over and every
    woken thread has run, no thread sleeps, provided the pool has any connection at all.
  */
  lemma QuietPoolHasNoSleepers(trace: seq<Event>)
    requires Possible(EMPTY, trace)
    requires var s := Run(EMPTY, trace);
      s.leased == {} && s.validating == map[] && s.woken == {} && s.created != {}
    ensures Run(EMPTY, trace).asleep == {}
  {
    if Run(EMPTY, trace).asleep != {} {
      SleepersMeanAllInUse(trace);
    }
  }

  /** A pool initialised without connections puts every caller to sleep for good. */
  lemma {:induction false} EmptyPoolBlocks(s: Pool, trace: seq<Event>, t: Thread)
    requires s.initialized && s.created == {} && Inv(s) && Possible(s, trace) && t in s.asleep + s.woken
    ensures t in Run(s, trace).asleep + Run(s, trace).woken
    decreases |trace|
  {
    if trace != [] {
      var e := trace[0];
      NextKeepsInv(s, e);
      if s.idle != [] || s.validating != map[] {
        HoldsSomething(s);
      }
      EmptyPoolBlocks(Next(s, e), trace[1..], t);
    }
  }

  /** From a new pool: after `init` with pool size 0 the first caller never returns, whatever happens. */
  lemma EmptyInitBlocks(t: Thread, trace: seq<Event>)
    requires Possible(Run(EMPTY, [Init([], true), Enter(t)]), trace)
    ensures Possible(EMPTY, [Init([], true), Enter(t)])
    ensures var s := Run(Run(EMPTY, [Init([], true), Enter(t)]), trace); t in s.asleep + s.woken
  {
    var init, enter := Init([], true), Enter(t);
    var s0 := Next(EMPTY, init);
    var s := Next(s0, enter);
    assert [init, enter][1..] == [enter] && [enter][1..] == [];
    assert Run(s, []) == s && Run(s0, [enter]) == s && Run(EMPTY, [init, enter]) == s;
    assert Possible(s, []) && Possible(s0, [enter]);
    RunKeepsInv(EMPTY, [init, enter]);
    EmptyPoolBlocks(s, trace, t);
  }

  lemma HoldsSomething(s: Pool)
    requires Conserved(s) && (s.idle != [] || s.validating != map[])
    ensures s.created != {}
  {
    if s.idle != [] {
      assert s.idle[0] in Elements(s.idle);
    } else {
      var t :| t in s.validating;
      assert s.validating[t] in s.validating.Values;
    }
  }

  /** After a successful `init` the set of connections never changes. */
  lemma {:induction false} InitializedForGood(s: Pool, trace: seq<Event>)
    requires s.initialized && Possible(s, trace)
    ensures var s' := Run(s, trace); s'.initialized && s'.created == s.created
    decreases |trace|
  {
    if trace != [] {
      InitializedForGood(Next(s, trace[0]), trace[1..]);
    }
  }

  /**
    After a successful `init` with `n` connections the pool has those and the ones that earlier
    failed attempts left behind, so at most that many leases; just `n` iff there were none.
  */
  lemma LeasesBounded(before: seq<Event>, made: seq<Conn>, trace: seq<Event>)
    requires Possible(EMPTY, before) && !Run(EMPTY, before).initialized
    requires Enabled(Run(EMPTY, before), Init(made, true))
    requires Possible(Next(Run(EMPTY, before), Init(made, true)), trace)
    ensures var s0 := Run(EMPTY, before);
      var s := Run(Next(s0, Init(made, true)), trace);
      && Elements(s.idle) + s.validating.Values + s.leased == s0.created + Elements(made)
      && |s.leased| <= |s0.created| + |made|
      && (|s0.created + Elements(made)| == |made| <==> s0.created == {})
  {
    RunKeepsInv(EMPTY, before);
    LeasesFrom(Run(EMPTY, before), made, trace);
  }

  lemma LeasesFrom(s0: Pool, made: seq<Conn>, trace: seq<Event>)
    requires Inv(s0) && !s0.initialized && Enabled(s0, Init(made, true))
    requires Possible(Next(s0, Init(made, true)), trace)
    ensures var s := Run(Next(s0, Init(made, true)), trace);
      && Elements(s.idle) + s.validating.Values + s.leased == s0.created + Elements(made)
      && |s.leased| <= |s0.created| + |made|
      && (|s0.created + Elements(made)| == |made| <==> s0.created == {})
  {
    var s1 := Next(s0, Init(made, true));
    NextKeepsInv(s0, Init(made, true));
    CreatedForGood(s1, trace);
    SizeAfterInit(s0.created, made);
    assert s1.created == s0.created + Elements(made);
  }

  lemma NextKeepsInv(s: Pool, e: Event)
    requires Inv(s) && Enabled(s, e)
    ensures Inv(Next(s, e))
  {
    NextConserves(s, e);
    NextApart(s, e);
    NextNoLostWakeup(s, e);
    NextCheckedExist(s, e);
  }

  lemma NextCheckedExist(s: Pool, e: Event)
    requires Conserved(s) && CheckedExist(s) && Enabled(s, e)
    ensures CheckedExist(Next(s, e))
  {
    if e.Snapshot? {
      forall c | c in s.idle ensures c in s.created {
        assert c in Elements(s.idle);
      }
    }
  }

  lemma CreatedForGood(s: Pool, trace: seq<Event>)
    requires Inv(s) && s.initialized && Possible(s, trace)
    ensures var s' := Run(s, trace);
      Elements(s'.idle) + s'.validating.Values + s'.leased == s.created && |s'.leased| <= |s.created|
  {
    RunKeepsInv(s, trace);
    InitializedForGood(s, trace);
    SubsetSize(Run(s, trace).leased, s.created);
  }

  lemma SizeAfterInit(created: set<Conn>, made: seq<Conn>)
    requires Distinct(made) && forall c | c in made :: c !in created
    ensures |created + Elements(made)| == |created| + |made|
    ensures |created + Elements(made)| == |made| <==> created == {}
  {
    ElementsSize(made);
    DisjointSize(created, Elements(made));
  }

  lemma DisjointSize(a: set<Conn>, b: set<Conn>)
    requires a !! b
    ensures |a + b| == |a| + |b|
  {}

  lemma {:induction false} ElementsSize(q: seq<Conn>)
    requires Distinct(q)
    ensures |Elements(q)| == |q|
    decreases |q|
  {
    if q != [] {
      ElementsSize(q[1..]);
      assert q[0] !in q[1..];
      assert Elements(q) == {q[0]} + Elements(q[1..]);
    }
  }

  // ---- who waits ----------------------------------------------------------------------------

  /** A thread that asks gets a connection if one is idle, sleeps if the pool is initialised, and else gives up. */
  lemma AskIff(s: Pool, e: Event, t: Thread)
    requires ThreadsApart(s) && Enabled(s, e) && (e == Enter(t) || e == Resume(t))
    ensures t in Next(s, e).validating <==> s.idle != []
    ensures t in Next(s, e).asleep <==> s.idle == [] && s.initialized
    ensures t !in Next(s, e).woken
  {}

  /** A pool is initialised once some `init` has made all its connections. */
  lemma {:induction false} InitializedIff(s: Pool, trace: seq<Event>)
    requires Possible(s, trace)
    ensures Run(s, trace).initialized
      <==> s.initialized || exists i :: 0 <= i < |trace| && trace[i].Init? && trace[i].ok
    decreases |trace|
  {
    if trace != [] {
      var rest := trace[1..];
      InitializedIff(Next(s, trace[0]), rest);
      if i :| 0 <= i < |trace| && trace[i].Init? && trace[i].ok {
        assert i > 0 ==> rest[i - 1] == trace[i];
      }
      if i :| 0 <= i < |rest| && rest[i].Init? && rest[i].ok {
        assert trace[i + 1] == rest[i];
      }
    }
  }

  // ---- order ----------------------------------------------------------------------------------

  /** The connections that an event puts into the queue, in order. */
  function PutIn(s: Pool, e: Event): seq<Conn> {
    match e
    case Init(made, ok) => if s.initialized then [] else made
    case ValidationFailed(t, notified) => if t in s.validating then [s.validating[t]] else []
    case Return(c, notified) => [c]
    case _ => []
  }

  /** The connection that a thread gets by an event. */
  function TakenOut(s: Pool, e: Event): seq<Conn> {
    match e
    case Enter(t) => if t in Next(s, e).validating then [Next(s, e).validating[t]] else []
    case Resume(t) => if t in Next(s, e).validating then [Next(s, e).validating[t]] else []
    case _ => []
  }

  function AllIn(s: Pool, trace: seq<Event>): seq<Conn>
    decreases |trace|
  {
    if trace == [] then [] else PutIn(s, trace[0]) + AllIn(Next(s, trace[0]), trace[1..])
  }

  function AllOut(s: Pool, trace: seq<Event>): seq<Conn>
    decreases |trace|
  {
    if trace == [] then [] else TakenOut(s, trace[0]) + AllOut(Next(s, trace[0]), trace[1..])
  }

  lemma NextInOrder(s: Pool, e: Event)
    requires ThreadsApart(s) && Enabled(s, e)
    ensures s.idle + PutIn(s, e) == TakenOut(s, e) + Next(s, e).idle
  {
    match e
    case Enter(t) => TakeInOrder(s, t);
    case Resume(t) => TakeInOrder(s.(woken := s.woken - {t}), t);
    case _ =>
  }

  lemma TakeInOrder(s: Pool, t: Thread)
    requires t !in s.validating
    ensures var s' := TakeOrWait(s, t);
      s.idle == (if t in s'.validating then [s'.validating[t]] else []) + s'.idle
  {
    if s.idle != [] {
      assert s.idle == [s.idle[0]] + s.idle[1..];
    }
  }

  /** First in, first out: over every interleaving connections leave the queue in the order in which they joined it. */
  lemma {:induction false} FirstInFirstOut(s: Pool, trace: seq<Event>)
    requires Inv(s) && Possible(s, trace)
    ensures s.idle + AllIn(s, trace) == AllOut(s, trace) + Run(s, trace).idle
    decreases |trace|
  {
    if trace == [] {
      assert s.idle + [] == [] + s.idle;
    } else {
      var e, s1 := trace[0], Next(s, trace[0]);
      NextKeepsInv(s, e);
      NextInOrder(s, e);
      FirstInFirstOut(s1, trace[1..]);
      Queued(s.idle, PutIn(s, e), AllIn(s1, trace[1..]), TakenOut(s, e), s1.idle,
             AllOut(s1, trace[1..]), Run(s1, trace[1..]).idle);
    }
  }

  lemma Queued(q: seq<Conn>, a: seq<Conn>, b: seq<Conn>, x: seq<Conn>, q1: seq<Conn>, y: seq<Conn>, q2: seq<Conn>)
    requires q + a == x + q1 && q1 + b == y + q2
    ensures q + (a + b) == (x + y) + q2
  {
    Assoc(q, a, b);
    Assoc(x, q1, b);
    Assoc(x, y, q2);
  }

  /** The connections that the check thread pings over a run, and the queues that it copied. */
  function AllPinged(s: Pool, trace: seq<Event>): seq<Conn>
    decreases |trace|
  {
    if trace == [] then []
    else
      (if trace[0].Checked? && s.checking != [] then [s.checking[0]] else [])
      + AllPinged(Next(s, trace[0]), trace[1..])
  }

  function AllCopied(s: Pool, trace: seq<Event>): seq<Conn>
    decreases |trace|
  {
    if trace == [] then []
    else (if trace[0].Snapshot? then s.idle else []) + AllCopied(Next(s, trace[0]), trace[1..])
  }

  /** The check thread pings exactly the connections that were idle when it copied the queue, in order. */
  lemma {:induction false} PingsWhatItCopied(s: Pool, trace: seq<Event>)
    requires Possible(s, trace)
    ensures s.checking + AllCopied(s, trace) == AllPinged(s, trace) + Run(s, trace).checking
    decreases |trace|
  {
    if trace == [] {
      assert s.checking + [] == [] + s.checking;
    } else {
      var e, s1 := trace[0], Next(s, trace[0]);
      PingsWhatItCopied(s1, trace[1..]);
      NextPings(s, e);
      Queued(s.checking, if e.Snapshot? then s.idle else [], AllCopied(s1, trace[1..]),
             if e.Checked? && s.checking != [] then [s.checking[0]] else [], s1.checking,
             AllPinged(s1, trace[1..]), Run(s1, trace[1..]).checking);
    }
  }

  lemma NextPings(s: Pool, e: Event)
    requires Enabled(s, e)
    ensures s.checking + (if e.Snapshot? then s.idle else [])
      == (if e.Checked? && s.checking != [] then [s.checking[0]] else []) + Next(s, e).checking
  {
    if e.Checked? {
      assert s.checking == [s.checking[0]] + s.checking[1..];
    }
  }

  // ---- use by one thread at a time ---------------------------------------------------------

  /** Who may be working with a connection: a thread that validates it, its lease, or the check thread. */
  datatype User = Validator(t: Thread) | Holder | Pinger

  predicate Uses(s: Pool, u: User, c: Conn) {
    match u
    case Validator(t) => t in s.validating && s.validating[t] == c
    case Holder => c in s.leased
    case Pinger => s.checking != [] && s.checking[0] == c
  }

  ghost predicate OneUserEach(s: Pool) {
    forall c, u, v | Uses(s, u, c) && Uses(s, v, c) :: u == v
  }

  /**
    In every interleaving the threads of the pool never share a connection; and nobody does
    if and only if the one that the check thread pings is still, or again, in the queue.
  */
  lemma OneUserIff(trace: seq<Event>)
    requires Possible(EMPTY, trace)
    ensures var s := Run(EMPTY, trace);
      && OneUserEach(s.(checking := []))
      && (OneUserEach(s) <==> s.checking == [] || s.checking[0] in s.idle)
  {
    RunKeepsInv(EMPTY, trace);
    var s := Run(EMPTY, trace);
    PoolUsersApart(s.(checking := []));
    if s.checking != [] {
      PingerAlone(s);
    } else {
      assert s.(checking := []) == s;
    }
  }

  lemma PoolUsersApart(s: Pool)
    requires Conserved(s) && s.checking == []
    ensures OneUserEach(s)
  {
    forall c, u, v | Uses(s, u, c) && Uses(s, v, c) ensures u == v {
      if u.Validator? {
        assert c in s.validating.Values;
      }
      if v.Validator? {
        assert c in s.validating.Values;
      }
    }
  }

  lemma PingerAlone(s: Pool)
    requires Conserved(s) && CheckedExist(s) && s.checking != [] && OneUserEach(s.(checking := []))
    ensures OneUserEach(s) <==> s.checking[0] in s.idle
  {
    var c := s.checking[0];
    assert Uses(s, Pinger, c);
    if c in s.idle {
      assert c in Elements(s.idle);
      forall d, u, v | Uses(s, u, d) && Uses(s, v, d) ensures u == v {
        NotIdle(s, u, d);
        NotIdle(s, v, d);
        if u != Pinger && v != Pinger {
          assert Uses(s.(checking := []), u, d) && Uses(s.(checking := []), v, d);
        }
      }
    } else {
      var u := UserOutside(s, c);
      assert Uses(s, u, c) && u != Pinger;
    }
  }

  lemma NotIdle(s: Pool, u: User, c: Conn)
    requires Conserved(s) && Uses(s, u, c)
    ensures u != Pinger ==> c !in s.idle
  {
    assert c in s.idle ==> c in Elements(s.idle);
    if u.Validator? {
      assert c in s.validating.Values;
    }
  }

  lemma UserOutside(s: Pool, c: Conn) returns (u: User)
    requires Conserved(s) && c in s.created && c !in s.idle
    ensures Uses(s, u, c) && u != Pinger
  {
    u := Holder;
    assert c !in Elements(s.idle);
    if c !in s.leased {
      assert c in s.validating.Values;
      var t :| t in s.validating && s.validating[t] == c;
      u := Validator(t);
    }
  }

  /** A run in which a lease and the check thread share a connection. */
  lemma PingerShares(t: Thread, c: Conn)
    ensures var trace := [Init([c], true), Snapshot, Enter(t), Validated(t)];
      Possible(EMPTY, trace) && c in Run(EMPTY, trace).leased && !OneUserEach(Run(EMPTY, trace))
  {
    var s1 := Next(EMPTY, Init([c], true));
    var s2 := Next(s1, Snapshot);
    var s3 := Next(s2, Enter(t));
    var s4 := Next(s3, Validated(t));
    assert s1.idle == [c] && s2.checking == [c] && s3.validating[t] == c && s4.leased == {c};
    assert Possible(s4, []) && Run(s4, []) == s4;
    RunOne(s3, Validated(t), []);
    RunOne(s2, Enter(t), [Validated(t)]);
    RunOne(s1, Snapshot, [Enter(t), Validated(t)]);
    RunOne(EMPTY, Init([c], true), [Snapshot, Enter(t), Validated(t)]);
    assert [Validated(t)] + [] == [Validated(t)];
    assert [Enter(t)] + [Validated(t)] == [Enter(t), Validated(t)];
    assert [Snapshot] + [Enter(t), Validated(t)] == [Snapshot, Enter(t), Validated(t)];
    assert [Init([c], true)] + [Snapshot, Enter(t), Validated(t)]
      == [Init([c], true), Snapshot, Enter(t), Validated(t)];
    assert Uses(s4, Holder, c) && Uses(s4, Pinger, c);
  }

  lemma RunOne(s: Pool, e: Event, rest: seq<Event>)
    ensures Run(s, [e] + rest) == Run(Next(s, e), rest)
    ensures Possible(s, [e] + rest) <==> Enabled(s, e) && Possible(Next(s, e), rest)
  {
    assert ([e] + rest)[1..] == rest;
  }

  // ---- the critical sections --------------------------------------------------------------

  datatype Acquired = Got(conn: Conn) | Waiting | NotInitialized

  /** The pool's own fields, with the condition variable's waiters and the connections given out. */
  class DbConnectionPool {
    var connections: seq<Conn>
    var initialized: bool
    var asleep: set<Thread>
    var woken: set<Thread>
    var validating: map<Thread, Conn>
    var leased: set<Conn>
    var checking: seq<Conn>
    ghost var created: set<Conn>

    ghost function Abs(): Pool
      reads this
    {
      Pool(connections, initialized, asleep, woken, validating, leased, created, checking)
    }

    constructor ()
      ensures Abs() == EMPTY
    {
      connections, initialized := [], false;
      asleep, woken, validating, leased, created := {}, {}, map[], {}, {};
      checking := [];
    }

    /**
      `init` with the connections `createConnection` returns, in order; `|made| < poolSize`
      when the next call of it throws, which leaves the connections made so far in the queue.
    */
    method Init(poolSize: nat, made: seq<Conn>)
      requires |made| <= poolSize
      requires Enabled(Abs(), Event.Init(made, |made| == poolSize))
      modifies this
      ensures Abs() == Next(old(Abs()), Event.Init(made, |made| == poolSize))
    {
      if initialized {
        return;
      }
      for i := 0 to poolSize
        invariant i <= |made|
        invariant connections == old(connections) + made[..i]
        invariant Abs() == old(Abs()).(idle := connections, created := old(created) + Elements(made[..i]))
      {
        if i == |made| {
          assert made[..i] == made;
          return;
        }
        connections := connections + [made[i]];
        created := created + {made[i]};
        assert made[..i + 1] == made[..i] + [made[i]];
      }
      assert made[..poolSize] == made;
      initialized := true;
    }

    /** The locked part of `getConnection`, entered by a new or by a woken thread. */
    method Acquire(t: Thread) returns (r: Acquired)
      requires t in woken || !InPool(Abs(), t)
      modifies this
      ensures Abs() == Next(old(Abs()), if t in old(woken) then Resume(t) else Enter(t))
      ensures r == (if old(connections) != [] then Got(old(connections)[0])
                    else if old(initialized) then Waiting else NotInitialized)
    {
      woken := woken - {t};
      if connections == [] {
        if !initialized {
          return NotInitialized;
        }
        asleep := asleep + {t};
        return Waiting;
      }
      var conn := connections[0];
      connections := connections[1..];
      validating := validating[t := conn];
      return Got(conn);
    }

    /** The ping, and the reconnect if it is needed, succeeded: the caller gets the lease. */
    method Lease(t: Thread) returns (conn: Conn)
      requires t in validating
      modifies this
      ensures Abs() == Next(old(Abs()), Validated(t)) && conn == old(validating)[t]
    {
      conn := validating[t];
      validating := validating - {t};
      leased := leased + {conn};
    }

    method NotifyOne(notified: Option<Thread>)
      requires Notifies(asleep, notified)
      modifies this
      ensures Abs() == Notify(old(Abs()), notified)
    {
      if notified.Some? {
        asleep := asleep - {notified.value};
        woken := woken + {notified.value};
      }
    }

    /** The exception path of `getConnection`. */
    method GiveUp(t: Thread, notified: Option<Thread>)
      requires t in validating && Notifies(asleep, notified)
      modifies this
      ensures Abs() == Next(old(Abs()), ValidationFailed(t, notified))
    {
      connections := connections + [validating[t]];
      validating := validating - {t};
      NotifyOne(notified);
    }

    /** The deleter of a leased connection. */
    method GiveBack(conn: Conn, notified: Option<Thread>)
      requires conn in leased && Notifies(asleep, notified)
      modifies this
      ensures Abs() == Next(old(Abs()), Return(conn, notified))
    {
      leased := leased - {conn};
      connections := connections + [conn];
      NotifyOne(notified);
    }

    /** The locked part of `checkConnections`, which copies a queue that is not empty. */
    method CopyQueue()
      requires checking == []
      modifies this
      ensures Abs() == if old(connections) == [] then old(Abs()) else Next(old(Abs()), Snapshot)
    {
      var temp := connections;
      while temp != []
        invariant |temp| <= |connections| && checking + temp == connections == old(connections)
        invariant Abs() == old(Abs()).(checking := checking)
        decreases |temp|
      {
        checking := checking + [temp[0]];
        temp := temp[1..];
      }
      assert checking + [] == checking;
    }

    /** One round of the loop that pings and reconnects the copies. */
    method CheckOne()
      requires checking != []
      modifies this
      ensures Abs() == Next(old(Abs()), Checked)
    {
      checking := checking[1..];
    }
  }
}

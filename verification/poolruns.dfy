/** Every interleaving of n goroutines over one connection pool, up to Close. */
module PoolRuns {
  import opened Pool
  import opened Text

  type Id = nat  // connections, numbered in the order the factory made them

  /** Where a goroutine stands inside Get or Put. */
  datatype Phase =
    | Outside
    | Selecting           // in Get, before the first select
    | Checking            // default arm taken, size not yet checked
    | Past                // size check passed, nothing created yet
    | Waiting             // size check failed, in the second select
    | Made(c: Id)         // created counted, active not yet
    | Got(c: Id)          // received, counters not yet moved
    | Sending(c: Id)      // idle counted, not yet sent
    | Overflowing(c: Id)  // default arm of Put's select taken

  /** `held` are the connections clients hold; `next` is the next fresh id. */
  datatype Sys = Sys(pool: Shared<Id>, procs: seq<Phase>, held: set<Id>, next: Id)

  datatype Event =
    | GetCall(i: nat)
    | Take(i: nat)                   // either select receives
    | NoneIdle(i: nat)               // default arm of the first select: nothing to receive
    | GiveUp(i: nat)                 // context done, or the timer fired
    | Check(i: nat)
    | Factory(i: nat, ok: bool)
    | Count(i: nat)
    | PutCall(i: nat, conn: Id)
    | Send(i: nat)
    | Drop(i: nat)

  predicate Enabled(s: Sys, e: Event) {
    e.i < |s.procs| &&
    var p := s.procs[e.i];
    match e
    case GetCall(_) => p.Outside?
    case Take(_) => (p.Selecting? || p.Waiting?) && s.pool.channel != []
    case NoneIdle(_) => p.Selecting? && s.pool.channel == []
    case GiveUp(_) => p.Selecting? || p.Waiting?
    case Check(_) => p.Checking?
    case Factory(_, _) => p.Past?
    case Count(_) => p.Made? || p.Got?
    case PutCall(_, c) => p.Outside? && c < s.next
    case Send(_) => p.Sending?
    case Drop(_) => p.Overflowing?
  }

  /** A careful client puts back only what it holds. */
  predicate Careful(s: Sys, e: Event) {
    e.PutCall? ==> e.conn in s.held
  }

  function At(s: Sys, i: nat, p: Phase): Sys
    requires i < |s.procs|
  {
    s.(procs := s.procs[i := p])
  }

  function Apply(cfg: Config, s: Sys, e: Event): Sys
    requires Enabled(s, e)
  {
    var i := e.i;
    match e
    case GetCall(_) => At(s, i, Selecting)
    case Take(_) => At(s, i, Got(s.pool.channel[0])).(pool := Received(s.pool))
    case NoneIdle(_) => At(s, i, Checking)
    case GiveUp(_) => At(s, i, Outside)
    case Check(_) => At(s, i, if HasRoom(cfg, s.pool) then Past else Waiting)
    case Factory(_, ok) =>
      if ok then At(s, i, Made(s.next)).(pool := Created(s.pool), next := s.next + 1) else At(s, i, Outside)
    case Count(_) =>
      var c := s.procs[i].c;
      At(s, i, Outside).(
        pool := if s.procs[i].Got? then CountedReceived(s.pool) else CountedCreated(s.pool),
        held := s.held + {c})
    case PutCall(_, c) =>
      At(s, i, if Keeps(cfg, s.pool) then Sending(c) else Outside).(
        pool := PutCounted(cfg, s.pool), held := s.held - {c})
    case Send(_) =>
      var c := s.procs[i].c;
      if |s.pool.channel| < cfg.maxSize then At(s, i, Outside).(pool := Sent(s.pool, c))
      else At(s, i, Overflowing(c))
    case Drop(_) => At(s, i, Outside).(pool := Dropped(s.pool))
  }

  predicate Legal(cfg: Config, s: Sys, es: seq<Event>)
    decreases |es|
  {
    es == [] || (Enabled(s, es[0]) && Legal(cfg, Apply(cfg, s, es[0]), es[1..]))
  }

  function Exec(cfg: Config, s: Sys, es: seq<Event>): Sys
    requires Legal(cfg, s, es)
    decreases |es|
  {
    if es == [] then s else Exec(cfg, Apply(cfg, s, es[0]), es[1..])
  }

  predicate AllCareful(cfg: Config, s: Sys, es: seq<Event>)
    requires Legal(cfg, s, es)
    decreases |es|
  {
    es == [] || (Careful(s, es[0]) && AllCareful(cfg, Apply(cfg, s, es[0]), es[1..]))
  }

  /** The pool as constructed, with n goroutines about to use it. */
  function Init(cfg: Config, factory: nat -> bool, n: nat): Sys
    requires 1 <= cfg.maxIdle <= cfg.maxSize
  {
    var k := Successes(factory, cfg.maxIdle);
    Sys(Shared(seq(k, j => j), k, 0, cfg.maxIdle), seq(n, _ => Outside), {}, k)
  }

  // ----- measures over the goroutines -----

  datatype Measure = InIdle | InPast | InHands | Holding(c: Id)

  /** InIdle: its connection is counted idle; InPast: past the size check; InHands: it is moving a connection;
      Holding: it is moving this one. */
  function Weight(m: Measure, p: Phase): nat {
    var moving := p.Made? || p.Got? || p.Sending? || p.Overflowing?;
    var counts :=
      match m
      case InIdle => moving && !p.Made?
      case InPast => p.Past?
      case InHands => moving
      case Holding(c) => moving && p.c == c;
    if counts then 1 else 0
  }

  function Tally(m: Measure, ps: seq<Phase>): (t: nat)
    ensures t <= |ps|
  {
    if ps == [] then 0 else Weight(m, ps[0]) + Tally(m, ps[1..])
  }

  lemma {:induction false} TallyUpdate(m: Measure, ps: seq<Phase>, i: nat, p: Phase)
    requires i < |ps|
    ensures Tally(m, ps[i := p]) == Tally(m, ps) - Weight(m, ps[i]) + Weight(m, p)
    ensures Weight(m, ps[i]) <= Tally(m, ps)
    ensures Tally(m, ps) - Weight(m, ps[i]) <= |ps| - 1
  {
    if i == 0 {
      assert ps[i := p][1..] == ps[1..];
    } else {
      assert ps[i := p][1..] == ps[1..][i - 1 := p];
      TallyUpdate(m, ps[1..], i - 1, p);
    }
  }

  // ----- invariants -----

  /** Holds whatever clients do: `failures` is how many factory calls failed at construction. */
  ghost predicate Counters(cfg: Config, failures: nat, s: Sys) {
    && s.pool.idle == |s.pool.channel| + Tally(InIdle, s.procs) + failures
    && s.pool.idle <= cfg.maxIdle <= cfg.maxSize
    && s.pool.created + Tally(InPast, s.procs) <= cfg.maxSize + |s.procs| - 1
    && forall i :: 0 <= i < |s.procs| ==> !s.procs[i].Overflowing?
  }

  function Occurs(c: Id, q: seq<Id>): nat {
    if q == [] then 0 else (if q[0] == c then 1 else 0) + Occurs(c, q[1..])
  }

  lemma {:induction false} OccursAppend(c: Id, q: seq<Id>, d: Id)
    ensures Occurs(c, q + [d]) == Occurs(c, q) + if c == d then 1 else 0
  {
    if q == [] {
      assert (q + [d])[1..] == [];
    } else {
      assert (q + [d])[1..] == q[1..] + [d];
      OccursAppend(c, q[1..], d);
    }
  }

  /** In how many places connection c is: the channel, the hands of goroutines, clients. */
  function Places(s: Sys, c: Id): nat {
    Occurs(c, s.pool.channel) + Tally(Holding(c), s.procs) + if c in s.held then 1 else 0
  }

  /** Holds when clients are careful. */
  ghost predicate Ownership(s: Sys) {
    && s.pool.created == |s.pool.channel| + Tally(InHands, s.procs) + |s.held|
    && s.pool.active == |s.held|
    && (forall c: Id :: Places(s, c) <= if c < s.next then 1 else 0)
  }

  lemma CountersStep(cfg: Config, failures: nat, s: Sys, e: Event)
    requires Counters(cfg, failures, s) && Enabled(s, e)
    ensures Counters(cfg, failures, Apply(cfg, s, e))
    ensures |Apply(cfg, s, e).procs| == |s.procs|
    ensures e.Send? ==> |s.pool.channel| < cfg.maxSize
  {
    hide Tally;
    var t := Apply(cfg, s, e);
    TallyUpdate(InIdle, s.procs, e.i, t.procs[e.i]);
    TallyUpdate(InPast, s.procs, e.i, t.procs[e.i]);
  }

  lemma PlacesStep(cfg: Config, s: Sys, e: Event, c: Id)
    requires Enabled(s, e) && Careful(s, e)
    requires e.Send? ==> |s.pool.channel| < cfg.maxSize
    requires !e.Drop? && (e.Count? ==> s.procs[e.i].c !in s.held)
    ensures Places(Apply(cfg, s, e), c) == Places(s, c)
      + (if e.Factory? && e.ok && c == s.next then 1 else 0)
      - (if e.PutCall? && !Keeps(cfg, s.pool) && c == e.conn then 1 else 0)
  {
    var t := Apply(cfg, s, e);
    TallyUpdate(Holding(c), s.procs, e.i, t.procs[e.i]);
    if e.Send? {
      OccursAppend(c, s.pool.channel, s.procs[e.i].c);
    }
  }

  // Taking a connection from a goroutine's hands finds it held by no client.
  lemma HandNotHeld(s: Sys, i: nat)
    requires Ownership(s) && i < |s.procs| && (s.procs[i].Made? || s.procs[i].Got?)
    ensures s.procs[i].c !in s.held
  {
    var c := s.procs[i].c;
    TallyUpdate(Holding(c), s.procs, i, Outside);
    assert Places(s, c) <= 1;
  }

  lemma PlacesAfter(cfg: Config, s: Sys, e: Event)
    requires Ownership(s) && Enabled(s, e) && Careful(s, e)
    requires (e.Send? ==> |s.pool.channel| < cfg.maxSize) && !e.Drop?
    ensures var t := Apply(cfg, s, e); forall c: Id :: Places(t, c) <= if c < t.next then 1 else 0
  {
    var t := Apply(cfg, s, e);
    if e.Count? {
      HandNotHeld(s, e.i);
    }
    forall c: Id ensures Places(t, c) <= if c < t.next then 1 else 0 {
      PlacesStep(cfg, s, e, c);
      hide Places;
      assert Places(s, c) <= if c < s.next then 1 else 0;
    }
  }

  // What the event adds to the connections clients hold
  function Gain(e: Event): int {
    if e.Count? then 1 else if e.PutCall? then -1 else 0
  }

  /** Every event, the full arm of Put included, moves the idle counter with the connections that are counted idle. */
  lemma IdleAfter(cfg: Config, s: Sys, e: Event)
    requires Enabled(s, e)
    ensures var t := Apply(cfg, s, e);
      t.pool.idle - |t.pool.channel| - Tally(InIdle, t.procs) == s.pool.idle - |s.pool.channel| - Tally(InIdle, s.procs)
  {
    hide Tally;
    TallyUpdate(InIdle, s.procs, e.i, Apply(cfg, s, e).procs[e.i]);
  }

  lemma HeldAfter(cfg: Config, s: Sys, e: Event)
    requires Enabled(s, e) && Careful(s, e) && (e.Count? ==> s.procs[e.i].c !in s.held)
    ensures |Apply(cfg, s, e).held| == |s.held| + Gain(e)
  {
    hide Keeps;
    var held := Apply(cfg, s, e).held;
    if e.Count? {
      assert held == s.held + {s.procs[e.i].c};
      hide Apply;
    } else if e.PutCall? {
      assert held == s.held - {e.conn};
      hide Apply;
    } else {
      assert held == s.held;
    }
  }

  /** And the counters of created and active connections with what is created and held. */
  lemma CountsAfter(cfg: Config, s: Sys, e: Event)
    requires Enabled(s, e)
    ensures var t := Apply(cfg, s, e);
      && t.pool.created - |t.pool.channel| - Tally(InHands, t.procs)
        == s.pool.created - |s.pool.channel| - Tally(InHands, s.procs) + Gain(e)
      && t.pool.active == s.pool.active + Gain(e)
  {
    hide Tally;
    var t := Apply(cfg, s, e);
    TallyUpdate(InHands, s.procs, e.i, t.procs[e.i]);
  }

  lemma OwnershipStep(cfg: Config, failures: nat, s: Sys, e: Event)
    requires Counters(cfg, failures, s) && Ownership(s) && Enabled(s, e) && Careful(s, e)
    ensures Ownership(Apply(cfg, s, e))
  {
    CountersStep(cfg, failures, s, e);
    if e.Count? {
      HandNotHeld(s, e.i);
    }
    HeldAfter(cfg, s, e);
    CountsAfter(cfg, s, e);
    PlacesAfter(cfg, s, e);
    hide Places, Tally, Apply;
  }

  lemma {:induction false} AllOutside(m: Measure, n: nat)
    ensures Tally(m, seq(n, _ => Outside)) == 0
  {
    if n > 0 {
      assert seq(n, _ => Outside)[1..] == seq(n - 1, _ => Outside);
      AllOutside(m, n - 1);
    }
  }

  lemma {:induction false} Numbered(k: nat, c: Id)
    ensures Occurs(c, seq(k, j => j)) == if c < k then 1 else 0
  {
    if k > 0 {
      assert seq(k, j => j) == seq(k - 1, j => j) + [k - 1];
      OccursAppend(c, seq(k - 1, j => j), k - 1);
      Numbered(k - 1, c);
    }
  }

  /** What construction counts: the calls of the factory that succeed. */
  lemma {:induction false} SuccessesCounted(factory: nat -> bool, n: nat)
    ensures Successes(factory, n) == |set k: nat | k < n && factory(k)|
  {
    if n > 0 {
      SuccessesCounted(factory, n - 1);
      var before := set k: nat | k < n - 1 && factory(k);
      assert (set k: nat | k < n && factory(k)) == before + if factory(n - 1) then {n - 1} else {};
    }
  }

  function Failures(cfg: Config, factory: nat -> bool): nat
    requires 1 <= cfg.maxIdle
  {
    cfg.maxIdle - Successes(factory, cfg.maxIdle)
  }

  lemma InitInvariant(cfg: Config, factory: nat -> bool, n: nat)
    requires 1 <= cfg.maxIdle <= cfg.maxSize && n >= 1
    ensures Counters(cfg, Failures(cfg, factory), Init(cfg, factory, n))
    ensures Ownership(Init(cfg, factory, n))
  {
    var s := Init(cfg, factory, n);
    AllOutside(InIdle, n);
    AllOutside(InPast, n);
    AllOutside(InHands, n);
    forall c: Id ensures Places(s, c) <= if c < s.next then 1 else 0 {
      AllOutside(Holding(c), n);
      Numbered(s.next, c);
    }
  }

  // ----- over runs -----

  lemma {:induction false} RunKeepsCounters(cfg: Config, failures: nat, s: Sys, es: seq<Event>)
    requires Counters(cfg, failures, s) && Legal(cfg, s, es)
    ensures Counters(cfg, failures, Exec(cfg, s, es))
    ensures |Exec(cfg, s, es).procs| == |s.procs|
    decreases |es|
  {
    if es != [] {
      CountersStep(cfg, failures, s, es[0]);
      RunKeepsCounters(cfg, failures, Apply(cfg, s, es[0]), es[1..]);
    }
  }

  lemma {:induction false} RunKeepsOwnership(cfg: Config, failures: nat, s: Sys, es: seq<Event>)
    requires Counters(cfg, failures, s) && Ownership(s)
    requires Legal(cfg, s, es) && AllCareful(cfg, s, es)
    ensures Ownership(Exec(cfg, s, es))
    decreases |es|
  {
    if es != [] {
      CountersStep(cfg, failures, s, es[0]);
      OwnershipStep(cfg, failures, s, es[0]);
      RunKeepsOwnership(cfg, failures, Apply(cfg, s, es[0]), es[1..]);
    }
  }

  /** Any clients: the idle counter is exact up to the failures at construction, and the size check overshoots
      by at most n - 1. */
  lemma IdleAndSizeBound(cfg: Config, factory: nat -> bool, n: nat, es: seq<Event>)
    requires 1 <= cfg.maxIdle <= cfg.maxSize && n >= 1
    requires Legal(cfg, Init(cfg, factory, n), es)
    ensures var s := Exec(cfg, Init(cfg, factory, n), es);
      && s.pool.idle == |s.pool.channel| + Tally(InIdle, s.procs) + Failures(cfg, factory)
      && s.pool.idle <= cfg.maxIdle
      && s.pool.created + Tally(InPast, s.procs) <= cfg.maxSize + n - 1
      && (n == 1 ==> s.pool.created <= cfg.maxSize)
  {
    InitInvariant(cfg, factory, n);
    RunKeepsCounters(cfg, Failures(cfg, factory), Init(cfg, factory, n), es);
  }

  /** Any clients: a goroutine about to send always finds room, so the "pool is full" arm never runs. */
  lemma FullArmUnreachable(cfg: Config, factory: nat -> bool, n: nat, es: seq<Event>, i: nat)
    requires 1 <= cfg.maxIdle <= cfg.maxSize && n >= 1 && i < n
    requires Legal(cfg, Init(cfg, factory, n), es)
    ensures var s := Exec(cfg, Init(cfg, factory, n), es);
      && |s.procs| == n
      && !s.procs[i].Overflowing?
      && (s.procs[i].Sending? ==> |s.pool.channel| < cfg.maxSize)
  {
    InitInvariant(cfg, factory, n);
    RunKeepsCounters(cfg, Failures(cfg, factory), Init(cfg, factory, n), es);
    var s := Exec(cfg, Init(cfg, factory, n), es);
    if s.procs[i].Sending? {
      CountersStep(cfg, Failures(cfg, factory), s, Send(i));
    }
  }

  /** Careful clients: the counters say where every connection is, and no connection is in two places. */
  lemma ConservationAndOwnership(cfg: Config, factory: nat -> bool, n: nat, es: seq<Event>)
    requires 1 <= cfg.maxIdle <= cfg.maxSize && n >= 1
    requires Legal(cfg, Init(cfg, factory, n), es) && AllCareful(cfg, Init(cfg, factory, n), es)
    ensures var s := Exec(cfg, Init(cfg, factory, n), es);
      && s.pool.created == |s.pool.channel| + Tally(InHands, s.procs) + s.pool.active
      && s.pool.active == |s.held|
      && (forall c: Id :: Places(s, c) <= 1)
  {
    InitInvariant(cfg, factory, n);
    RunKeepsOwnership(cfg, Failures(cfg, factory), Init(cfg, factory, n), es);
  }

  lemma {:induction false} NoneInside(m: Measure, ps: seq<Phase>)
    requires forall p <- ps :: p.Outside? || p.Waiting?
    ensures Tally(m, ps) == 0
  {
    if ps != [] {
      assert ps[0] in ps;
      NoneInside(m, ps[1..]);
    }
  }

  /** Once every goroutine is out of the pool and every connection is back, the counters are exact: nothing is active,
      and what was created is what the channel holds, at most the idle limit less the failures at construction. */
  lemma Quiescence(cfg: Config, factory: nat -> bool, n: nat, es: seq<Event>)
    requires 1 <= cfg.maxIdle <= cfg.maxSize && n >= 1
    requires Legal(cfg, Init(cfg, factory, n), es) && AllCareful(cfg, Init(cfg, factory, n), es)
    requires var s := Exec(cfg, Init(cfg, factory, n), es); s.held == {} && forall p <- s.procs :: p.Outside?
    ensures var s := Exec(cfg, Init(cfg, factory, n), es);
      && s.pool.active == 0
      && s.pool.created == |s.pool.channel| == s.pool.idle - Failures(cfg, factory)
      && |s.pool.channel| <= cfg.maxIdle - Failures(cfg, factory)
  {
    IdleAndSizeBound(cfg, factory, n, es);
    ConservationAndOwnership(cfg, factory, n, es);
    NoneInside(InIdle, Exec(cfg, Init(cfg, factory, n), es).procs);
    NoneInside(InHands, Exec(cfg, Init(cfg, factory, n), es).procs);
  }

  // ----- first in, first out -----

  /** The connections a run receives from the channel, in order: those found in the hands of the receivers. */
  function Taken(cfg: Config, s: Sys, es: seq<Event>): seq<Id>
    requires Legal(cfg, s, es)
    decreases |es|
  {
    if es == [] then []
    else
      var (e, t) := (es[0], Apply(cfg, s, es[0]));
      (if e.Take? && t.procs[e.i].Got? then [t.procs[e.i].c] else []) + Taken(cfg, t, es[1..])
  }

  /** The connections it sends to the channel, in order: those in the hands of a sender that gets them off. */
  function Returned(cfg: Config, s: Sys, es: seq<Event>): seq<Id>
    requires Legal(cfg, s, es)
    decreases |es|
  {
    if es == [] then []
    else
      var (e, t) := (es[0], Apply(cfg, s, es[0]));
      (if e.Send? && !t.procs[e.i].Overflowing? then [s.procs[e.i].c] else []) + Returned(cfg, t, es[1..])
  }

  lemma OneInOneOut(cfg: Config, s: Sys, e: Event)
    requires Enabled(s, e)
    ensures var t := Apply(cfg, s, e);
      s.pool.channel + (if e.Send? && !t.procs[e.i].Overflowing? then [s.procs[e.i].c] else [])
        == (if e.Take? && t.procs[e.i].Got? then [t.procs[e.i].c] else []) + t.pool.channel
  {
  }

  /** Over every run, with any clients: what was in the channel and what was sent to it comes out in that order, and
      what has not come out is still there. A sender gets its connection off, or stands in the full arm. */
  lemma {:induction false} FirstInFirstOut(cfg: Config, s: Sys, es: seq<Event>)
    requires Legal(cfg, s, es)
    ensures s.pool.channel + Returned(cfg, s, es) == Taken(cfg, s, es) + Exec(cfg, s, es).pool.channel
    decreases |es|
  {
    if es == [] {
      assert s.pool.channel + [] == [] + s.pool.channel;
    } else {
      var e, t := es[0], Apply(cfg, s, es[0]);
      var back := if e.Send? && !t.procs[e.i].Overflowing? then [s.procs[e.i].c] else [];
      var out := if e.Take? && t.procs[e.i].Got? then [t.procs[e.i].c] else [];
      FirstInFirstOut(cfg, t, es[1..]);
      OneInOneOut(cfg, s, e);
      hide Apply;
      Reassociate(s.pool.channel, back, Returned(cfg, t, es[1..]));
      Reassociate(out, t.pool.channel, Returned(cfg, t, es[1..]));
      Reassociate(out, Taken(cfg, t, es[1..]), Exec(cfg, t, es[1..]).pool.channel);
    }
  }

  /** The same from the channel as constructed, which holds the connections in the order the factory made them. */
  lemma ChannelIsFifo(cfg: Config, factory: nat -> bool, n: nat, es: seq<Event>)
    requires 1 <= cfg.maxIdle <= cfg.maxSize && n >= 1
    requires Legal(cfg, Init(cfg, factory, n), es)
    ensures var s := Init(cfg, factory, n);
      seq(Successes(factory, cfg.maxIdle), j => j) + Returned(cfg, s, es)
        == Taken(cfg, s, es) + Exec(cfg, s, es).pool.channel
  {
    FirstInFirstOut(cfg, Init(cfg, factory, n), es);
  }

  // ----- what one client gets -----

  /** Nobody is between the sections of Get or Put, though some may be waiting for a connection. */
  predicate Resting(s: Sys) {
    forall p <- s.procs :: p.Outside? || p.Waiting?
  }

  lemma One(cfg: Config, s: Sys, e: Event)
    requires Enabled(s, e)
    ensures Legal(cfg, s, [e]) && Exec(cfg, s, [e]) == Apply(cfg, s, e)
  {
    var t := Apply(cfg, s, e);
    assert [e][1..] == [];
    assert Legal(cfg, t, []) && Exec(cfg, t, []) == t;
  }

  lemma More(cfg: Config, s: Sys, e: Event, es: seq<Event>)
    requires Enabled(s, e) && Legal(cfg, Apply(cfg, s, e), es)
    ensures Legal(cfg, s, [e] + es) && Exec(cfg, s, [e] + es) == Exec(cfg, Apply(cfg, s, e), es)
  {
    assert ([e] + es)[1..] == es;
  }

  // At rest the counters are what the channel and the clients hold.
  lemma CountersAtRest(cfg: Config, factory: nat -> bool, n: nat, es: seq<Event>)
    requires 1 <= cfg.maxIdle <= cfg.maxSize && n >= 1
    requires Legal(cfg, Init(cfg, factory, n), es) && AllCareful(cfg, Init(cfg, factory, n), es)
    requires Resting(Exec(cfg, Init(cfg, factory, n), es))
    ensures var s := Exec(cfg, Init(cfg, factory, n), es);
      && s.pool.created == |s.pool.channel| + |s.held|
      && s.pool.idle == |s.pool.channel| + Failures(cfg, factory)
      && |s.pool.channel| + Failures(cfg, factory) <= cfg.maxIdle
      && (forall c <- s.held :: c < s.next)
  {
    var s := Exec(cfg, Init(cfg, factory, n), es);
    IdleAndSizeBound(cfg, factory, n, es);
    ConservationAndOwnership(cfg, factory, n, es);
    NoneInside(InIdle, s.procs);
    NoneInside(InHands, s.procs);
    InitInvariant(cfg, factory, n);
    RunKeepsOwnership(cfg, Failures(cfg, factory), Init(cfg, factory, n), es);
    forall c | c in s.held ensures c < s.next {
      assert Places(s, c) <= if c < s.next then 1 else 0;
    }
  }

  function ReceiveRun(i: nat): seq<Event> {
    [GetCall(i)] + ([Take(i)] + [Count(i)])
  }

  function CreateRun(i: nat): seq<Event> {
    [GetCall(i)] + ([NoneIdle(i)] + ([Check(i)] + ([Factory(i, true)] + [Count(i)])))
  }

  function WaitRun(i: nat): seq<Event> {
    [GetCall(i)] + ([NoneIdle(i)] + [Check(i)])
  }

  lemma Receives(cfg: Config, s: Sys, i: nat)
    requires i < |s.procs| && s.procs[i].Outside? && s.pool.channel != []
    ensures Legal(cfg, s, ReceiveRun(i))
    ensures var t := Exec(cfg, s, ReceiveRun(i)); t.held == s.held + {s.pool.channel[0]} && t.procs == s.procs
  {
    hide Exec, Legal;
    var t := Apply(cfg, s, GetCall(i));
    var u := Apply(cfg, t, Take(i));
    One(cfg, u, Count(i));
    assert Apply(cfg, u, Count(i)).procs == s.procs;
    More(cfg, t, Take(i), [Count(i)]);
    More(cfg, s, GetCall(i), [Take(i)] + [Count(i)]);
  }

  lemma Creates(cfg: Config, s: Sys, i: nat)
    requires i < |s.procs| && s.procs[i].Outside? && s.pool.channel == [] && s.pool.created < cfg.maxSize
    ensures Legal(cfg, s, CreateRun(i))
    ensures var t := Exec(cfg, s, CreateRun(i)); t.held == s.held + {s.next} && t.procs == s.procs
  {
    hide Exec, Legal;
    var t := Apply(cfg, s, GetCall(i));
    var u := Apply(cfg, t, NoneIdle(i));
    var v := Apply(cfg, u, Check(i));
    var w := Apply(cfg, v, Factory(i, true));
    One(cfg, w, Count(i));
    assert Apply(cfg, w, Count(i)).procs == s.procs;
    More(cfg, v, Factory(i, true), [Count(i)]);
    More(cfg, u, Check(i), [Factory(i, true)] + [Count(i)]);
    More(cfg, t, NoneIdle(i), [Check(i)] + ([Factory(i, true)] + [Count(i)]));
    More(cfg, s, GetCall(i), [NoneIdle(i)] + ([Check(i)] + ([Factory(i, true)] + [Count(i)])));
  }

  lemma Waits(cfg: Config, s: Sys, i: nat)
    requires i < |s.procs| && s.procs[i].Outside? && s.pool.channel == [] && s.pool.created >= cfg.maxSize
    ensures Legal(cfg, s, WaitRun(i)) && Exec(cfg, s, WaitRun(i)).procs == s.procs[i := Waiting]
  {
    hide Exec, Legal;
    var t := Apply(cfg, s, GetCall(i));
    var u := Apply(cfg, t, NoneIdle(i));
    One(cfg, u, Check(i));
    More(cfg, t, NoneIdle(i), [Check(i)]);
    More(cfg, s, GetCall(i), [NoneIdle(i)] + [Check(i)]);
  }

  /** With nobody else inside, after any run of careful clients, Get hands out the connection that came into the channel
      first; with none there it makes a new one, exactly when clients hold fewer than the size limit; else it waits. */
  lemma GetServes(cfg: Config, factory: nat -> bool, n: nat, es: seq<Event>, i: nat)
    requires 1 <= cfg.maxIdle <= cfg.maxSize && n >= 1
    requires Legal(cfg, Init(cfg, factory, n), es) && AllCareful(cfg, Init(cfg, factory, n), es)
    requires var s := Exec(cfg, Init(cfg, factory, n), es); Resting(s) && i < |s.procs| && s.procs[i].Outside?
    ensures var s := Exec(cfg, Init(cfg, factory, n), es);
      if s.pool.channel != [] then
        && Legal(cfg, s, ReceiveRun(i))
        && var t := Exec(cfg, s, ReceiveRun(i));
           t.held == s.held + {s.pool.channel[0]} && t.procs == s.procs
      else if |s.held| < cfg.maxSize then
        && Legal(cfg, s, CreateRun(i))
        && var t := Exec(cfg, s, CreateRun(i));
           t.held == s.held + {s.next} && s.next !in s.held && t.procs == s.procs
      else Legal(cfg, s, WaitRun(i)) && Exec(cfg, s, WaitRun(i)).procs == s.procs[i := Waiting]
  {
    var s := Exec(cfg, Init(cfg, factory, n), es);
    CountersAtRest(cfg, factory, n, es);
    hide Exec, Legal, AllCareful, Init, Failures, Apply, ReceiveRun, CreateRun, WaitRun;
    if s.pool.channel != [] {
      Receives(cfg, s, i);
    } else if |s.held| < cfg.maxSize {
      Creates(cfg, s, i);
    } else {
      Waits(cfg, s, i);
    }
  }

  /** And Put keeps a connection, behind those in the channel, exactly when these and the failures at construction leave
      room below the idle limit; else the connection is gone and no longer counted. */
  lemma PutKeepsExactly(cfg: Config, factory: nat -> bool, n: nat, es: seq<Event>, i: nat, c: Id)
    requires 1 <= cfg.maxIdle <= cfg.maxSize && n >= 1
    requires Legal(cfg, Init(cfg, factory, n), es) && AllCareful(cfg, Init(cfg, factory, n), es)
    requires var s := Exec(cfg, Init(cfg, factory, n), es);
      Resting(s) && i < |s.procs| && s.procs[i].Outside? && c in s.held
    ensures var s := Exec(cfg, Init(cfg, factory, n), es);
      if |s.pool.channel| + Failures(cfg, factory) < cfg.maxIdle then
        && Legal(cfg, s, [PutCall(i, c)] + [Send(i)])
        && var t := Exec(cfg, s, [PutCall(i, c)] + [Send(i)]);
           && t.procs == s.procs && t.pool.channel == s.pool.channel + [c] && t.held == s.held - {c}
           && t.pool.created == s.pool.created
      else
        && Legal(cfg, s, [PutCall(i, c)])
        && var t := Exec(cfg, s, [PutCall(i, c)]);
           && t.procs == s.procs && t.pool.channel == s.pool.channel && t.held == s.held - {c}
           && t.pool.created == s.pool.created - 1
  {
    var s := Exec(cfg, Init(cfg, factory, n), es);
    CountersAtRest(cfg, factory, n, es);
    hide Exec, Legal, AllCareful, Init, Failures;
    var t := Apply(cfg, s, PutCall(i, c));
    if |s.pool.channel| + Failures(cfg, factory) < cfg.maxIdle {
      One(cfg, t, Send(i));
      assert Apply(cfg, t, Send(i)).procs == s.procs;
      More(cfg, s, PutCall(i, c), [Send(i)]);
    } else {
      One(cfg, s, PutCall(i, c));
      assert t.procs == s.procs;
    }
  }

  /** A Get that fails leaves no trace: the context or the timer ended its wait, or the factory failed. */
  lemma FailedGetLeavesNoTrace(cfg: Config, s: Sys, i: nat)
    requires i < |s.procs| && s.procs[i].Outside?
    ensures Legal(cfg, s, [GetCall(i)] + [GiveUp(i)]) && Exec(cfg, s, [GetCall(i)] + [GiveUp(i)]) == s
    ensures s.pool.channel == [] ==>
      if s.pool.created < cfg.maxSize then
        && Legal(cfg, s, [GetCall(i)] + ([NoneIdle(i)] + ([Check(i)] + [Factory(i, false)])))
        && Exec(cfg, s, [GetCall(i)] + ([NoneIdle(i)] + ([Check(i)] + [Factory(i, false)]))) == s
      else
        && Legal(cfg, s, [GetCall(i)] + ([NoneIdle(i)] + ([Check(i)] + [GiveUp(i)])))
        && Exec(cfg, s, [GetCall(i)] + ([NoneIdle(i)] + ([Check(i)] + [GiveUp(i)]))) == s
  {
    hide Exec, Legal;
    assert s.procs[i := Outside] == s.procs;
    var t := Apply(cfg, s, GetCall(i));
    One(cfg, t, GiveUp(i));
    assert Apply(cfg, t, GiveUp(i)).procs == s.procs;
    More(cfg, s, GetCall(i), [GiveUp(i)]);
    if s.pool.channel == [] {
      var u := Apply(cfg, t, NoneIdle(i));
      var v := Apply(cfg, u, Check(i));
      var e := if s.pool.created < cfg.maxSize then Factory(i, false) else GiveUp(i);
      One(cfg, v, e);
      assert Apply(cfg, v, e).procs == s.procs;
      More(cfg, u, Check(i), [e]);
      More(cfg, t, NoneIdle(i), [Check(i)] + [e]);
      More(cfg, s, GetCall(i), [NoneIdle(i)] + ([Check(i)] + [e]));
    }
  }

  /** A goroutine that waits is served by whatever comes into the channel, in any state. */
  lemma WaiterServed(cfg: Config, s: Sys, i: nat)
    requires i < |s.procs| && s.procs[i].Waiting? && s.pool.channel != []
    ensures Legal(cfg, s, [Take(i)] + [Count(i)])
    ensures var t := Exec(cfg, s, [Take(i)] + [Count(i)]);
      && t.held == s.held + {s.pool.channel[0]} && t.procs == s.procs[i := Outside]
      && t.pool.idle == s.pool.idle - 1 && t.pool.active == s.pool.active + 1
  {
    var t := Apply(cfg, s, Take(i));
    One(cfg, t, Count(i));
    More(cfg, s, Take(i), [Count(i)]);
  }

  // ----- the overshoot is real, and exactly when -----

  ghost predicate Reaches(cfg: Config, s: Sys, t: Sys) {
    exists es :: Legal(cfg, s, es) && AllCareful(cfg, s, es) && Exec(cfg, s, es) == t
  }

  lemma {:induction false} Extend(cfg: Config, s: Sys, es: seq<Event>, e: Event)
    requires Legal(cfg, s, es) && AllCareful(cfg, s, es)
    requires Enabled(Exec(cfg, s, es), e) && Careful(Exec(cfg, s, es), e)
    ensures Legal(cfg, s, es + [e]) && AllCareful(cfg, s, es + [e])
    ensures Exec(cfg, s, es + [e]) == Apply(cfg, Exec(cfg, s, es), e)
    decreases |es|
  {
    if es == [] {
      assert es + [e] == [e];
      assert Legal(cfg, Apply(cfg, s, e), []);
    } else {
      assert (es + [e])[1..] == es[1..] + [e];
      Extend(cfg, Apply(cfg, s, es[0]), es[1..], e);
    }
  }

  lemma Next(cfg: Config, s: Sys, t: Sys, e: Event) returns (u: Sys)
    requires Reaches(cfg, s, t) && Enabled(t, e) && Careful(t, e)
    ensures u == Apply(cfg, t, e) && Reaches(cfg, s, u)
  {
    var es :| Legal(cfg, s, es) && AllCareful(cfg, s, es) && Exec(cfg, s, es) == t;
    Extend(cfg, s, es, e);
    u := Apply(cfg, t, e);
  }

  // Goroutine 0 takes everything out of the channel.
  lemma {:induction false} Drain(cfg: Config, s: Sys, t: Sys) returns (u: Sys)
    requires Reaches(cfg, s, t) && t.procs != [] && t.procs[0].Outside?
    ensures Reaches(cfg, s, u) && u.procs == t.procs
    ensures u.pool.channel == [] && u.pool.created == t.pool.created
    decreases |t.pool.channel|
  {
    hide Reaches;
    u := t;
    if t.pool.channel != [] {
      u := Next(cfg, s, u, GetCall(0));
      u := Next(cfg, s, u, Take(0));
      u := Next(cfg, s, u, Count(0));
      u := Drain(cfg, s, u);
    }
  }

  // Goroutine 0 makes connections until `goal` are counted, and keeps them all.
  lemma {:induction false} Fill(cfg: Config, s: Sys, t: Sys, goal: nat) returns (u: Sys)
    requires Reaches(cfg, s, t) && t.procs != [] && t.procs[0].Outside?
    requires t.pool.channel == [] && t.pool.created <= goal <= cfg.maxSize
    ensures Reaches(cfg, s, u) && u.procs == t.procs
    ensures u.pool.channel == [] && u.pool.created == goal && u.pool.idle == t.pool.idle
    decreases goal - t.pool.created
  {
    hide Reaches;
    u := t;
    if t.pool.created < goal {
      u := Next(cfg, s, u, GetCall(0));
      u := Next(cfg, s, u, NoneIdle(0));
      u := Next(cfg, s, u, Check(0));
      u := Next(cfg, s, u, Factory(0, true));
      u := Next(cfg, s, u, Count(0));
      u := Fill(cfg, s, u, goal);
    }
  }

  // Goroutines i, i + 1, ... all pass the size check before any of them creates.
  lemma {:induction false} PassAll(cfg: Config, s: Sys, t: Sys, i: nat) returns (u: Sys)
    requires Reaches(cfg, s, t) && i <= |t.procs|
    requires t.pool.channel == [] && t.pool.created == cfg.maxSize - 1
    requires forall j :: 0 <= j < |t.procs| ==> t.procs[j] == if j < i then Past else Outside
    ensures Reaches(cfg, s, u) && |u.procs| == |t.procs| && u.pool.created == cfg.maxSize - 1
    ensures forall j :: 0 <= j < |u.procs| ==> u.procs[j].Past?
    decreases |t.procs| - i
  {
    hide Reaches;
    u := t;
    if i < |t.procs| {
      u := Next(cfg, s, u, GetCall(i));
      u := Next(cfg, s, u, NoneIdle(i));
      u := Next(cfg, s, u, Check(i));
      u := PassAll(cfg, s, u, i + 1);
    }
  }

  lemma {:induction false} CreateAll(cfg: Config, s: Sys, t: Sys, i: nat) returns (u: Sys)
    requires Reaches(cfg, s, t) && i <= |t.procs|
    requires forall j :: i <= j < |t.procs| ==> t.procs[j].Past?
    ensures Reaches(cfg, s, u) && u.pool.created == t.pool.created + |t.procs| - i
    decreases |t.procs| - i
  {
    hide Reaches;
    u := t;
    if i < |t.procs| {
      u := Next(cfg, s, u, Factory(i, true));
      u := CreateAll(cfg, s, u, i + 1);
    }
  }

  /** The bound is tight: whatever the limits and the number of goroutines, as long as construction left room. */
  lemma OvershootReached(cfg: Config, factory: nat -> bool, n: nat)
    requires 1 <= cfg.maxIdle <= cfg.maxSize && n >= 1
    requires Successes(factory, cfg.maxIdle) < cfg.maxSize
    ensures exists t :: Reaches(cfg, Init(cfg, factory, n), t) && t.pool.created == cfg.maxSize + n - 1
  {
    var s := Init(cfg, factory, n);
    assert Legal(cfg, s, []) && Exec(cfg, s, []) == s;
    var t := Drain(cfg, s, s);
    t := Fill(cfg, s, t, cfg.maxSize - 1);
    t := PassAll(cfg, s, t, 0);
    t := CreateAll(cfg, s, t, 0);
  }

  lemma {:induction false} IdleAreInHands(ps: seq<Phase>)
    ensures Tally(InIdle, ps) <= Tally(InHands, ps)
  {
    if ps != [] {
      IdleAreInHands(ps[1..]);
    }
  }

  // A pool born at its limit never discards, so its size check never passes.
  lemma {:induction false} FullStaysFull(cfg: Config, s: Sys, es: seq<Event>)
    requires cfg.maxIdle == cfg.maxSize && Counters(cfg, 0, s) && Ownership(s)
    requires s.pool.created == cfg.maxSize && Tally(InPast, s.procs) == 0
    requires Legal(cfg, s, es) && AllCareful(cfg, s, es)
    ensures Exec(cfg, s, es).pool.created == cfg.maxSize
    decreases |es|
  {
    hide Tally, Places;
    if es != [] {
      var e := es[0];
      var t := Apply(cfg, s, e);
      CountersStep(cfg, 0, s, e);
      OwnershipStep(cfg, 0, s, e);
      TallyUpdate(InPast, s.procs, e.i, t.procs[e.i]);
      IdleAreInHands(s.procs);
      if e.PutCall? {
        assert s.held == {e.conn} + (s.held - {e.conn});
      }
      FullStaysFull(cfg, t, es[1..]);
    }
  }

  /** Careful clients can push the pool past its limit exactly when there are two goroutines and construction
      left room for one more connection. */
  lemma OvershootExactly(cfg: Config, factory: nat -> bool, n: nat)
    requires 1 <= cfg.maxIdle <= cfg.maxSize && n >= 1
    ensures (exists t :: Reaches(cfg, Init(cfg, factory, n), t) && t.pool.created > cfg.maxSize)
      <==> n >= 2 && Successes(factory, cfg.maxIdle) < cfg.maxSize
  {
    var s := Init(cfg, factory, n);
    if n >= 2 && s.pool.created < cfg.maxSize {
      OvershootReached(cfg, factory, n);
    }
    forall t | Reaches(cfg, s, t) && t.pool.created > cfg.maxSize
      ensures n >= 2 && s.pool.created < cfg.maxSize
    {
      var es :| Legal(cfg, s, es) && AllCareful(cfg, s, es) && Exec(cfg, s, es) == t;
      IdleAndSizeBound(cfg, factory, n, es);
      InitInvariant(cfg, factory, n);
      if s.pool.created == cfg.maxSize {
        AllOutside(InPast, n);
        FullStaysFull(cfg, s, es);
      }
    }
  }

  // ----- a goroutine can be left waiting for a connection that cannot come -----

  /** Some goroutines wait in the second select, nobody else is in the pool, and there is nothing to wait for: no
      connection in the channel and none out with a client. */
  predicate Stranded(s: Sys) {
    && s.pool.channel == [] && s.held == {}
    && (forall p <- s.procs :: p.Outside? || p.Waiting?)
    && exists p <- s.procs :: p.Waiting?
  }

  /** Unless construction failed altogether the pool always has a connection, and a goroutine with nobody beside it
      waits only for a pool at its limit. */
  predicate Supplied(cfg: Config, failures: nat, s: Sys) {
    && (failures < cfg.maxIdle ==> s.pool.created >= 1)
    && (|s.procs| == 1 && s.procs[0].Waiting? ==> s.pool.created >= cfg.maxSize)
  }

  // Put discards only when there is an idle connection besides the one given back.
  lemma DiscardLeavesOne(cfg: Config, failures: nat, s: Sys, c: Id)
    requires Counters(cfg, failures, s) && Ownership(s) && c in s.held
    requires !Keeps(cfg, s.pool) && failures < cfg.maxIdle
    ensures s.pool.created >= 2
  {
    hide Tally, Places;
    IdleAreInHands(s.procs);
    assert |s.held| == 1 + |s.held - {c}|;
  }

  lemma SuppliedStep(cfg: Config, failures: nat, s: Sys, e: Event)
    requires Counters(cfg, failures, s) && Ownership(s) && Enabled(s, e) && Careful(s, e)
    requires Supplied(cfg, failures, s)
    ensures Supplied(cfg, failures, Apply(cfg, s, e))
  {
    assert !e.Drop?;
    hide Counters, Ownership;
    if e.PutCall? && !Keeps(cfg, s.pool) && failures < cfg.maxIdle {
      DiscardLeavesOne(cfg, failures, s, e.conn);
    }
  }

  lemma {:induction false} RunKeepsSupplied(cfg: Config, failures: nat, s: Sys, es: seq<Event>)
    requires Counters(cfg, failures, s) && Ownership(s) && Supplied(cfg, failures, s)
    requires Legal(cfg, s, es) && AllCareful(cfg, s, es)
    ensures Supplied(cfg, failures, Exec(cfg, s, es))
    decreases |es|
  {
    hide Counters, Ownership, Supplied;
    if es != [] {
      CountersStep(cfg, failures, s, es[0]);
      OwnershipStep(cfg, failures, s, es[0]);
      SuppliedStep(cfg, failures, s, es[0]);
      RunKeepsSupplied(cfg, failures, Apply(cfg, s, es[0]), es[1..]);
    }
  }

  lemma HeldAreNumbered(cfg: Config, factory: nat -> bool, n: nat, t: Sys, c: Id)
    requires 1 <= cfg.maxIdle <= cfg.maxSize && n >= 1
    requires Reaches(cfg, Init(cfg, factory, n), t) && c in t.held
    ensures c < t.next
  {
    var s := Init(cfg, factory, n);
    var es :| Legal(cfg, s, es) && AllCareful(cfg, s, es) && Exec(cfg, s, es) == t;
    InitInvariant(cfg, factory, n);
    RunKeepsOwnership(cfg, Failures(cfg, factory), s, es);
    assert Places(t, c) <= if c < t.next then 1 else 0;
  }

  // Goroutine 0 puts everything back while the idle counter says there is enough: every Put discards.
  lemma {:induction false} ReturnAll(cfg: Config, factory: nat -> bool, n: nat, t: Sys) returns (u: Sys)
    requires 1 <= cfg.maxIdle <= cfg.maxSize && n >= 1
    requires Reaches(cfg, Init(cfg, factory, n), t) && t.procs != [] && t.procs[0].Outside?
    requires t.pool.channel == [] && t.pool.idle == cfg.maxIdle
    ensures Reaches(cfg, Init(cfg, factory, n), u) && u.procs == t.procs
    ensures u.pool.channel == [] && u.held == {}
    decreases |t.held|
  {
    hide Reaches, Init;
    u := t;
    if t.held != {} {
      var c :| c in t.held;
      HeldAreNumbered(cfg, factory, n, t, c);
      u := Next(cfg, Init(cfg, factory, n), u, PutCall(0, c));
      assert u.procs == t.procs;
      u := ReturnAll(cfg, factory, n, u);
    }
  }

  lemma StrandedReached(cfg: Config, factory: nat -> bool, n: nat)
    requires 1 <= cfg.maxIdle <= cfg.maxSize && n >= 2
    requires Successes(factory, cfg.maxIdle) == 0
    ensures exists t :: Reaches(cfg, Init(cfg, factory, n), t) && Stranded(t)
  {
    var s := Init(cfg, factory, n);
    assert Legal(cfg, s, []) && Exec(cfg, s, []) == s;
    hide Reaches;
    var t := Fill(cfg, s, s, cfg.maxSize);
    t := Next(cfg, s, t, GetCall(1));
    t := Next(cfg, s, t, NoneIdle(1));
    t := Next(cfg, s, t, Check(1));
    t := ReturnAll(cfg, factory, n, t);
    assert t.procs[1].Waiting?;
  }

  /** Careful clients can strand a goroutine exactly when there are two of them and every factory call at construction
      failed: the idle counter then starts, and stays, at its limit, and every Put discards its connection. */
  lemma StrandedExactly(cfg: Config, factory: nat -> bool, n: nat)
    requires 1 <= cfg.maxIdle <= cfg.maxSize && n >= 1
    ensures (exists t :: Reaches(cfg, Init(cfg, factory, n), t) && Stranded(t))
      <==> n >= 2 && Successes(factory, cfg.maxIdle) == 0
  {
    var s := Init(cfg, factory, n);
    if n >= 2 && Successes(factory, cfg.maxIdle) == 0 {
      StrandedReached(cfg, factory, n);
    }
    forall t | Reaches(cfg, s, t) && Stranded(t)
      ensures n >= 2 && Successes(factory, cfg.maxIdle) == 0
    {
      var es :| Legal(cfg, s, es) && AllCareful(cfg, s, es) && Exec(cfg, s, es) == t;
      InitInvariant(cfg, factory, n);
      RunKeepsCounters(cfg, Failures(cfg, factory), s, es);
      RunKeepsSupplied(cfg, Failures(cfg, factory), s, es);
      ConservationAndOwnership(cfg, factory, n, es);
      NoneInside(InHands, t.procs);
      assert t.pool.created == 0;
    }
  }
}

/** The limiter under its real client, the connection middleware: every interleaving of its lock sections.

    `IsBanned` is a section of its own that changes nothing: a caller it turns away leaves no event, and one that
    passes calls Accept at any later moment, whatever was banned in between. Close tests a flag that no lock guards, so
    the test and what follows it are two events; a closer that finds the flag set leaves none. */
module MiddlewareRuns {
  import opened Limiter
  import LimiterRuns

  /** Where a caller stands that Accept let in. */
  datatype Stage =
    | Admitted           // nothing done since
    | Serving(due: nat)  // HTTP: the deferred Release names limiter number `due`
    | Wrapped            // TCP: passed the throttle, handed out, not closed
    | Closed             // TCP: some closer has set the flag and released
    | Gone               // HTTP: returned; TCP: throttled

  /** `era` is the number of the limiter that let the caller in; `closers` have found the connection not closed and
      have yet to close it. */
  datatype Session = Session(ip: string, http: bool, era: nat, stage: Stage, closers: nat)

  /** `lim` is limiter number `era`, the one the middleware has now. */
  datatype Sys = Sys(limits: Limits, lim: State, era: nat, sessions: seq<Session>)

  datatype Event =
    | Enter(ip: string, http: bool, now: int)  // Accept
    | Defer(i: nat)                            // the defer statement of a request names the limiter of this moment
    | EndRequest(i: nat)
    | Throttle(i: nat, throttled: bool)
    | Test(i: nat)                             // a closer finds the connection not closed
    | Close(i: nat)                            // and closes it
    | Ban(ip: string, duration: int, now: int)
    | Unban(ip: string)
    | Sweep(now: int)
    | Replace(limits: Limits)                  // UpdateLimits

  predicate OfSession(e: Event) {
    e.Defer? || e.EndRequest? || e.Throttle? || e.Test? || e.Close?
  }

  /** A request ends once; a connection may be closed any number of times. */
  predicate Enabled(s: Sys, e: Event) {
    OfSession(e) ==>
      e.i < |s.sessions| &&
      var x := s.sessions[e.i];
      match e
      case Defer(_) => x.http && x.stage.Admitted?
      case EndRequest(_) => x.stage.Serving?
      case Throttle(_, _) => !x.http && x.stage.Admitted?
      case Test(_) => x.stage.Wrapped?
      case _ => x.closers > 0
  }

  /** The events in which a session gives a slot back to the limiter the middleware has now. */
  predicate Releases(s: Sys, e: Event)
    requires Enabled(s, e)
  {
    match e
    case EndRequest(i) => s.sessions[i].stage.due == s.era
    case Throttle(_, throttled) => throttled
    case Close(_) => true
    case _ => false
  }

  // The session moves on, giving its slot back where the event does that.
  function Moved(hostOf: string -> string, s: Sys, e: Event, next: Session): Sys
    requires Enabled(s, e) && OfSession(e)
  {
    s.(lim := if Releases(s, e) then Released(s.lim, hostOf(s.sessions[e.i].ip)) else s.lim,
       sessions := s.sessions[e.i := next])
  }

  function Apply(hostOf: string -> string, s: Sys, e: Event): Sys
    requires Enabled(s, e)
  {
    match e
    case Enter(ip, http, now) =>
      var ok := Judged(s.limits, s.lim, hostOf(ip), now).Ok?;
      s.(lim := Accepted(s.limits, s.lim, hostOf(ip), now),
         sessions := if ok then s.sessions + [Session(ip, http, s.era, Admitted, 0)] else s.sessions)
    case Defer(i) => Moved(hostOf, s, e, s.sessions[i].(stage := Serving(s.era)))
    case EndRequest(i) => Moved(hostOf, s, e, s.sessions[i].(stage := Gone))
    case Throttle(i, throttled) => Moved(hostOf, s, e, s.sessions[i].(stage := if throttled then Gone else Wrapped))
    case Test(i) => Moved(hostOf, s, e, s.sessions[i].(closers := s.sessions[i].closers + 1))
    case Close(i) => Moved(hostOf, s, e, s.sessions[i].(stage := Closed, closers := s.sessions[i].closers - 1))
    case Ban(ip, duration, now) => s.(lim := Bans(s.limits, s.lim, ip, duration, now))
    case Unban(ip) => s.(lim := Unbans(s.lim, ip))
    case Sweep(now) => s.(lim := Swept(s.lim, now))
    case Replace(limits) => Sys(limits, EMPTY, s.era + 1, s.sessions)
  }

  predicate Legal(hostOf: string -> string, s: Sys, es: seq<Event>)
    decreases |es|
  {
    es == [] || (Enabled(s, es[0]) && Legal(hostOf, Apply(hostOf, s, es[0]), es[1..]))
  }

  function Exec(hostOf: string -> string, s: Sys, es: seq<Event>): Sys
    requires Legal(hostOf, s, es)
    decreases |es|
  {
    if es == [] then s else Exec(hostOf, Apply(hostOf, s, es[0]), es[1..])
  }

  function Start(l: Limits): Sys {
    Sys(l, EMPTY, 0, [])
  }

  /** Who is let through: a caller whose address, as it came, and whose host are not banned, below both limits. Anyone
      banned by either changes nothing. */
  lemma AdmitsExactly(l: Limits, hostOf: string -> string, s: State, ip: string, now: int)
    ensures var host := hostOf(ip);
      var banned := (ip in s.banned && now < s.banned[ip]) || (host in s.banned && now < s.banned[host]);
      && (Admits(l, hostOf, s, ip, now) <==>
            !banned && s.total < l.maxTotal && Count(s.connections, host) < l.maxPerIP)
      && (banned ==> Entered(l, hostOf, s, ip, now) == s)
      && Entered(l, hostOf, s, ip, now).total == s.total + if Admits(l, hostOf, s, ip, now) then 1 else 0
  {
  }

  // ----- live sessions -----

  datatype Who = Everyone | Host(host: string)

  function Weight(hostOf: string -> string, era: nat, x: Session, who: Who): nat {
    var open := x.stage.Admitted? || x.stage.Serving? || x.stage.Wrapped?;
    if open && x.era == era && (who.Host? ==> hostOf(x.ip) == who.host) then 1 else 0
  }

  /** The sessions limiter number `era` let in that have not given their slot back. */
  function Live(hostOf: string -> string, era: nat, ss: seq<Session>, who: Who): nat {
    if ss == [] then 0 else
    Live(hostOf, era, ss[..|ss| - 1], who) + Weight(hostOf, era, ss[|ss| - 1], who)
  }

  lemma LiveAppend(hostOf: string -> string, era: nat, ss: seq<Session>, x: Session, who: Who)
    ensures Live(hostOf, era, ss + [x], who) == Live(hostOf, era, ss, who) + Weight(hostOf, era, x, who)
  {
    assert (ss + [x])[..|ss|] == ss;
  }

  lemma {:induction false} LiveUpdate(hostOf: string -> string, era: nat, ss: seq<Session>, i: nat, x: Session,
      who: Who)
    requires i < |ss|
    ensures Live(hostOf, era, ss[i := x], who)
      == Live(hostOf, era, ss, who) - Weight(hostOf, era, ss[i], who) + Weight(hostOf, era, x, who)
    ensures Weight(hostOf, era, ss[i], who) <= Live(hostOf, era, ss, who)
  {
    var n := |ss| - 1;
    if i == n {
      assert ss[i := x][..n] == ss[..n];
    } else {
      assert ss[i := x][..n] == ss[..n][i := x];
      LiveUpdate(hostOf, era, ss[..n], i, x, who);
    }
  }

  lemma {:induction false} NoneOfEra(hostOf: string -> string, era: nat, ss: seq<Session>, who: Who)
    requires forall x <- ss :: x.era < era
    ensures Live(hostOf, era, ss, who) == 0
  {
    if ss != [] {
      NoneOfEra(hostOf, era, ss[..|ss| - 1], who);
    }
  }

  // ----- exact accounting -----

  /** The limiter counts what it let in and has not got back, in all and for every host. */
  ghost predicate Exact(hostOf: string -> string, s: Sys) {
    && LimiterRuns.Bounded(s.limits, s.lim)
    && s.lim.total == Live(hostOf, s.era, s.sessions, Everyone) == LimiterRuns.Sum(s.lim.connections)
    && forall h :: Count(s.lim.connections, h) == Live(hostOf, s.era, s.sessions, Host(h))
  }

  /** Limiters are numbered as they come, and only connections are closed. */
  predicate Dated(s: Sys) {
    forall x <- s.sessions ::
      && x.era <= s.era && (x.stage.Serving? ==> x.era <= x.stage.due <= s.era)
      && (x.closers > 0 ==> x.stage.Wrapped? || x.stage.Closed?)
  }

  /** The limiter of now let the session in and has not had its slot back. */
  predicate Owes(s: Sys, x: Session) {
    x.era == s.era && !x.stage.Closed?
  }

  /** A session gives back a slot it does not owe, at the expense of one that does. */
  predicate Steals(s: Sys, e: Event)
    requires Enabled(s, e)
  {
    Releases(s, e) && !Owes(s, s.sessions[e.i]) && s.lim.total > 0
  }

  lemma EnterKeepsExact(hostOf: string -> string, s: Sys, e: Event)
    requires Exact(hostOf, s) && e.Enter?
    ensures Exact(hostOf, Apply(hostOf, s, e))
  {
    hide LimiterRuns.Sum, Live;
    var host := hostOf(e.ip);
    var t := Apply(hostOf, s, e);
    LimiterRuns.AcceptKeepsBounded(s.limits, s.lim, host, e.now);
    if Judged(s.limits, s.lim, host, e.now).Ok? {
      LimiterRuns.SumChange(s.lim.connections, host, Count(s.lim.connections, host) + 1);
      var x := Session(e.ip, e.http, s.era, Admitted, 0);
      LiveAppend(hostOf, s.era, s.sessions, x, Everyone);
      forall h ensures Count(t.lim.connections, h) == Live(hostOf, s.era, t.sessions, Host(h)) {
        LiveAppend(hostOf, s.era, s.sessions, x, Host(h));
      }
    } else {
      assert t.lim.connections == s.lim.connections;
    }
  }

  // The limiter gets back a slot it gave.
  lemma ReturnKeepsExact(hostOf: string -> string, s: Sys, e: Event)
    requires Exact(hostOf, s) && Dated(s) && Enabled(s, e) && Releases(s, e) && Owes(s, s.sessions[e.i])
    ensures Exact(hostOf, Apply(hostOf, s, e))
  {
    hide LimiterRuns.Sum, Live;
    var t := Apply(hostOf, s, e);
    var x := s.sessions[e.i];
    assert x in s.sessions;
    var host := hostOf(x.ip);
    LimiterRuns.ReleaseKeepsBounded(s.limits, s.lim, host);
    LimiterRuns.SumChange(s.lim.connections, host, Count(s.lim.connections, host) - 1);
    LiveUpdate(hostOf, s.era, s.sessions, e.i, t.sessions[e.i], Everyone);
    LiveUpdate(hostOf, s.era, s.sessions, e.i, t.sessions[e.i], Host(host));
    forall h ensures Count(t.lim.connections, h) == Live(hostOf, s.era, t.sessions, Host(h)) {
      LiveUpdate(hostOf, s.era, s.sessions, e.i, t.sessions[e.i], Host(h));
    }
  }

  // A session changes its stage and the limiter's books do not show it.
  lemma StageKeepsLive(hostOf: string -> string, s: Sys, i: nat, x: Session)
    requires i < |s.sessions|
    requires forall who :: Weight(hostOf, s.era, x, who) == Weight(hostOf, s.era, s.sessions[i], who)
    ensures forall who :: Live(hostOf, s.era, s.sessions[i := x], who) == Live(hostOf, s.era, s.sessions, who)
  {
    forall who ensures Live(hostOf, s.era, s.sessions[i := x], who) == Live(hostOf, s.era, s.sessions, who) {
      LiveUpdate(hostOf, s.era, s.sessions, i, x, who);
    }
  }

  // A slot comes back that is not owed: harmless only while nothing is counted.
  lemma StrayReturn(hostOf: string -> string, s: Sys, e: Event)
    requires Exact(hostOf, s) && Enabled(s, e) && Releases(s, e) && !Owes(s, s.sessions[e.i])
    ensures Exact(hostOf, Apply(hostOf, s, e)) <==> s.lim.total == 0
  {
    hide Live;
    StageKeepsLive(hostOf, s, e.i, Apply(hostOf, s, e).sessions[e.i]);
    if s.lim.total == 0 {
      var host := hostOf(s.sessions[e.i].ip);
      if host in s.lim.connections {
        LimiterRuns.SumRemove(s.lim.connections, host);
        LimiterRuns.SumNonNegative(s.lim.connections - {host}, s.limits.maxPerIP);
      }
      assert Apply(hostOf, s, e).lim == s.lim;
    }
  }

  lemma ReplaceIsExact(hostOf: string -> string, s: Sys, l: Limits)
    requires Dated(s)
    ensures Exact(hostOf, Apply(hostOf, s, Replace(l)))
  {
    var era := s.era + 1;
    forall who ensures Live(hostOf, era, s.sessions, who) == 0 {
      NoneOfEra(hostOf, era, s.sessions, who);
    }
  }

  lemma StepKeepsDated(hostOf: string -> string, s: Sys, e: Event)
    requires Dated(s) && Enabled(s, e)
    ensures Dated(Apply(hostOf, s, e))
  {
  }

  /** One section of any caller, and any change of the limits: the books stay exact under everything but a stolen
      slot, and under that they do not. */
  lemma StepKeepsExact(hostOf: string -> string, s: Sys, e: Event)
    requires Exact(hostOf, s) && Dated(s) && Enabled(s, e)
    ensures Exact(hostOf, Apply(hostOf, s, e)) <==> !Steals(s, e)
  {
    hide LimiterRuns.Sum, Live;
    if e.Enter? {
      EnterKeepsExact(hostOf, s, e);
    } else if e.Replace? {
      ReplaceIsExact(hostOf, s, e.limits);
    } else if OfSession(e) {
      assert s.sessions[e.i] in s.sessions;
      if !Releases(s, e) {
        StageKeepsLive(hostOf, s, e.i, Apply(hostOf, s, e).sessions[e.i]);
      } else if Owes(s, s.sessions[e.i]) {
        ReturnKeepsExact(hostOf, s, e);
      } else {
        StrayReturn(hostOf, s, e);
      }
    }
  }

  // ----- over runs -----

  ghost predicate ExactThroughout(hostOf: string -> string, s: Sys, es: seq<Event>)
    requires Legal(hostOf, s, es)
    decreases |es|
  {
    Exact(hostOf, s) && (es == [] || ExactThroughout(hostOf, Apply(hostOf, s, es[0]), es[1..]))
  }

  predicate NoneSteals(hostOf: string -> string, s: Sys, es: seq<Event>)
    requires Legal(hostOf, s, es)
    decreases |es|
  {
    es == [] || (!Steals(s, es[0]) && NoneSteals(hostOf, Apply(hostOf, s, es[0]), es[1..]))
  }

  lemma {:induction false} ExactUntilStolen(hostOf: string -> string, s: Sys, es: seq<Event>)
    requires Exact(hostOf, s) && Dated(s) && Legal(hostOf, s, es)
    ensures ExactThroughout(hostOf, s, es) <==> NoneSteals(hostOf, s, es)
    decreases |es|
  {
    hide Exact, Steals, Dated;
    if es != [] {
      StepKeepsExact(hostOf, s, es[0]);
      StepKeepsDated(hostOf, s, es[0]);
      var t := Apply(hostOf, s, es[0]);
      if Exact(hostOf, t) {
        ExactUntilStolen(hostOf, t, es[1..]);
      }
    }
  }

  /** Over every run, with any number of limit changes and of closers: the books are exact at every point exactly when
      no slot is ever given back that is not owed while another one is. */
  lemma ExactThroughoutExactly(l: Limits, hostOf: string -> string, es: seq<Event>)
    requires Legal(hostOf, Start(l), es)
    ensures ExactThroughout(hostOf, Start(l), es) <==> NoneSteals(hostOf, Start(l), es)
  {
    ExactUntilStolen(hostOf, Start(l), es);
  }

  /** A session that will give a slot to whatever limiter the middleware has by then. */
  predicate Loose(x: Session) {
    x.stage.Admitted? || x.stage.Wrapped? || x.closers > 0
  }

  predicate Roomy(l: Limits) {
    l.maxTotal >= 1 && l.maxPerIP >= 1
  }

  /** A session is going to give this limiter a slot it does not owe: it has more closers than one, or one after it was
      closed, or it was let in by an earlier limiter. */
  predicate Harms(s: Sys, x: Session) {
    || x.closers > (if x.stage.Wrapped? then 1 else 0)
    || (x.era < s.era && (Loose(x) || x.stage == Serving(s.era)))
  }

  /** No session is, or the limits let nobody in. */
  predicate Harmless(s: Sys) {
    !Roomy(s.limits) || forall x <- s.sessions :: !Harms(s, x)
  }

  /** The limits are changed while no session is loose, or to limits that let nobody in. */
  predicate CalmChange(s: Sys, l: Limits) {
    !Roomy(l) || forall x <- s.sessions :: !Loose(x)
  }

  /** Limits are changed at calm moments only, and a connection has one closer at a time. */
  predicate Calm(s: Sys, e: Event)
    requires Enabled(s, e)
  {
    && (e.Replace? ==> CalmChange(s, e.limits))
    && (e.Test? ==> s.sessions[e.i].closers == 0)
  }

  lemma ShutIsEmpty(hostOf: string -> string, s: Sys)
    requires Exact(hostOf, s) && !Roomy(s.limits)
    ensures s.lim.total == 0
  {
    if s.lim.connections != map[] {
      var host :| host in s.lim.connections;
      assert 1 <= s.lim.connections[host] <= s.limits.maxPerIP;
    }
  }

  lemma CalmStep(hostOf: string -> string, s: Sys, e: Event)
    requires Exact(hostOf, s) && Dated(s) && Harmless(s) && Enabled(s, e) && Calm(s, e)
    ensures Harmless(Apply(hostOf, s, e)) && !Steals(s, e)
  {
    if !Roomy(s.limits) {
      ShutIsEmpty(hostOf, s);
    }
    hide Exact, Accepted, Released, Roomy;
    if OfSession(e) {
      assert s.sessions[e.i] in s.sessions;
    }
    var t := Apply(hostOf, s, e);
    if Roomy(t.limits) {
      forall j | 0 <= j < |t.sessions| ensures !Harms(t, t.sessions[j]) {
        assert j < |s.sessions| ==> s.sessions[j] in s.sessions;
      }
    }
  }

  predicate AllCalm(hostOf: string -> string, s: Sys, es: seq<Event>)
    requires Legal(hostOf, s, es)
    decreases |es|
  {
    es == [] || (Calm(s, es[0]) && AllCalm(hostOf, Apply(hostOf, s, es[0]), es[1..]))
  }

  lemma {:induction false} CalmRunIsExact(hostOf: string -> string, s: Sys, es: seq<Event>)
    requires Exact(hostOf, s) && Dated(s) && Harmless(s)
    requires Legal(hostOf, s, es) && AllCalm(hostOf, s, es)
    ensures Exact(hostOf, Exec(hostOf, s, es))
    decreases |es|
  {
    hide Exact, Steals, Dated, Harmless, Calm;
    if es != [] {
      CalmStep(hostOf, s, es[0]);
      StepKeepsExact(hostOf, s, es[0]);
      StepKeepsDated(hostOf, s, es[0]);
      CalmRunIsExact(hostOf, Apply(hostOf, s, es[0]), es[1..]);
    }
  }

  /** Over every interleaving of requests and connections, whatever the throttle decides and however often connections
      are closed, one closer at a time, with the limits changed at calm moments only: the limiter's total is the number
      of sessions it let in that still hold a slot, the same per host, no host is kept with a zero count, and no limit
      is passed. */
  lemma AccountingIsExact(l: Limits, hostOf: string -> string, es: seq<Event>)
    requires Legal(hostOf, Start(l), es) && AllCalm(hostOf, Start(l), es)
    ensures var s := Exec(hostOf, Start(l), es);
      && s.lim.total == Live(hostOf, s.era, s.sessions, Everyone) == LimiterRuns.Sum(s.lim.connections)
      && (forall h :: Count(s.lim.connections, h) == Live(hostOf, s.era, s.sessions, Host(h)))
      && (forall h <- s.lim.connections :: 1 <= s.lim.connections[h] <= s.limits.maxPerIP)
      && (s.lim.total == 0 || s.lim.total <= s.limits.maxTotal)
  {
    CalmRunIsExact(hostOf, Start(l), es);
  }

  predicate LimitsKept(es: seq<Event>) {
    forall e <- es :: !e.Replace?
  }

  // How session i gives its slot back
  function GiveBack(x: Session, i: nat): seq<Event> {
    if x.stage.Serving? then [EndRequest(i)]
    else if x.stage.Admitted? then (if x.http then [Defer(i)] + [EndRequest(i)] else [Throttle(i, true)])
    else if x.closers == 0 then [Test(i)] + [Close(i)] else [Close(i)]
  }

  lemma OneEvent(hostOf: string -> string, s: Sys, e: Event)
    requires Enabled(s, e)
    ensures Legal(hostOf, s, [e]) && Exec(hostOf, s, [e]) == Apply(hostOf, s, e)
    ensures Calm(s, e) ==> AllCalm(hostOf, s, [e])
  {
    var t := Apply(hostOf, s, e);
    assert [e][1..] == [];
    assert Legal(hostOf, t, []) && AllCalm(hostOf, t, []) && Exec(hostOf, t, []) == t;
  }

  lemma OneMore(hostOf: string -> string, s: Sys, e: Event, es: seq<Event>)
    requires Enabled(s, e) && Legal(hostOf, Apply(hostOf, s, e), es)
    ensures Legal(hostOf, s, [e] + es) && Exec(hostOf, s, [e] + es) == Exec(hostOf, Apply(hostOf, s, e), es)
    ensures Calm(s, e) && AllCalm(hostOf, Apply(hostOf, s, e), es) ==> AllCalm(hostOf, s, [e] + es)
  {
    assert ([e] + es)[1..] == es;
  }

  /** A calm run that keeps the limits and loses exactness. */
  ghost predicate Spoils(hostOf: string -> string, s: Sys, es: seq<Event>) {
    && Legal(hostOf, s, es) && AllCalm(hostOf, s, es) && LimitsKept(es)
    && !Exact(hostOf, Exec(hostOf, s, es))
  }

  lemma SpoilsLater(hostOf: string -> string, s: Sys, e: Event, es: seq<Event>)
    requires Enabled(s, e) && Calm(s, e) && !e.Replace? && Spoils(hostOf, Apply(hostOf, s, e), es)
    ensures Spoils(hostOf, s, [e] + es)
  {
    hide Exact;
    OneMore(hostOf, s, e, es);
  }

  lemma StealSpoils(hostOf: string -> string, s: Sys, e: Event)
    requires Exact(hostOf, s) && Dated(s) && Enabled(s, e) && Calm(s, e) && !e.Replace? && Steals(s, e)
    ensures Spoils(hostOf, s, [e])
  {
    StepKeepsExact(hostOf, s, e);
    hide Exact;
    OneEvent(hostOf, s, e);
  }

  // A session that owes nothing gives a slot back while another one is out.
  lemma GivenBackIsStolen(hostOf: string -> string, s: Sys, i: nat)
    requires Exact(hostOf, s) && Dated(s) && s.lim.total > 0 && i < |s.sessions|
    requires var x := s.sessions[i]; !Owes(s, x) && (Loose(x) || x.stage == Serving(s.era))
    ensures Spoils(hostOf, s, GiveBack(s.sessions[i], i))
  {
    var x := s.sessions[i];
    assert x in s.sessions;
    var es := GiveBack(x, i);
    hide Exact, Spoils;
    if |es| == 1 {
      StealSpoils(hostOf, s, es[0]);
    } else {
      var (e, f) := if x.stage.Admitted? then (Defer(i), EndRequest(i)) else (Test(i), Close(i));
      StepKeepsExact(hostOf, s, e);
      StepKeepsDated(hostOf, s, e);
      StealSpoils(hostOf, Apply(hostOf, s, e), f);
      SpoilsLater(hostOf, s, e, [f]);
    }
  }

  lemma NothingOut(hostOf: string -> string, s: Sys, host: string)
    requires Exact(hostOf, s) && s.lim.total == 0
    ensures Count(s.lim.connections, host) == 0
  {
    if host in s.lim.connections {
      LimiterRuns.SumRemove(s.lim.connections, host);
      LimiterRuns.SumNonNegative(s.lim.connections - {host}, s.limits.maxPerIP);
    }
  }

  // If nothing is out, something is let in first.
  lemma UnowedSpoils(hostOf: string -> string, s: Sys, i: nat) returns (es: seq<Event>)
    requires Exact(hostOf, s) && Dated(s) && Roomy(s.limits) && i < |s.sessions|
    requires var x := s.sessions[i]; !Owes(s, x) && (Loose(x) || x.stage == Serving(s.era))
    ensures Spoils(hostOf, s, es)
  {
    es := GiveBack(s.sessions[i], i);
    hide Spoils;
    if s.lim.total > 0 {
      GivenBackIsStolen(hostOf, s, i);
    } else {
      var (e, f) := (Unban(hostOf("")), Enter("", true, 0));
      var t := Apply(hostOf, s, e);
      assert Count(s.lim.connections, hostOf("")) == 0 by {
        NothingOut(hostOf, s, hostOf(""));
      }
      StepKeepsExact(hostOf, s, e);
      StepKeepsDated(hostOf, s, e);
      StepKeepsExact(hostOf, t, f);
      StepKeepsDated(hostOf, t, f);
      hide Exact;
      GivenBackIsStolen(hostOf, Apply(hostOf, t, f), i);
      SpoilsLater(hostOf, t, f, es);
      es := [f] + es;
      SpoilsLater(hostOf, s, e, es);
      es := [e] + es;
    }
  }

  lemma HarmSpoils(hostOf: string -> string, s: Sys, i: nat) returns (es: seq<Event>)
    requires Exact(hostOf, s) && Dated(s) && Roomy(s.limits) && i < |s.sessions| && Harms(s, s.sessions[i])
    ensures Spoils(hostOf, s, es)
  {
    hide Exact, Spoils;
    assert s.sessions[i] in s.sessions;
    if Owes(s, s.sessions[i]) {
      StepKeepsExact(hostOf, s, Close(i));
      StepKeepsDated(hostOf, s, Close(i));
      es := UnowedSpoils(hostOf, Apply(hostOf, s, Close(i)), i);
      SpoilsLater(hostOf, s, Close(i), es);
      es := [Close(i)] + es;
    } else {
      es := UnowedSpoils(hostOf, s, i);
    }
  }

  /** From any state with exact books: they are exact after every later run with one closer at a time, under the same
      limits, exactly when no connection has a second or a late closer already, and no session of an earlier limiter is
      left to give its slot to this one; or the limits let nobody in. */
  lemma StaysExactExactly(hostOf: string -> string, s: Sys)
    requires Exact(hostOf, s) && Dated(s)
    ensures (forall es :: !Spoils(hostOf, s, es)) <==> Harmless(s)
  {
    if Harmless(s) {
      forall es ensures !Spoils(hostOf, s, es) {
        if Legal(hostOf, s, es) && AllCalm(hostOf, s, es) {
          CalmRunIsExact(hostOf, s, es);
        }
      }
    } else {
      var x :| x in s.sessions && Harms(s, x);
      var i :| 0 <= i < |s.sessions| && s.sessions[i] == x;
      var es := HarmSpoils(hostOf, s, i);
    }
  }

  /** Changing the limits is safe, in that the books are exact after every later calm run under the new ones, exactly
      when no TCP connection is held or being closed and no request stands between Accept and its defer statement, or
      the new limits let nobody in. */
  lemma ReplaceIsSafeExactly(hostOf: string -> string, s: Sys, l: Limits)
    requires Dated(s)
    ensures (forall es :: !Spoils(hostOf, Apply(hostOf, s, Replace(l)), es)) <==> CalmChange(s, l)
  {
    ReplaceIsExact(hostOf, s, l);
    StepKeepsDated(hostOf, s, Replace(l));
    hide Exact;
    StaysExactExactly(hostOf, Apply(hostOf, s, Replace(l)));
  }

  // Both closers close, and between them a request comes in.
  function BothClose(): seq<Event> {
    [Close(0)] + ([Enter("", true, 0)] + [Close(0)])
  }

  /** A connection is let in and wrapped, and two closers find it not closed. */
  function TwoClosers(): seq<Event> {
    [Enter("", false, 0)] + ([Throttle(0, false)] + ([Test(0)] + ([Test(0)] + BothClose())))
  }

  // The books of a limiter that has one slot out
  function One(host: string): State {
    State(map[host := 1], map[], map[], 1)
  }

  lemma EntersAlone(l: Limits, hostOf: string -> string, ss: seq<Session>, http: bool)
    requires Roomy(l)
    ensures Apply(hostOf, Sys(l, EMPTY, 0, ss), Enter("", http, 0))
      == Sys(l, One(hostOf("")), 0, ss + [Session("", http, 0, Admitted, 0)])
  {
  }

  lemma ClosesAlone(l: Limits, hostOf: string -> string, ss: seq<Session>)
    requires ss != [] && ss[0].closers > 0 && ss[0].ip == ""
    ensures Apply(hostOf, Sys(l, One(hostOf("")), 0, ss), Close(0))
      == Sys(l, EMPTY, 0, ss[0 := ss[0].(stage := Closed, closers := ss[0].closers - 1)])
  {
    assert map[hostOf("") := 1] - {hostOf("")} == map[];
  }

  // The connection of that run, as it stands
  function Connection(stage: Stage, closers: nat): Session {
    Session("", false, 0, stage, closers)
  }

  lemma BothCloseSteals(l: Limits, hostOf: string -> string)
    requires Roomy(l)
    ensures var s := Sys(l, One(hostOf("")), 0, [Connection(Wrapped, 2)]);
      && Legal(hostOf, s, BothClose())
      && Exec(hostOf, s, BothClose())
        == Sys(l, EMPTY, 0, [Connection(Closed, 0), Session("", true, 0, Admitted, 0)])
  {
    var one, y := One(hostOf("")), Session("", true, 0, Admitted, 0);
    var s := Sys(l, one, 0, [Connection(Wrapped, 2)]);
    var t, u := Sys(l, EMPTY, 0, [Connection(Closed, 1)]), Sys(l, one, 0, [Connection(Closed, 1), y]);
    ClosesAlone(l, hostOf, s.sessions);
    EntersAlone(l, hostOf, t.sessions, true);
    ClosesAlone(l, hostOf, u.sessions);
    assert [Connection(Closed, 1), y][0 := Connection(Closed, 0)] == [Connection(Closed, 0), y];
    assert Enabled(s, Close(0)) && Enabled(u, Close(0));
    hide Apply, Legal, Exec, One;
    OneEvent(hostOf, u, Close(0));
    OneMore(hostOf, t, Enter("", true, 0), [Close(0)]);
    OneMore(hostOf, s, Close(0), [Enter("", true, 0)] + [Close(0)]);
  }

  lemma OneLive(hostOf: string -> string, x: Session, y: Session)
    requires x.stage.Closed? && y.stage.Admitted? && x.era == y.era
    ensures Live(hostOf, x.era, [x, y], Everyone) == 1
  {
    assert [x, y][..1] == [x];
    assert Live(hostOf, x.era, [x], Everyone) == 0;
  }

  /** Under any limits that let a caller in, this run gives the request's slot away: one session is live and the
      limiter counts none. */
  lemma TwoClosersSteal(l: Limits, hostOf: string -> string)
    requires Roomy(l)
    ensures Legal(hostOf, Start(l), TwoClosers())
    ensures var s := Exec(hostOf, Start(l), TwoClosers());
      s.lim.total == 0 && Live(hostOf, s.era, s.sessions, Everyone) == 1
  {
    hide Accepted, Released, Live, Legal, Exec, One, BothClose;
    var one, rest := One(hostOf("")), BothClose();
    var s, t := Sys(l, one, 0, [Connection(Admitted, 0)]), Sys(l, one, 0, [Connection(Wrapped, 0)]);
    var u, v := Sys(l, one, 0, [Connection(Wrapped, 1)]), Sys(l, one, 0, [Connection(Wrapped, 2)]);
    BothCloseSteals(l, hostOf);
    OneLive(hostOf, Connection(Closed, 0), Session("", true, 0, Admitted, 0));
    EntersAlone(l, hostOf, [], false);
    assert [] + [Connection(Admitted, 0)] == [Connection(Admitted, 0)];
    assert Apply(hostOf, s, Throttle(0, false)) == t;
    assert Apply(hostOf, t, Test(0)) == u && Apply(hostOf, u, Test(0)) == v;
    hide Apply;
    OneMore(hostOf, u, Test(0), rest);
    OneMore(hostOf, t, Test(0), [Test(0)] + rest);
    OneMore(hostOf, s, Throttle(0, false), [Test(0)] + ([Test(0)] + rest));
    OneMore(hostOf, Start(l), Enter("", false, 0), [Throttle(0, false)] + ([Test(0)] + ([Test(0)] + rest)));
  }
}

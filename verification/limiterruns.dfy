/** Admission accounting over whole runs of the limiter, whoever its clients are. */
module LimiterRuns {
  import opened Limiter

  // ----- the sum of a map -----

  ghost function Sum(m: map<string, int>): int {
    if m == map[] then 0 else
    var key :| key in m;
    m[key] + Sum(m - {key})
  }

  lemma {:induction false} SumRemove(m: map<string, int>, key: string)
    requires key in m
    ensures Sum(m) == m[key] + Sum(m - {key})
  {
    var k :| k in m && Sum(m) == m[k] + Sum(m - {k});
    if k != key {
      SumRemove(m - {k}, key);
      SumRemove(m - {key}, k);
      assert m - {k} - {key} == m - {key} - {k};
    }
  }

  lemma SumChange(m: map<string, int>, key: string, v: int)
    ensures Sum(m[key := v]) == Sum(m) - Count(m, key) + v
    ensures Sum(m - {key}) == Sum(m) - Count(m, key)
  {
    SumRemove(m[key := v], key);
    assert m[key := v] - {key} == m - {key};
    if key in m {
      SumRemove(m, key);
    } else {
      assert m - {key} == m;
    }
  }

  // ----- arbitrary clients of the limiter -----

  datatype Event =
    | Accept(host: string, now: int)
    | Release(host: string)
    | Ban(ip: string, duration: int, now: int)
    | Unban(ip: string)
    | Sweep(now: int)

  function Apply(l: Limits, s: State, e: Event): State {
    match e
    case Accept(host, now) => Accepted(l, s, host, now)
    case Release(host) => Released(s, host)
    case Ban(ip, duration, now) => Bans(l, s, ip, duration, now)
    case Unban(ip) => Unbans(s, ip)
    case Sweep(now) => Swept(s, now)
  }

  function Run(l: Limits, s: State, es: seq<Event>): State {
    if es == [] then s else Apply(l, Run(l, s, es[..|es| - 1]), es[|es| - 1])
  }

  ghost predicate Bounded(l: Limits, s: State) {
    && 0 <= s.total <= Sum(s.connections)
    && (s.total == 0 || s.total <= l.maxTotal)
    && (forall host <- s.connections :: 1 <= s.connections[host] <= l.maxPerIP)
    && (forall host <- s.violations :: 1 <= s.violations[host] < BAN_THRESHOLD)
  }

  lemma AcceptKeepsBounded(l: Limits, s: State, host: string, now: int)
    requires Bounded(l, s)
    ensures Bounded(l, Accepted(l, s, host, now))
  {
    if Judged(l, s, host, now).Ok? {
      SumChange(s.connections, host, Count(s.connections, host) + 1);
    } else {
      assert Accepted(l, s, host, now).connections == s.connections;
    }
  }

  lemma {:induction false} SumNonNegative(m: map<string, int>, top: int)
    requires forall key <- m :: 1 <= m[key] <= top
    ensures 0 <= Sum(m)
  {
    if m != map[] {
      var key :| key in m;
      SumRemove(m, key);
      SumNonNegative(m - {key}, top);
    }
  }

  lemma ReleaseKeepsBounded(l: Limits, s: State, host: string)
    requires Bounded(l, s)
    ensures Bounded(l, Released(s, host))
  {
    SumChange(s.connections, host, Count(s.connections, host) - 1);
    SumNonNegative(Released(s, host).connections, l.maxPerIP);
  }

  lemma StepKeepsBounded(l: Limits, s: State, e: Event)
    requires Bounded(l, s)
    ensures Bounded(l, Apply(l, s, e))
  {
    match e {
      case Accept(host, now) => AcceptKeepsBounded(l, s, host, now);
      case Release(host) => ReleaseKeepsBounded(l, s, host);
      case _ => assert Apply(l, s, e).connections == s.connections;
    }
  }

  /** Whatever is accepted, released (matched or not), banned and swept: the total never exceeds the sum of the host
      counts nor its limit, no host count is zero or over its limit, and no host keeps a ban's worth of violations. */
  lemma {:induction false} BoundsHold(l: Limits, es: seq<Event>)
    ensures Bounded(l, Run(l, EMPTY, es))
  {
    if es != [] {
      BoundsHold(l, es[..|es| - 1]);
      StepKeepsBounded(l, Run(l, EMPTY, es[..|es| - 1]), es[|es| - 1]);
    }
  }

  /** An exact total stays exact under every event but one: a release of a host that has no connection, which takes
      a slot away from the total alone. */
  lemma TotalStaysExact(l: Limits, s: State, e: Event)
    requires Bounded(l, s) && s.total == Sum(s.connections)
    ensures var t := Apply(l, s, e);
      t.total == Sum(t.connections) <==> !(e.Release? && e.host !in s.connections && s.total > 0)
  {
    match e {
      case Accept(host, now) =>
        if Judged(l, s, host, now).Ok? {
          SumChange(s.connections, host, Count(s.connections, host) + 1);
        } else {
          assert Accepted(l, s, host, now).connections == s.connections;
        }
      case Release(host) =>
        SumChange(s.connections, host, Count(s.connections, host) - 1);
        if host in s.connections {
          SumRemove(s.connections, host);
          SumNonNegative(s.connections - {host}, l.maxPerIP);
        }
      case _ => assert Apply(l, s, e).connections == s.connections;
    }
  }

  // ----- what one call does, whatever the state -----

  /** Below both limits, and with no ban running, a host gains exactly one connection. The rest stays: other hosts,
      every ban that runs, and every violation, but for those behind a ban that has run out. */
  lemma AcceptsBelow(l: Limits, s: State, host: string, now: int)
    requires !(host in s.banned && now < s.banned[host])
    requires s.total < l.maxTotal && Count(s.connections, host) < l.maxPerIP
    ensures var t := Apply(l, s, Accept(host, now));
      && t.total == s.total + 1
      && (forall h :: Count(t.connections, h) == Count(s.connections, h) + if h == host then 1 else 0)
      && t.banned == s.banned - {host}
      && (forall h :: Count(t.violations, h) == if h == host && host in s.banned then 0 else Count(s.violations, h))
  {
  }

  /** At a limit nobody gains or loses a connection. */
  lemma RefusesAtLimit(l: Limits, s: State, host: string, now: int)
    requires s.total >= l.maxTotal || Count(s.connections, host) >= l.maxPerIP
    ensures var t := Apply(l, s, Accept(host, now));
      && t.connections == s.connections && t.total == s.total
      && (forall h :: h != host ==> Count(t.violations, h) == Count(s.violations, h))
      && (forall h :: h != host ==> (h in t.banned <==> h in s.banned))
      && (forall h <- s.banned :: h != host ==> t.banned[h] == s.banned[h])
  {
  }

  /** A host whose ban runs changes nothing by trying. */
  lemma RefusesBanned(l: Limits, s: State, host: string, now: int)
    requires host in s.banned && now < s.banned[host]
    ensures Apply(l, s, Accept(host, now)) == s
  {
  }

  /** A release takes one connection from its host, if it has one, and one from the total, if there is one. */
  lemma ReleasesOne(l: Limits, s: State, host: string)
    requires Bounded(l, s)
    ensures var t := Apply(l, s, Release(host));
      && t.total == (if s.total > 0 then s.total - 1 else 0)
      && (forall h :: Count(t.connections, h) ==
            Count(s.connections, h) - if h == host && host in s.connections then 1 else 0)
      && t.banned == s.banned && t.violations == s.violations
  {
  }

  /** A connection that was let in and released leaves the counts as they were. */
  lemma AcceptReleaseRestores(l: Limits, s: State, host: string, now: int)
    requires Bounded(l, s) && !(host in s.banned && now < s.banned[host])
    requires s.total < l.maxTotal && Count(s.connections, host) < l.maxPerIP
    ensures var t := Apply(l, Apply(l, s, Accept(host, now)), Release(host));
      t.total == s.total && forall h :: Count(t.connections, h) == Count(s.connections, h)
  {
  }

  /** The sweep takes out every ban that has run out, leaves every other, and does not touch connections; violations go
      only when there are more than a thousand of them, and then all. */
  lemma SweepExactly(l: Limits, s: State, now: int)
    ensures var t := Apply(l, s, Sweep(now));
      && (forall ip :: ip in t.banned <==> ip in s.banned && s.banned[ip] >= now)
      && (forall ip <- t.banned :: t.banned[ip] == s.banned[ip])
      && t.connections == s.connections && t.total == s.total
      && t.violations == (if |s.violations| <= 1000 then s.violations else map[])
  {
  }

  /** Lifting a ban forgives the violations behind it, and does nothing for an address that is not banned. */
  lemma UnbanExactly(l: Limits, s: State, ip: string)
    ensures var t := Apply(l, s, Unban(ip));
      && ip !in t.banned && (forall h :: h != ip ==> (h in t.banned <==> h in s.banned))
      && (forall h <- t.banned :: t.banned[h] == s.banned[h])
      && (forall h :: Count(t.violations, h) == if h == ip && ip in s.banned then 0 else Count(s.violations, h))
      && t.connections == s.connections && t.total == s.total
  {
  }

  /** How often a host asks for a connection. */
  function Asked(es: seq<Event>, host: string): nat {
    if es == [] then 0
    else Asked(es[..|es| - 1], host) + if es[|es| - 1].Accept? && es[|es| - 1].host == host then 1 else 0
  }

  /** The limits can be used up: as long as nobody releases and no limit is passed, every request is let in, and no
      violation is recorded. */
  lemma {:induction false} LimitsCanBeUsedUp(l: Limits, es: seq<Event>)
    requires (forall e <- es :: e.Accept?) && |es| <= l.maxTotal
    requires forall host :: Asked(es, host) <= l.maxPerIP
    ensures var s := Run(l, EMPTY, es);
      && s.total == |es| && (forall host :: Count(s.connections, host) == Asked(es, host))
      && s.violations == map[] && s.banned == map[]
  {
    if es != [] {
      var before, e := es[..|es| - 1], es[|es| - 1];
      assert e in es && forall d <- before :: d in es;
      forall host ensures Asked(before, host) <= l.maxPerIP {
        assert Asked(before, host) <= Asked(es, host);
      }
      LimitsCanBeUsedUp(l, before);
      var s := Run(l, EMPTY, before);
      assert Asked(es, e.host) == Asked(before, e.host) + 1;
      AcceptsBelow(l, s, e.host, e.now);
      assert s.banned - {e.host} == map[];
      assert Run(l, EMPTY, es).violations == map[];
    }
  }

  // ----- the ban threshold -----

  /** No ban of the host is running, and a limit is reached. */
  predicate Refuses(l: Limits, s: State, e: Event, host: string) {
    e.Accept? && e.host == host && !(host in s.banned && e.now < s.banned[host])
    && (s.total >= l.maxTotal || Count(s.connections, host) >= l.maxPerIP)
  }

  /** What wipes a host's record, apart from being banned for it. */
  predicate Forgives(s: State, e: Event, host: string) {
    || (e.Accept? && e.host == host && host in s.banned && !BannedAt(s, host, e.now))
    || (e.Unban? && e.ip == host && host in s.banned)
    || (e.Sweep? && |s.violations| > MAX_VIOLATION_RECORDS)
  }

  /** Limit refusals of a host since its record was last wiped. */
  function Refusals(l: Limits, es: seq<Event>, host: string): nat {
    if es == [] then 0
    else
      var (before, e) := (es[..|es| - 1], es[|es| - 1]);
      var s := Run(l, EMPTY, before);
      (if Forgives(s, e, host) then 0 else Refusals(l, before, host)) + (if Refuses(l, s, e, host) then 1 else 0)
  }

  lemma ViolationStep(l: Limits, s: State, e: Event, host: string)
    requires 0 <= Count(s.violations, host) < BAN_THRESHOLD
    ensures var n := (if Forgives(s, e, host) then 0 else Count(s.violations, host))
                     + (if Refuses(l, s, e, host) then 1 else 0);
      && Count(Apply(l, s, e).violations, host) == (if n == BAN_THRESHOLD then 0 else n)
      && (Refuses(l, s, e, host) && n == BAN_THRESHOLD ==>
            host in Apply(l, s, e).banned && Apply(l, s, e).banned[host] == e.now + l.banFor)
      && (Refuses(l, s, e, host) && n < BAN_THRESHOLD ==> host !in Apply(l, s, e).banned)
  {
    match e {
      case Accept(h, now) =>
        if h != host {
          assert Count(Apply(l, s, e).violations, host) == Count(s.violations, host);
        } else if BannedAt(s, host, now) {
          assert Apply(l, s, e) == s;
        }
      case _ =>
    }
  }

  // What is on record after so many refusals: every fifth is a ban and starts over.
  function OnRecord(refusals: nat): nat {
    if refusals == 0 then 0
    else if OnRecord(refusals - 1) == BAN_THRESHOLD - 1 then 0 else OnRecord(refusals - 1) + 1
  }

  lemma {:induction false} OnRecordIsRemainder(refusals: nat)
    ensures OnRecord(refusals) == refusals % BAN_THRESHOLD
  {
    if refusals > 0 {
      OnRecordIsRemainder(refusals - 1);
      var (k, q, r) := (BAN_THRESHOLD, (refusals - 1) / BAN_THRESHOLD, (refusals - 1) % BAN_THRESHOLD);
      assert refusals == if r == k - 1 then k * (q + 1) else k * q + (r + 1);
    }
  }

  // One more event, unfolded
  lemma OneMore(l: Limits, es: seq<Event>, e: Event, host: string)
    ensures var s := Run(l, EMPTY, es);
      && Run(l, EMPTY, es + [e]) == Apply(l, s, e)
      && Refusals(l, es + [e], host) ==
           (if Forgives(s, e, host) then 0 else Refusals(l, es, host)) + (if Refuses(l, s, e, host) then 1 else 0)
  {
    var all := es + [e];
    assert all[..|all| - 1] == es && all[|all| - 1] == e;
  }

  lemma {:induction false} ViolationsAreRefusals(l: Limits, es: seq<Event>, host: string)
    ensures Count(Run(l, EMPTY, es).violations, host) == OnRecord(Refusals(l, es, host)) < BAN_THRESHOLD
  {
    hide Forgives, Refuses, Apply;
    if es != [] {
      var before, e := es[..|es| - 1], es[|es| - 1];
      var s := Run(l, EMPTY, before);
      ViolationsAreRefusals(l, before, host);
      assert before + [e] == es;
      OneMore(l, before, e, host);
      ViolationStep(l, s, e, host);
    }
  }

  /** The violations on record for a host are its refusals since the record was wiped, modulo the threshold. */
  lemma ViolationsModulo(l: Limits, es: seq<Event>, host: string)
    ensures Count(Run(l, EMPTY, es).violations, host) == Refusals(l, es, host) % BAN_THRESHOLD
  {
    ViolationsAreRefusals(l, es, host);
    OnRecordIsRemainder(Refusals(l, es, host));
  }

  /** A refusal bans its host exactly when it is the fifth, tenth, ... since the record was wiped. */
  lemma AutoBanExactly(l: Limits, es: seq<Event>, host: string, now: int)
    requires Refuses(l, Run(l, EMPTY, es), Accept(host, now), host)
    ensures var s := Run(l, EMPTY, es + [Accept(host, now)]);
      && (host in s.banned <==> Refusals(l, es + [Accept(host, now)], host) % BAN_THRESHOLD == 0)
      && (host in s.banned ==> s.banned[host] == now + l.banFor)
  {
    hide Forgives, Apply;
    var s, e := Run(l, EMPTY, es), Accept(host, now);
    ViolationsAreRefusals(l, es, host);
    OneMore(l, es, e, host);
    ViolationStep(l, s, e, host);
    OnRecordIsRemainder(Refusals(l, es + [e], host));
  }

  lemma OneRefusal(l: Limits, s: State, host: string, now: int)
    requires l.maxTotal <= 0 && s.total == 0 && host !in s.banned
    ensures var (t, n) := (Apply(l, s, Accept(host, now)), Count(s.violations, host) + 1);
      && t.total == 0 && (host in t.banned <==> n >= 5) && (host in t.banned ==> t.banned[host] == now + l.banFor)
      && Count(t.violations, host) == if n >= 5 then 0 else n
  {
  }

  /** A host that keeps asking where nobody is let in is banned by its fifth refusal, and not before. */
  lemma {:induction false} FifthRefusalBans(l: Limits, host: string, now: int, k: nat)
    requires l.maxTotal <= 0 && 1 <= k <= 5
    ensures var s := Run(l, EMPTY, seq(k, _ => Accept(host, now)));
      && (host in s.banned <==> k == 5) && (host in s.banned ==> s.banned[host] == now + l.banFor)
      && Count(s.violations, host) == (if k == 5 then 0 else k) && s.total == 0
  {
    var es := seq(k, _ => Accept(host, now));
    assert es[..k - 1] == seq(k - 1, _ => Accept(host, now));
    hide Apply;
    if k > 1 {
      FifthRefusalBans(l, host, now, k - 1);
    } else {
      assert Run(l, EMPTY, seq(0, _ => Accept(host, now))) == EMPTY;
    }
    OneRefusal(l, Run(l, EMPTY, seq(k - 1, _ => Accept(host, now))), host, now);
  }

  lemma BanStep(l: Limits, s: State, e: Event, host: string)
    requires host in s.banned
    requires e.Accept? || e.Ban? || e.Sweep? ==> e.now < s.banned[host]
    requires !(e.Unban? && e.ip == host) && !(e.Ban? && e.ip == host)
    ensures var t := Apply(l, s, e);
      && host in t.banned && t.banned[host] == s.banned[host]
      && Count(t.connections, host) <= Count(s.connections, host)
  {
  }

  /** A ban holds: until it runs out, no connection of the host is accepted, whatever else happens, unless someone
      unbans the host or bans it anew. */
  lemma {:induction false} BanHolds(l: Limits, s: State, es: seq<Event>, host: string, until: int)
    requires host in s.banned && s.banned[host] == until
    requires forall e <- es ::
      && (e.Accept? || e.Ban? || e.Sweep? ==> e.now < until)
      && !(e.Unban? && e.ip == host) && !(e.Ban? && e.ip == host)
    ensures var t := Run(l, s, es);
      && host in t.banned && t.banned[host] == until
      && Count(t.connections, host) <= Count(s.connections, host)
      && forall now :: now < until ==> Judged(l, t, host, now) == Banned
  {
    if es != [] {
      var before, e := es[..|es| - 1], es[|es| - 1];
      assert forall d <- before :: d in es;
      BanHolds(l, s, before, host, until);
      assert e in es;
      BanStep(l, Run(l, s, before), e, host);
    }
  }

  /** A manual ban is in force exactly until its time is over, in every run that neither lifts nor renews it. */
  lemma ManualBanExactly(l: Limits, s: State, ip: string, duration: int, now: int, es: seq<Event>, t: int)
    requires var until := now + if duration == 0 then l.banFor else duration;
      forall e <- es ::
        && (e.Accept? || e.Ban? || e.Sweep? ==> e.now < until)
        && !(e.Unban? && e.ip == ip) && !(e.Ban? && e.ip == ip)
    ensures Judged(l, Run(l, Bans(l, s, ip, duration, now), es), ip, t) == Banned
      <==> t < now + if duration == 0 then l.banFor else duration
    ensures Judged(l, Unbans(Run(l, Bans(l, s, ip, duration, now), es), ip), ip, t) != Banned
  {
    BanHolds(l, Bans(l, s, ip, duration, now), es, ip, now + if duration == 0 then l.banFor else duration);
  }
}

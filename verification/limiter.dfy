/** Connection limits and bans (internal/security/connection_limiter.go) and the middleware that uses them
    (internal/middleware/connection.go). Times are nanoseconds. */
module Limiter {
  const BAN_THRESHOLD := 5
  const MAX_VIOLATION_RECORDS := 1000

  datatype Limits = Limits(maxPerIP: int, maxTotal: int, banFor: int)

  datatype State = State(
    connections: map<string, int>, violations: map<string, int>, banned: map<string, int>, total: int)

  const EMPTY := State(map[], map[], map[], 0)

  // Reading a Go map: an absent key counts zero.
  function Count(m: map<string, int>, key: string): int {
    if key in m then m[key] else 0
  }

  predicate BannedAt(s: State, ip: string, now: int) {
    ip in s.banned && now < s.banned[ip]
  }

  datatype Verdict = Ok | Banned | OverTotal | OverHost

  // Accept first drops a ban that has run out, with the violations behind it.
  function Pardoned(s: State, host: string, now: int): State {
    if host in s.banned && !BannedAt(s, host, now)
    then s.(banned := s.banned - {host}, violations := s.violations - {host})
    else s
  }

  function Judged(l: Limits, s: State, host: string, now: int): Verdict {
    if BannedAt(s, host, now) then Banned
    else if s.total >= l.maxTotal then OverTotal
    else if Count(s.connections, host) >= l.maxPerIP then OverHost
    else Ok
  }

  // recordViolation
  function Recorded(l: Limits, s: State, host: string, now: int): State {
    var n := Count(s.violations, host) + 1;
    if n >= BAN_THRESHOLD
    then s.(violations := s.violations - {host}, banned := s.banned[host := now + l.banFor])
    else s.(violations := s.violations[host := n])
  }

  function Accepted(l: Limits, s: State, host: string, now: int): State {
    var t := Pardoned(s, host, now);
    match Judged(l, s, host, now)
    case Banned => s
    case Ok => t.(connections := t.connections[host := Count(t.connections, host) + 1], total := t.total + 1)
    case _ => Recorded(l, t, host, now)
  }

  function Released(s: State, host: string): State {
    var n := Count(s.connections, host);
    s.(connections := if n > 1 then s.connections[host := n - 1]
                      else if n == 1 then s.connections - {host} else s.connections,
       total := if s.total > 0 then s.total - 1 else s.total)
  }

  function Bans(l: Limits, s: State, ip: string, duration: int, now: int): State {
    s.(banned := s.banned[ip := now + if duration == 0 then l.banFor else duration])
  }

  function Unbans(s: State, ip: string): State {
    if ip in s.banned then s.(banned := s.banned - {ip}, violations := s.violations - {ip}) else s
  }

  // cleanup: bans that have run out go, and all violations once there are too many of them
  function Swept(s: State, now: int): State {
    s.(banned := map ip | ip in s.banned && now <= s.banned[ip] :: s.banned[ip],
       violations := if |s.violations| > MAX_VIOLATION_RECORDS then map[] else s.violations)
  }

  // The middleware asks for a ban of the address as it came, Accept for one of its host.
  predicate Admits(l: Limits, hostOf: string -> string, s: State, ip: string, now: int) {
    !BannedAt(s, ip, now) && Judged(l, s, hostOf(ip), now) == Ok
  }

  function Entered(l: Limits, hostOf: string -> string, s: State, ip: string, now: int): State {
    if BannedAt(s, ip, now) then s else Accepted(l, s, hostOf(ip), now)
  }

  class ConnectionLimiter {
    const limits: Limits
    const hostOf: string -> string  // the host part of an address, or the address itself when it has no port
    var connections: map<string, int>
    var violations: map<string, int>
    var bannedIPs: map<string, int>
    var totalConns: int

    constructor (limits: Limits, hostOf: string -> string)
      ensures this.limits == limits && this.hostOf == hostOf && View() == EMPTY
    {
      this.limits, this.hostOf := limits, hostOf;
      connections, violations, bannedIPs, totalConns := map[], map[], map[], 0;
    }

    ghost function View(): State
      reads this
    {
      State(connections, violations, bannedIPs, totalConns)
    }

    method Accept(ip: string, now: int) returns (ok: bool)
      modifies this
      ensures View() == Accepted(limits, old(View()), hostOf(ip), now)
      ensures ok <==> old(Judged(limits, View(), hostOf(ip), now)) == Ok
    {
      var host := hostOf(ip);
      if host in bannedIPs {
        if now < bannedIPs[host] {
          return false;
        }
        bannedIPs := bannedIPs - {host};
        violations := violations - {host};
      }
      if totalConns >= limits.maxTotal {
        RecordViolation(host, now);
        return false;
      }
      if Count(connections, host) >= limits.maxPerIP {
        RecordViolation(host, now);
        return false;
      }
      connections := connections[host := Count(connections, host) + 1];
      totalConns := totalConns + 1;
      return true;
    }

    method RecordViolation(ip: string, now: int)
      modifies this`violations, this`bannedIPs
      ensures View() == Recorded(limits, old(View()), ip, now)
    {
      violations := violations[ip := Count(violations, ip) + 1];
      if violations[ip] >= BAN_THRESHOLD {
        bannedIPs := bannedIPs[ip := now + limits.banFor];
        violations := violations - {ip};
      }
    }

    method Release(ip: string)
      modifies this`connections, this`totalConns
      ensures View() == Released(old(View()), hostOf(ip))
    {
      var host := hostOf(ip);
      if Count(connections, host) > 0 {
        connections := connections[host := connections[host] - 1];
        if connections[host] == 0 {
          connections := connections - {host};
        }
      }
      if totalConns > 0 {
        totalConns := totalConns - 1;
      }
    }

    method Ban(ip: string, duration: int, now: int)
      modifies this`bannedIPs
      ensures View() == Bans(limits, old(View()), ip, duration, now)
    {
      bannedIPs := bannedIPs[ip := now + if duration == 0 then limits.banFor else duration];
    }

    method Unban(ip: string)
      modifies this`bannedIPs, this`violations
      ensures View() == Unbans(old(View()), ip)
    {
      if ip in bannedIPs {
        bannedIPs := bannedIPs - {ip};
        violations := violations - {ip};
      }
    }

    method IsBanned(ip: string, now: int) returns (banned: bool)
      ensures banned <==> BannedAt(View(), ip, now)
    {
      return ip in bannedIPs && now < bannedIPs[ip];
    }

    method Cleanup(now: int)
      modifies this`bannedIPs, this`violations
      ensures View() == Swept(old(View()), now)
    {
      var todo := bannedIPs.Keys;
      while todo != {}
        invariant todo <= bannedIPs.Keys <= old(bannedIPs.Keys) && violations == old(violations)
        invariant forall ip <- bannedIPs :: bannedIPs[ip] == old(bannedIPs[ip])
        invariant forall ip <- old(bannedIPs) :: ip in bannedIPs <==> ip in todo || now <= old(bannedIPs[ip])
        decreases todo
      {
        var ip :| ip in todo;
        if now > bannedIPs[ip] {
          bannedIPs := bannedIPs - {ip};
        }
        todo := todo - {ip};
      }
      if |violations| > MAX_VIOLATION_RECORDS {
        violations := map[];
      }
    }
  }

  /** The middleware. A TCP connection gives its slot back through Close, to the limiter the middleware has at that
      moment; a request gives it back to the limiter its defer statement named. */
  class ConnectionMiddleware {
    var limiter: ConnectionLimiter

    constructor (limits: Limits, hostOf: string -> string)
      ensures fresh(limiter) && limiter.limits == limits && limiter.hostOf == hostOf && limiter.View() == EMPTY
    {
      limiter := new ConnectionLimiter(limits, hostOf);
    }

    // What both kinds of caller do first.
    method Admit(ip: string, now: int) returns (ok: bool)
      modifies limiter
      ensures ok <==> old(Admits(limiter.limits, limiter.hostOf, limiter.View(), ip, now))
      ensures limiter.View() == old(Entered(limiter.limits, limiter.hostOf, limiter.View(), ip, now))
    {
      var banned := limiter.IsBanned(ip, now);
      if banned {
        return false;
      }
      ok := limiter.Accept(ip, now);
    }

    /** HTTPMiddleware up to its defer statement, which names the limiter of that moment. */
    method BeginRequest(ip: string, now: int) returns (due: ConnectionLimiter?)
      modifies limiter
      ensures due == if old(Admits(limiter.limits, limiter.hostOf, limiter.View(), ip, now)) then limiter else null
      ensures limiter.View() == old(Entered(limiter.limits, limiter.hostOf, limiter.View(), ip, now))
    {
      var ok := Admit(ip, now);
      due := if ok then limiter else null;
    }

    // The deferred call, whatever limiter the middleware has by then.
    method EndRequest(due: ConnectionLimiter, ip: string)
      modifies due
      ensures due.View() == Released(old(due.View()), due.hostOf(ip))
    {
      due.Release(ip);
    }

    /** `throttled` is the answer of the rate throttle. */
    method WrapConnection(ip: string, now: int, throttled: bool) returns (conn: ManagedConn?)
      modifies limiter
      ensures conn != null <==> !throttled && old(Admits(limiter.limits, limiter.hostOf, limiter.View(), ip, now))
      ensures conn != null ==> fresh(conn) && conn.owner == this && conn.clientIP == ip && !conn.closed
      ensures var before := old(limiter.View());
        var after := old(Entered(limiter.limits, limiter.hostOf, limiter.View(), ip, now));
        limiter.View() == if old(Admits(limiter.limits, limiter.hostOf, before, ip, now)) && throttled
                          then Released(after, limiter.hostOf(ip)) else after
    {
      var ok := Admit(ip, now);
      if !ok {
        return null;
      }
      if throttled {
        limiter.Release(ip);
        return null;
      }
      conn := new ManagedConn(this, ip);
    }

    method UpdateLimits(limits: Limits)
      modifies this
      ensures fresh(limiter) && limiter.limits == limits && limiter.hostOf == old(limiter).hostOf
      ensures limiter.View() == EMPTY
    {
      limiter := new ConnectionLimiter(limits, limiter.hostOf);
    }
  }

  class ManagedConn {
    const owner: ConnectionMiddleware
    const clientIP: string
    var closed: bool

    constructor (owner: ConnectionMiddleware, clientIP: string)
      ensures this.owner == owner && this.clientIP == clientIP && !closed
    {
      this.owner, this.clientIP, closed := owner, clientIP, false;
    }

    method Close()
      modifies this, owner.limiter
      ensures closed && owner.limiter == old(owner.limiter)
      ensures owner.limiter.View() ==
        if old(closed) then old(owner.limiter.View())
        else Released(old(owner.limiter.View()), owner.limiter.hostOf(clientIP))
    {
      if !closed {
        closed := true;
        owner.limiter.Release(clientIP);
      }
    }
  }
}

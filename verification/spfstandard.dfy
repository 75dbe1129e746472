/** What check_host() of RFC 7208 asks for, on the mechanisms all, ip4, ip6, mx, a and include, and the part of it the
    program handles. */
module SpfStandard {
  import opened Text
  import opened Spf

  // ----- records (sections 4.3 to 4.5) -----

  /** The version section ends at a space or at the end of the record. */
  predicate IsSpfRecord(record: string) {
    HasPrefix(record, "v=spf1") && (|record| == 6 || record[6] == ' ')
  }

  function SpfRecords(records: seq<string>): (published: seq<string>)
    ensures forall r <- published :: r in records && IsSpfRecord(r)
  {
    if records == [] then []
    else (if IsSpfRecord(records[0]) then [records[0]] else []) + SpfRecords(records[1..])
  }

  // ----- terms (section 4.6.1) -----

  function NonEmpty(parts: seq<string>): seq<string> {
    if parts == [] then []
    else (if parts[0] != "" then [parts[0]] else []) + NonEmpty(parts[1..])
  }

  /** What follows the version, set off by spaces and nothing else. */
  function StandardTerms(record: string): seq<string>
    requires IsSpfRecord(record)
  {
    NonEmpty(Split(record[6..], ' '))
  }

  // The only white space is the space.
  predicate SpacesOnly(s: string) {
    forall c <- s :: IsSpace(c) ==> c == ' '
  }

  datatype Qualifier = Plus | Minus | Tilde | Question

  datatype Mechanism = All | Include(domain: string) | A | Mx | Ip4(spec: string) | Ip6(spec: string)

  datatype Directive = Directive(q: Qualifier, m: Mechanism)

  /** Names of mechanisms are read without regard to case. */
  function ParseMechanism(s: string): Option<Mechanism> {
    var t := ToLower(s);
    if t == "all" then Some(All)
    else if t == "a" then Some(A)
    else if t == "mx" then Some(Mx)
    else if HasPrefix(t, "ip4:") then Some(Ip4(s[4..]))
    else if HasPrefix(t, "ip6:") then Some(Ip6(s[4..]))
    else if HasPrefix(t, "include:") then Some(Include(s[8..]))
    else None
  }

  function QualifierOf(s: string): Option<Qualifier> {
    if s == [] then None
    else if s[0] == '+' then Some(Plus) else if s[0] == '-' then Some(Minus)
    else if s[0] == '~' then Some(Tilde) else if s[0] == '?' then Some(Question) else None
  }

  // The term without its qualifier
  function MechanismText(s: string): string {
    if QualifierOf(s).Some? then s[1..] else s
  }

  /** An optional qualifier in front of a mechanism. */
  function ParseDirective(s: string): Option<Directive> {
    match ParseMechanism(MechanismText(s))
    case None => None
    case Some(m) => Some(Directive(if QualifierOf(s).Some? then QualifierOf(s).value else Plus, m))
  }

  predicate AllParsed(terms: seq<string>) {
    forall i :: 0 <= i < |terms| ==> ParseDirective(terms[i]).Some?
  }

  function Directives(terms: seq<string>): (ds: seq<Directive>)
    requires AllParsed(terms)
    ensures |ds| == |terms|
  {
    if terms == [] then [] else
    assert ParseDirective(terms[0]).Some?;
    [ParseDirective(terms[0]).value] + Directives(terms[1..])
  }

  // ----- evaluation (sections 4.6.2, 4.7 and 5) -----

  /** What evaluating a mechanism comes to. */
  datatype Effect = Match | NoMatch | TempErr | PermErr

  ghost predicate HasClient(env: Env, addrs: seq<string>) {
    exists a :: a in addrs && env.isAddress(a)
  }

  /** Section 5: a failed query is a temporary error; the news that a name does not exist counts as no data. */
  ghost function HostEffect(env: Env, host: string): Effect {
    match env.hosts(host)
    case Failed => TempErr
    case NoName => NoMatch
    case Found(addrs) => if HasClient(env, addrs) then Match else NoMatch
  }

  // Section 5.4: the exchangers' addresses, one exchanger after the other
  ghost function HostsEffect(env: Env, hosts: seq<string>): Effect {
    if hosts == [] then NoMatch
    else if HostEffect(env, hosts[0]) == NoMatch then HostsEffect(env, hosts[1..])
    else HostEffect(env, hosts[0])
  }

  // Section 5.6: an address alone, or a network, written with its prefix length behind a slash
  ghost predicate ClientIn(env: Env, spec: string) {
    if exists i :: 0 <= i < |spec| && spec[i] == '/' then env.inNetwork(spec) else env.isAddress(spec)
  }

  /** `sol` says what check_host() answers for every domain. */
  ghost function EffectOf(env: Env, sol: string -> Result, m: Mechanism, domain: string): Effect {
    match m
    case All => Match
    case Ip4(spec) => if ClientIn(env, spec) then Match else NoMatch
    case Ip6(spec) => if ClientIn(env, spec) then Match else NoMatch
    case A => HostEffect(env, domain)
    case Mx =>
      (match env.mx(domain)
       case Failed => TempErr
       case NoName => NoMatch
       case Found(hosts) => HostsEffect(env, hosts))
    case Include(target) =>
      match sol(target)
      case Pass => Match
      case TempError => TempErr
      case PermError => PermErr
      case NoResult => PermErr
      case _ => NoMatch
  }

  /** Section 4.6.2: the result of the directive that decides. */
  function Outcome(q: Qualifier): Result {
    match q
    case Plus => Pass
    case Minus => Fail
    case Tilde => SoftFail
    case Question => Neutral
  }

  function ResultOf(q: Qualifier, e: Effect): Result
    requires e != NoMatch
  {
    match e
    case Match => Outcome(q)
    case TempErr => TempError
    case PermErr => PermError
  }

  /** Directive i is the leftmost one that does not simply fail to match. */
  ghost predicate Deciding(env: Env, sol: string -> Result, ds: seq<Directive>, domain: string, i: int) {
    && 0 <= i < |ds| && EffectOf(env, sol, ds[i].m, domain) != NoMatch
    && forall j :: 0 <= j < i ==> EffectOf(env, sol, ds[j].m, domain) == NoMatch
  }

  /** It gives the result; neutral when there is none (section 4.7). */
  ghost predicate Decides(env: Env, sol: string -> Result, ds: seq<Directive>, domain: string, r: Result) {
    || (r == Neutral && forall i :: 0 <= i < |ds| ==> EffectOf(env, sol, ds[i].m, domain) == NoMatch)
    || (exists i :: Deciding(env, sol, ds, domain, i) &&
          r == ResultOf(ds[i].q, EffectOf(env, sol, ds[i].m, domain)))
  }

  /** The deciding directive meets an error: a query that fails, or an include that gives an error or nothing. */
  ghost predicate Troubled(env: Env, sol: string -> Result, ds: seq<Directive>, domain: string) {
    exists i :: Deciding(env, sol, ds, domain, i) && EffectOf(env, sol, ds[i].m, domain) != Match
  }

  /** `sol` obeys the standard at this domain; records with terms outside the six mechanisms are left open. */
  ghost predicate SolvesAt(env: Env, sol: string -> Result, domain: string) {
    match env.txt(domain)
    case NoName => sol(domain) == NoResult
    case Failed => sol(domain) == TempError
    case Found(records) =>
      var published := SpfRecords(records);
      if published == [] then sol(domain) == NoResult
      else if |published| > 1 then sol(domain) == PermError
      else assert published[0] in published; AllParsed(StandardTerms(published[0])) ==>
        Decides(env, sol, Directives(StandardTerms(published[0])), domain, sol(domain))
  }

  // ----- the part the program handles -----

  /** The mechanism is spelled the way the program looks for it. */
  predicate Spelled(s: string) {
    || s == "all" || s == "a" || s == "mx"
    || HasPrefix(s, "ip4:") || HasPrefix(s, "ip6:") || HasPrefix(s, "include:")
  }

  predicate Handled(part: string) {
    match ParseDirective(part)
    case None => false
    case Some(d) =>
      Spelled(MechanismText(part)) &&
      match d.m
      case All => true
      case Ip4(_) => d.q.Plus? || d.q.Minus?
      case Include(_) => QualifierOf(part).None?
      case _ => d.q.Plus?
  }

  /** Where the program need not differ from the standard on account of the term itself: it handles the directive, or
      the directive, skipped, does not match. */
  ghost predicate Usable(env: Env, sol: string -> Result, part: string, domain: string) {
    Handled(part) ||
    (ParseDirective(part).Some? && EffectOf(env, sol, ParseDirective(part).value.m, domain) == NoMatch)
  }

  ghost predicate AllUsable(env: Env, sol: string -> Result, terms: seq<string>, domain: string) {
    forall i :: 0 <= i < |terms| ==> Usable(env, sol, terms[i], domain)
  }

  /** The record the program takes is the one the standard takes, or both find none. */
  predicate SameRecord(records: seq<string>) {
    var published := SpfRecords(records);
    if FirstSpf(records) == "" then published == [] else published == [FirstSpf(records)]
  }

  predicate IncludesDown(zone: set<string>, rank: string -> nat, domain: string, d: Option<Directive>) {
    d.Some? && d.value.m.Include? ==> d.value.m.domain in zone && rank(d.value.m.domain) < rank(domain)
  }

  /** A domain without a record, or one whose only record consists of directives, set off by spaces, and has includes
      that stay in the zone and go down in rank. */
  ghost predicate RankedAt(env: Env, zone: set<string>, rank: string -> nat, domain: string) {
    && (env.txt(domain).Found? ==> SameRecord(env.txt(domain).value))
    && (HasRecord(env, domain) ==>
          && SpacesOnly(LookupSpf(env, domain).value) && AllParsed(RecordTerms(env, domain))
          && forall i :: 0 <= i < |RecordTerms(env, domain)| ==>
               IncludesDown(zone, rank, domain, ParseDirective(RecordTerms(env, domain)[i])))
  }

  ghost predicate Ranked(env: Env, zone: set<string>, rank: string -> nat) {
    forall d {:trigger RankedAt(env, zone, rank, d)} :: d in zone ==> RankedAt(env, zone, rank, d)
  }

  ghost predicate UsableAt(env: Env, sol: string -> Result, domain: string) {
    HasRecord(env, domain) ==> AllUsable(env, sol, RecordTerms(env, domain), domain)
  }

  ghost predicate UsableIn(env: Env, zone: set<string>, sol: string -> Result) {
    forall d {:trigger UsableAt(env, sol, d)} :: d in zone ==> UsableAt(env, sol, d)
  }

  ghost predicate Solves(env: Env, zone: set<string>, sol: string -> Result) {
    forall d {:trigger SolvesAt(env, sol, d)} :: d in zone ==> SolvesAt(env, sol, d)
  }
}

/** The recursive SPF evaluator (internal/auth/spf.go). Module `SpfStandard` holds what it is measured against. */
module Spf {
  import opened Text

  /** The program never reports a permanent error; the standard does. */
  datatype Result = Pass | Fail | SoftFail | Neutral | NoResult | TempError | PermError

  /** The reported result and the domain it is reported for. */
  datatype Verdict = Verdict(result: Result, domain: string)

  /** The answer to a DNS query: data, the news that there is none, or a failure of the query. */
  datatype Lookup<+T> = Found(value: T) | NoName | Failed

  /** A frozen DNS and one client address: `inNetwork` and `isAddress` compare the client with a network or an address
      given as text. */
  datatype Env = Env(
    txt: string -> Lookup<seq<string>>,
    mx: string -> Lookup<seq<string>>,
    hosts: string -> Lookup<seq<string>>,
    inNetwork: string -> bool,
    isAddress: string -> bool)

  // ----- lookups and mechanism checks -----

  /** Record i is the first that starts with v=spf1. */
  predicate FirstAt(records: seq<string>, i: int) {
    0 <= i < |records| && HasPrefix(records[i], "v=spf1") &&
    forall j :: 0 <= j < i ==> !HasPrefix(records[j], "v=spf1")
  }

  /** The first record that starts with v=spf1, or the empty string. */
  function FirstSpf(records: seq<string>): (r: string)
    ensures r == "" <==> forall s <- records :: !HasPrefix(s, "v=spf1")
    ensures forall i {:trigger FirstAt(records, i)} :: FirstAt(records, i) ==> r == records[i]
  {
    if records == [] then ""
    else if HasPrefix(records[0], "v=spf1") then assert records[0] in records; records[0]
    else
      assert forall i {:trigger FirstAt(records, i)} :: FirstAt(records, i) ==> FirstAt(records[1..], i - 1);
      FirstSpf(records[1..])
  }

  lemma {:induction false} FirstSpfHasPrefix(records: seq<string>)
    ensures FirstSpf(records) != "" ==> FirstSpf(records) in records && HasPrefix(FirstSpf(records), "v=spf1")
  {
    if records != [] {
      FirstSpfHasPrefix(records[1..]);
    }
  }

  /** None when the lookup does not answer with records, the empty string when none of them is an SPF record. */
  function LookupSpf(env: Env, domain: string): (r: Option<string>)
    ensures r.Some? <==> env.txt(domain).Found?
    ensures r.Some? ==> (r.value == "" <==> forall s <- env.txt(domain).value :: !HasPrefix(s, "v=spf1"))
    ensures r.Some? ==> forall i {:trigger FirstAt(env.txt(domain).value, i)} ::
      FirstAt(env.txt(domain).value, i) ==> r.value == env.txt(domain).value[i]
    ensures r.Some? && r.value != "" ==> HasPrefix(r.value, "v=spf1")
  {
    match env.txt(domain)
    case Found(records) => FirstSpfHasPrefix(records); Some(FirstSpf(records))
    case _ => None
  }

  predicate CheckIp(env: Env, spec: string) {
    if '/' in spec then env.inNetwork(spec) else env.isAddress(spec)
  }

  predicate AnyAddress(env: Env, addrs: seq<string>) {
    addrs != [] && (env.isAddress(addrs[0]) || AnyAddress(env, addrs[1..]))
  }

  predicate CheckA(env: Env, domain: string) {
    env.hosts(domain).Found? && AnyAddress(env, env.hosts(domain).value)
  }

  predicate AnyHost(env: Env, mxs: seq<string>) {
    mxs != [] && (CheckA(env, mxs[0]) || AnyHost(env, mxs[1..]))
  }

  predicate CheckMx(env: Env, domain: string) {
    env.mx(domain).Found? && AnyHost(env, env.mx(domain).value)
  }

  // The words of a record after v=spf1
  function Terms(record: string): seq<string>
    requires HasPrefix(record, "v=spf1")
  {
    Fields(record)[1..]
  }

  /** The branch of checkSPF a term takes, with what that branch reads out of it. */
  datatype Branch = Always(r: Result) | IfIp(spec: string, r: Result) | IfMx | IfA | Nested(target: string) | Skipped

  function BranchOf(part: string): Branch {
    if part == "all" || part == "+all" then Always(Pass)
    else if part == "-all" then Always(Fail)
    else if part == "~all" then Always(SoftFail)
    else if part == "?all" then Always(Neutral)
    else if HasPrefix(part, "ip4:") then IfIp(part[4..], Pass)
    else if HasPrefix(part, "+ip4:") then IfIp(part[5..], Pass)
    else if HasPrefix(part, "-ip4:") then IfIp(part[5..], Fail)
    else if HasPrefix(part, "ip6:") then IfIp(part[4..], Pass)
    else if HasPrefix(part, "+ip6:") then IfIp(part[5..], Pass)
    else if part == "mx" || part == "+mx" then IfMx
    else if part == "a" || part == "+a" then IfA
    else if HasPrefix(part, "include:") then Nested(part[8..])
    else Skipped
  }

  /** checkSPF on the remaining terms. `depth` bounds the nesting of includes; None means it was not enough. */
  function Check(env: Env, depth: nat, terms: seq<string>, domain: string): (v: Option<Verdict>)
    ensures v.Some? ==> v.value.domain == domain && v.value.result in {Pass, Fail, SoftFail, Neutral}
    decreases depth, |terms|
  {
    if terms == [] then Some(Verdict(Neutral, domain))
    else
      match BranchOf(terms[0])
      case Always(r) => Some(Verdict(r, domain))
      case IfIp(spec, r) =>
        if CheckIp(env, spec) then Some(Verdict(r, domain)) else Check(env, depth, terms[1..], domain)
      case IfMx => if CheckMx(env, domain) then Some(Verdict(Pass, domain)) else Check(env, depth, terms[1..], domain)
      case IfA => if CheckA(env, domain) then Some(Verdict(Pass, domain)) else Check(env, depth, terms[1..], domain)
      case Skipped => Check(env, depth, terms[1..], domain)
      case Nested(target) =>
        var record := LookupSpf(env, target);
        if record.Some? && record.value != "" then
          if depth == 0 then None
          else
            match Check(env, depth - 1, Terms(record.value), target)
            case None => None
            case Some(v) =>
              if v.result == Pass then Some(Verdict(Pass, domain)) else Check(env, depth, terms[1..], domain)
        else Check(env, depth, terms[1..], domain)
  }

  /** Verify once the sender's domain is known: it is empty when the address has none. */
  function Verify(env: Env, depth: nat, helo: string, domain: string): Option<Verdict> {
    if domain == "" then Some(Verdict(NoResult, helo))
    else
      match LookupSpf(env, domain)
      case None => Some(Verdict(TempError, domain))
      case Some(record) =>
        if record == "" then Some(Verdict(NoResult, domain)) else Check(env, depth, Terms(record), domain)
  }

  // The domain has something the program takes for a record, and these are its terms.
  predicate HasRecord(env: Env, domain: string) {
    var r := LookupSpf(env, domain);
    r.Some? && r.value != ""
  }

  function RecordTerms(env: Env, domain: string): seq<string>
    requires HasRecord(env, domain)
  {
    Terms(LookupSpf(env, domain).value)
  }
}

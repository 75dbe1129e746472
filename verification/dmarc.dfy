/** DMARC alignment (internal/auth/dmarc.go) and the action taken on a message (internal/auth/middleware.go).
    Letters are folded as ASCII. */
module Dmarc {
  import opened Text
  import Spf

  predicate EqualFold(a: string, b: string) {
    ToLower(a) == ToLower(b)
  }

  // ----- organizational domains -----

  /** The listed two-part suffixes, label by label. */
  const TWO_PART_TLDS := {
    ("co", "uk"), ("co", "jp"), ("co", "kr"), ("com", "au"), ("com", "br"), ("com", "cn"),
    ("net", "au"), ("org", "uk"), ("ac", "uk")}

  // Three labels or more, the last two of them a listed suffix
  predicate UnderListed(parts: seq<string>) {
    |parts| >= 3 && (parts[|parts| - 2], parts[|parts| - 1]) in TWO_PART_TLDS
  }

  function OrgParts(parts: seq<string>): seq<string> {
    if |parts| < 2 then parts
    else if UnderListed(parts) then parts[|parts| - 3..]
    else parts[|parts| - 2..]
  }

  function OrganizationalDomain(domain: string): string {
    var parts := Split(domain, '.');
    if |parts| < 2 then domain else Join(OrgParts(parts), ".")
  }

  predicate OrganizationalDomainsMatch(domain1: string, domain2: string) {
    EqualFold(OrganizationalDomain(domain1), OrganizationalDomain(domain2))
  }

  // ----- evidence and alignment -----

  /** One SPF or DKIM result with the domain it vouches for. */
  datatype Evidence = Evidence(result: Spf.Result, domain: string)

  predicate Aligned(from: string, e: Evidence, strict: bool) {
    e.result == Spf.Pass && if strict then EqualFold(from, e.domain) else OrganizationalDomainsMatch(from, e.domain)
  }

  datatype Policy = NonePolicy | Quarantine | Reject

  /** What the lookup of a DMARC record gives. */
  datatype Lookup = NoRecord | LookupError | Record(policy: Policy, spfStrict: bool, dkimStrict: bool)

  predicate SpfAligned(from: string, spf: Option<Evidence>, strict: bool) {
    spf.Some? && Aligned(from, spf.value, strict)
  }

  predicate DkimAligned(from: string, dkim: seq<Evidence>, strict: bool) {
    exists e :: e in dkim && Aligned(from, e, strict)
  }

  datatype Verified = Verified(result: Spf.Result, policy: Policy)

  /** The result of DMARC verification; `lookup` answers for the cleaned From domain. */
  function Verify(from: string, spf: Option<Evidence>, dkim: seq<Evidence>, lookup: Lookup): Verified {
    var domain := ToLower(Trim(from));
    if domain == "" || lookup.NoRecord? then Verified(Spf.NoResult, NonePolicy)
    else if lookup.LookupError? then Verified(Spf.TempError, NonePolicy)
    else if SpfAligned(domain, spf, lookup.spfStrict) || DkimAligned(domain, dkim, lookup.dkimStrict)
    then Verified(Spf.Pass, lookup.policy)
    else Verified(Spf.Fail, lookup.policy)
  }

  function GetPolicy(v: Verified): Policy {
    if v.result != Spf.Fail then NonePolicy else v.policy
  }

  // ----- the decision on a message -----

  datatype Action = Accept | Quarantined | Rejected

  function Harshness(a: Action): nat {
    match a case Accept => 0 case Quarantined => 1 case Rejected => 2
  }

  function ActionFor(enforcement: string, v: Verified): Action {
    match GetPolicy(v)
    case Reject => if enforcement == "strict" then Rejected else Accept
    case Quarantine => if enforcement != "none" then Quarantined else Accept
    case NonePolicy => Accept
  }

  /** The switches of the configuration that VerifyInbound reads. */
  datatype Config = Config(spf: bool, dkim: bool, dmarc: bool, enforcement: string)

  /** What the checks would find: the From domain, the evidence and the record. */
  datatype Message = Message(from: string, spf: Option<Evidence>, dkim: seq<Evidence>, lookup: Lookup)

  // A check that is switched off yields no evidence.
  function SpfOf(cfg: Config, m: Message): Option<Evidence> {
    if cfg.spf then m.spf else None
  }

  function DkimOf(cfg: Config, m: Message): seq<Evidence> {
    if cfg.dkim then m.dkim else []
  }

  function DmarcOf(cfg: Config, m: Message): Option<Verified> {
    if cfg.dmarc && m.from != "" then Some(Verify(m.from, SpfOf(cfg, m), DkimOf(cfg, m), m.lookup)) else None
  }

  function Decide(cfg: Config, m: Message): Action {
    var v := DmarcOf(cfg, m);
    if v.Some? then ActionFor(cfg.enforcement, v.value) else Accept
  }

  predicate Passes(cfg: Config, m: Message) {
    || (DmarcOf(cfg, m).Some? && DmarcOf(cfg, m).value.result == Spf.Pass)
    || (SpfOf(cfg, m).Some? && SpfOf(cfg, m).value.result == Spf.Pass)
    || exists e :: e in DkimOf(cfg, m) && e.result == Spf.Pass
  }

  method CheckDkimAlignment(from: string, dkim: seq<Evidence>, strict: bool) returns (aligned: bool)
    ensures aligned <==> DkimAligned(from, dkim, strict)
  {
    for i := 0 to |dkim|
      invariant forall e :: e in dkim[..i] ==> !Aligned(from, e, strict)
    {
      var e := dkim[i];
      assert dkim[..i + 1] == dkim[..i] + [e];
      assert e in dkim;
      if e.result != Spf.Pass {
        continue;
      }
      if strict {
        if EqualFold(from, e.domain) {
          return true;
        }
      } else {
        if OrganizationalDomainsMatch(from, e.domain) {
          return true;
        }
      }
    }
    assert dkim[..|dkim|] == dkim;
    return false;
  }

  method VerifyDmarc(from: string, spf: Option<Evidence>, dkim: seq<Evidence>, lookup: Lookup) returns (v: Verified)
    ensures v == Verify(from, spf, dkim, lookup)
  {
    var domain := ToLower(Trim(from));
    if domain == "" {
      return Verified(Spf.NoResult, NonePolicy);
    }
    if lookup.NoRecord? {
      return Verified(Spf.NoResult, NonePolicy);
    }
    if lookup.LookupError? {
      return Verified(Spf.TempError, NonePolicy);
    }
    var spfAligned := SpfAligned(domain, spf, lookup.spfStrict);
    var dkimAligned := CheckDkimAlignment(domain, dkim, lookup.dkimStrict);
    if spfAligned || dkimAligned {
      v := Verified(Spf.Pass, lookup.policy);
    } else {
      v := Verified(Spf.Fail, lookup.policy);
    }
  }

  method DetermineOverallPass(dmarc: Option<Verified>, spf: Option<Evidence>, dkim: seq<Evidence>) returns (pass: bool)
    ensures pass <==>
      || (dmarc.Some? && dmarc.value.result == Spf.Pass)
      || (spf.Some? && spf.value.result == Spf.Pass)
      || exists e :: e in dkim && e.result == Spf.Pass
  {
    if dmarc.Some? && dmarc.value.result == Spf.Pass {
      return true;
    }
    var spfPass := spf.Some? && spf.value.result == Spf.Pass;
    var dkimPass := false;
    for i := 0 to |dkim|
      invariant !dkimPass && forall e :: e in dkim[..i] ==> e.result != Spf.Pass
    {
      assert dkim[..i + 1] == dkim[..i] + [dkim[i]];
      if dkim[i].result == Spf.Pass {
        dkimPass := true;
        break;
      }
    }
    assert !dkimPass ==> dkim[..|dkim|] == dkim;
    return spfPass || dkimPass;
  }

  /** The decision once the message headers parsed; a message whose headers do not parse is accepted. */
  method VerifyInbound(cfg: Config, m: Message) returns (action: Action, pass: bool)
    ensures action == Decide(cfg, m)
    ensures pass <==> Passes(cfg, m)
  {
    action := Accept;
    var spf: Option<Evidence> := None;
    if cfg.spf {
      spf := m.spf;
    }
    var dkim := [];
    if cfg.dkim {
      dkim := m.dkim;
    }
    var dmarc: Option<Verified> := None;
    if cfg.dmarc && m.from != "" {
      var v := VerifyDmarc(m.from, spf, dkim, m.lookup);
      dmarc := Some(v);
      if v.result == Spf.Fail {
        match GetPolicy(v) {
          case Reject =>
            if cfg.enforcement == "strict" {
              action := Rejected;
            }
          case Quarantine =>
            if cfg.enforcement != "none" {
              action := Quarantined;
            }
          case NonePolicy =>
        }
      }
    }
    pass := DetermineOverallPass(dmarc, spf, dkim);
  }
}

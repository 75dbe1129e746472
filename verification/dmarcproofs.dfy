/** Laws of organizational domains, of alignment, and of the action taken on a message. */
module DmarcProofs {
  import opened Text
  import opened Dmarc
  import Spf

  // ----- the organizational domain -----

  lemma OrgIsJoin(domain: string)
    ensures OrganizationalDomain(domain) == Join(OrgParts(Split(domain, '.')), ".")
    ensures Split(OrganizationalDomain(domain), '.') == OrgParts(Split(domain, '.'))
  {
    JoinSplit(domain, '.');
    SplitPartsClean(domain, '.');
    SplitJoin(OrgParts(Split(domain, '.')), '.');
  }

  /** Taking the organizational domain twice changes nothing. */
  lemma OrganizationalDomainIdempotent(domain: string)
    ensures OrganizationalDomain(OrganizationalDomain(domain)) == OrganizationalDomain(domain)
  {
    OrgIsJoin(domain);
    OrgIsJoin(OrganizationalDomain(domain));
  }

  lemma {:induction false} JoinTail(parts: seq<string>, k: nat)
    requires k < |parts|
    ensures var (all, tail) := (Join(parts, "."), Join(parts[k..], "."));
      if k == 0 then all == tail else HasSuffix(all, "." + tail)
  {
    if k == 0 {
      assert parts[0..] == parts;
    } else {
      JoinTail(parts[1..], k - 1);
      assert parts[1..][k - 1..] == parts[k..];
      var tail, rest := Join(parts[k..], "."), Join(parts[1..], ".");
      assert Join(parts, ".") == parts[0] + "." + rest;
      if k > 1 {
        assert rest == rest[..|rest| - |tail| - 1] + ("." + tail);
      }
    }
  }

  /** The organizational domain is the domain itself, or a suffix of it that starts after a dot. */
  lemma OrganizationalDomainIsSuffix(domain: string)
    ensures var org := OrganizationalDomain(domain); org == domain || HasSuffix(domain, "." + org)
  {
    var parts := Split(domain, '.');
    OrgIsJoin(domain);
    JoinSplit(domain, '.');
    JoinTail(parts, |parts| - |OrgParts(parts)|);
  }

  lemma OrgPartsPrefixed(name: string, parts: seq<string>)
    requires parts != []
    ensures OrgParts([name] + parts) == OrgParts(parts)
      <==> !(|parts| == 1 || (|parts| == 2 && (parts[0], parts[1]) in TWO_PART_TLDS))
  {
    var longer := [name] + parts;
    assert longer[|longer| - 1] == parts[|parts| - 1];
    if |parts| == 2 {
      assert longer[1..] == parts;
    } else if |parts| > 2 {
      assert UnderListed(longer) <==> UnderListed(parts);
      assert longer[|longer| - 3..] == parts[|parts| - 3..] && longer[|longer| - 2..] == parts[|parts| - 2..];
    }
  }

  /** Putting a label in front of a name leaves its organizational domain alone exactly when the name is neither a
      bare label nor a listed suffix. */
  lemma PrefixedLabel(name: string, domain: string)
    requires '.' !in name
    ensures var parts := Split(domain, '.');
      OrganizationalDomain(name + "." + domain) == OrganizationalDomain(domain)
      <==> !(|parts| == 1 || (|parts| == 2 && (parts[0], parts[1]) in TWO_PART_TLDS))
  {
    SplitCons(name, domain, '.');
    OrgIsJoin(domain);
    OrgIsJoin(name + "." + domain);
    OrgPartsPrefixed(name, Split(domain, '.'));
  }

  /** The nine names under which an organization is one label longer, as they are written. */
  lemma ListedSuffixes(sld: string, tld: string)
    ensures (sld, tld) in TWO_PART_TLDS <==>
      || (sld == "co" && (tld == "uk" || tld == "jp" || tld == "kr"))
      || (sld == "com" && (tld == "au" || tld == "br" || tld == "cn"))
      || (sld == "net" && tld == "au") || (sld == "org" && tld == "uk") || (sld == "ac" && tld == "uk")
  {
  }

  // ----- strict against relaxed alignment -----

  function LowerAll(parts: seq<string>): (r: seq<string>)
    ensures |r| == |parts|
  {
    if parts == [] then [] else [ToLower(parts[0])] + LowerAll(parts[1..])
  }

  lemma {:induction false} SplitLower(s: string)
    ensures Split(ToLower(s), '.') == LowerAll(Split(s, '.'))
  {
    if s != [] {
      SplitLower(s[1..]);
    }
  }

  lemma {:induction false} LowerConcat(s: string, t: string)
    ensures ToLower(s + t) == ToLower(s) + ToLower(t)
  {
    if s == [] {
      assert s + t == t;
    } else {
      assert (s + t)[1..] == s[1..] + t;
      LowerConcat(s[1..], t);
    }
  }

  lemma {:induction false} JoinLower(parts: seq<string>, k: nat)
    requires k <= |parts|
    ensures ToLower(Join(parts[k..], ".")) == Join(LowerAll(parts)[k..], ".")
    decreases |parts|
  {
    if k > 0 {
      JoinLower(parts[1..], k - 1);
      assert parts[1..][k - 1..] == parts[k..] && LowerAll(parts[1..])[k - 1..] == LowerAll(parts)[k..];
    } else if |parts| > 1 {
      JoinLower(parts[1..], 0);
      assert parts[1..][0..] == parts[1..] && parts[0..] == parts;
      LowerConcat(parts[0] + ".", Join(parts[1..], "."));
      LowerConcat(parts[0], ".");
    }
  }

  function Kept(parts: seq<string>): nat {
    if |parts| < 2 then |parts| else if UnderListed(parts) then 3 else 2
  }

  // The organizational domain, folded, is the folded end of the labels.
  lemma OrgLowered(domain: string)
    ensures var parts := Split(domain, '.');
      && Kept(parts) <= |parts|
      && ToLower(OrganizationalDomain(domain)) == Join(LowerAll(parts)[|parts| - Kept(parts)..], ".")
  {
    var parts := Split(domain, '.');
    OrgIsJoin(domain);
    JoinLower(parts, |parts| - Kept(parts));
  }

  lemma TailsDiffer(parts: seq<string>, j: nat, k: nat)
    requires j <= |parts| && k <= |parts| && j < |parts| && k < |parts|
    requires forall p <- parts :: '.' !in p
    ensures Join(parts[j..], ".") == Join(parts[k..], ".") <==> j == k
  {
    SplitJoin(parts[j..], '.');
    SplitJoin(parts[k..], '.');
  }

  /** A strictly aligned domain is aligned in relaxed mode exactly when both names are under a listed suffix or
      neither is: the table of suffixes is case-sensitive. */
  lemma StrictThenRelaxed(from: string, domain: string)
    requires EqualFold(from, domain)
    ensures OrganizationalDomainsMatch(from, domain)
      <==> (UnderListed(Split(from, '.')) <==> UnderListed(Split(domain, '.')))
  {
    hide Join, Split, LowerAll, OrganizationalDomain;
    var a, b := Split(from, '.'), Split(domain, '.');
    OrgLowered(from);
    OrgLowered(domain);
    SplitLower(from);
    SplitLower(domain);
    SplitPartsClean(ToLower(from), '.');
    TailsDiffer(LowerAll(a), |a| - Kept(a), |b| - Kept(b));
  }

  /** So for lower-case names strict alignment implies relaxed alignment. */
  lemma StrictImpliesRelaxed(from: string, e: Evidence)
    requires ToLower(from) == from && ToLower(e.domain) == e.domain
    requires Aligned(from, e, true)
    ensures Aligned(from, e, false)
  {
    StrictThenRelaxed(from, e.domain);
  }

  // ----- the action -----

  function Folded(c: char): int {
    if 65 <= c as int <= 90 then c as int + 32 else c as int
  }

  /** Two names are the same up to the case of ASCII letters. */
  predicate SameName(a: string, b: string) {
    |a| == |b| && forall i :: 0 <= i < |a| ==> Folded(a[i]) == Folded(b[i])
  }

  lemma {:induction false} FoldedAt(s: string, i: nat)
    requires i < |s|
    ensures ToLower(s)[i] as int == Folded(s[i])
  {
    if i > 0 {
      FoldedAt(s[1..], i - 1);
    }
  }

  lemma SameNameMeans(a: string, b: string)
    ensures EqualFold(a, b) <==> SameName(a, b)
  {
    forall i | 0 <= i < |a| ensures ToLower(a)[i] as int == Folded(a[i]) {
      FoldedAt(a, i);
    }
    forall i | 0 <= i < |b| ensures ToLower(b)[i] as int == Folded(b[i]) {
      FoldedAt(b, i);
    }
    hide Folded;
    if SameName(a, b) {
      forall i | 0 <= i < |a| ensures ToLower(a)[i] == ToLower(b)[i] {
      }
    }
  }

  /** A result vouches for a domain when it passed, for that very name in strict mode and for any name with the same
      organizational domain in relaxed mode. */
  predicate VouchesFor(e: Evidence, domain: string, strict: bool) {
    e.result == Spf.Pass &&
    if strict then SameName(domain, e.domain)
    else SameName(OrganizationalDomain(domain), OrganizationalDomain(e.domain))
  }

  lemma AlignedMeans(domain: string, e: Evidence, strict: bool)
    ensures Aligned(domain, e, strict) <==> VouchesFor(e, domain, strict)
  {
    SameNameMeans(domain, e.domain);
    SameNameMeans(OrganizationalDomain(domain), OrganizationalDomain(e.domain));
  }

  /** Some evidence that the configuration lets count vouches for the domain, each kind in its own mode. */
  ghost predicate Vouched(cfg: Config, m: Message, domain: string, spfStrict: bool, dkimStrict: bool) {
    || (cfg.spf && m.spf.Some? && VouchesFor(m.spf.value, domain, spfStrict))
    || (cfg.dkim && exists e :: e in m.dkim && VouchesFor(e, domain, dkimStrict))
  }

  lemma VouchedMeans(cfg: Config, m: Message, domain: string, spfStrict: bool, dkimStrict: bool)
    ensures Vouched(cfg, m, domain, spfStrict, dkimStrict) <==>
      SpfAligned(domain, SpfOf(cfg, m), spfStrict) || DkimAligned(domain, DkimOf(cfg, m), dkimStrict)
  {
    forall e ensures Aligned(domain, e, spfStrict) <==> VouchesFor(e, domain, spfStrict) {
      AlignedMeans(domain, e, spfStrict);
    }
    forall e ensures Aligned(domain, e, dkimStrict) <==> VouchesFor(e, domain, dkimStrict) {
      AlignedMeans(domain, e, dkimStrict);
    }
    hide Aligned, VouchesFor;
  }

  /** What DMARC verification reports, for what the message brings and the configuration lets count: nothing without a
      From domain or a record, a temporary error when the lookup failed, else a pass exactly when something vouches for
      the domain. */
  lemma VerifiedExactly(cfg: Config, m: Message)
    ensures var (domain, v) := (ToLower(Trim(m.from)), Verify(m.from, SpfOf(cfg, m), DkimOf(cfg, m), m.lookup));
      v.result ==
        if domain == "" || m.lookup.NoRecord? then Spf.NoResult
        else if m.lookup.LookupError? then Spf.TempError
        else if Vouched(cfg, m, domain, m.lookup.spfStrict, m.lookup.dkimStrict) then Spf.Pass
        else Spf.Fail
  {
    if m.lookup.Record? {
      VouchedMeans(cfg, m, ToLower(Trim(m.from)), m.lookup.spfStrict, m.lookup.dkimStrict);
    }
    hide SpfAligned, DkimAligned, Vouched;
  }

  /** The record's policy applies: DMARC is on, there is a From domain with a record, and nothing vouches for it. */
  ghost predicate PolicyApplies(cfg: Config, m: Message, p: Policy) {
    && cfg.dmarc && Trim(m.from) != ""
    && m.lookup.Record? && m.lookup.policy == p
    && !Vouched(cfg, m, ToLower(Trim(m.from)), m.lookup.spfStrict, m.lookup.dkimStrict)
  }

  /** A message is rejected exactly when a reject policy applies under strict enforcement, and quarantined exactly when
      a quarantine policy applies under any enforcement but none. */
  lemma ActionExactly(cfg: Config, m: Message)
    ensures Decide(cfg, m) == Rejected <==> cfg.enforcement == "strict" && PolicyApplies(cfg, m, Reject)
    ensures Decide(cfg, m) == Quarantined <==> cfg.enforcement != "none" && PolicyApplies(cfg, m, Quarantine)
  {
    VerifiedExactly(cfg, m);
    hide Vouched, SpfAligned, DkimAligned;
  }

  /** Some result that the configuration lets count has passed, for whatever domain. */
  ghost predicate SomethingPassed(cfg: Config, m: Message) {
    (cfg.spf && m.spf.Some? && m.spf.value.result == Spf.Pass) ||
    (cfg.dkim && exists e :: e in m.dkim && e.result == Spf.Pass)
  }

  /** A message passes overall exactly when some SPF or DKIM result has passed: DMARC changes nothing about that. */
  lemma PassesExactly(cfg: Config, m: Message)
    ensures Passes(cfg, m) <==> SomethingPassed(cfg, m)
  {
    VerifiedExactly(cfg, m);
    hide Verify;
    if cfg.dkim && exists e :: e in m.dkim && e.result == Spf.Pass {
      var e :| e in m.dkim && e.result == Spf.Pass;
      assert e in DkimOf(cfg, m);
    }
  }

  /** So a rejected message may pass: one signed by somebody else, under a strictly enforced policy. */
  lemma RejectedButPasses()
    ensures var (cfg, m) := (Config(true, true, true, "strict"),
        Message("a", None, [Evidence(Spf.Pass, "b")], Record(Reject, true, true)));
      Decide(cfg, m) == Rejected && Passes(cfg, m)
  {
    var cfg := Config(true, true, true, "strict");
    var m := Message("a", None, [Evidence(Spf.Pass, "b")], Record(Reject, true, true));
    assert Trim("a") == "a" && ToLower("a") == "a";
    ActionExactly(cfg, m);
    PassesExactly(cfg, m);
    assert m.dkim[0] in m.dkim;
    hide Decide, Passes;
  }

  /** `more` has all the passing evidence of `less`. */
  ghost predicate MoreEvidence(less: Message, more: Message) {
    && more.from == less.from && more.lookup == less.lookup
    && (less.spf.Some? && less.spf.value.result == Spf.Pass ==> more.spf == less.spf)
    && (forall e <- less.dkim :: e.result == Spf.Pass ==> e in more.dkim)
  }

  /** More evidence never makes the action harsher; in particular the order of DKIM results does not matter. */
  lemma EvidenceNeverHarms(cfg: Config, less: Message, more: Message)
    requires MoreEvidence(less, more)
    ensures Harshness(Decide(cfg, more)) <= Harshness(Decide(cfg, less))
  {
    var from := ToLower(Trim(less.from));
    if less.lookup.Record? && DkimAligned(from, DkimOf(cfg, less), less.lookup.dkimStrict) {
      var e :| e in DkimOf(cfg, less) && Aligned(from, e, less.lookup.dkimStrict);
      assert e in DkimOf(cfg, more);
    }
  }

  function Strength(enforcement: string): nat {
    if enforcement == "none" then 0 else if enforcement == "strict" then 2 else 1
  }

  /** For fixed evidence and policy the action is monotone in enforcement: none, relaxed (or any other word), strict. */
  lemma EnforcementIsMonotone(weak: Config, strong: Config, m: Message)
    requires weak == strong.(enforcement := weak.enforcement)
    requires Strength(weak.enforcement) <= Strength(strong.enforcement)
    ensures Harshness(Decide(weak, m)) <= Harshness(Decide(strong, m))
  {
  }

  function PolicyRank(p: Policy): nat {
    match p case NonePolicy => 0 case Quarantine => 1 case Reject => 2
  }

  function WithPolicy(m: Message, p: Policy): Message {
    if m.lookup.Record? then m.(lookup := m.lookup.(policy := p)) else m
  }

  /** It is monotone in the published policy exactly when enforcement is none or strict: under relaxed enforcement
      a failing message is quarantined when the policy says quarantine and accepted when it says reject. */
  lemma PolicyMonotoneExactly(cfg: Config)
    requires cfg.dmarc
    ensures (forall m, p, q :: PolicyRank(p) <= PolicyRank(q) ==>
        Harshness(Decide(cfg, WithPolicy(m, p))) <= Harshness(Decide(cfg, WithPolicy(m, q))))
      <==> cfg.enforcement in {"none", "strict"}
  {
    if cfg.enforcement in {"none", "strict"} {
      forall m, p, q | PolicyRank(p) <= PolicyRank(q)
        ensures Harshness(Decide(cfg, WithPolicy(m, p))) <= Harshness(Decide(cfg, WithPolicy(m, q)))
      {
      }
    } else {
      var m := Message("a", None, [], Record(NonePolicy, true, true));
      assert Trim("a") == "a";
      assert Decide(cfg, WithPolicy(m, Quarantine)) == Quarantined;
      assert Decide(cfg, WithPolicy(m, Reject)) == Accept;
      assert PolicyRank(Quarantine) <= PolicyRank(Reject);
    }
  }

  lemma SplitThree(a: string, b: string, c: string)
    requires '.' !in a && '.' !in b && '.' !in c
    ensures Split(a + "." + b + "." + c, '.') == [a, b, c]
  {
    assert a + "." + b + "." + c == a + "." + (b + "." + c);
    SplitCons(a, b + "." + c, '.');
    SplitCons(b, c, '.');
    SplitCons(c, [], '.');
  }

  lemma ListedInOneSpelling()
    ensures UnderListed(["x", "co", "uk"]) && !UnderListed(["x", "co", "UK"])
    ensures ToLower("uk") == ToLower("UK")
  {
    assert "uk"[0] != "UK"[0];
    assert "uk"[1..] == "k" && "UK"[1..] == "K" && "k"[1..] == "K"[1..] == "";
  }

  /** Such a pair: the same name in two spellings under a listed suffix. */
  lemma SpellingSplitsAlignment()
    ensures EqualFold("x.co." + "uk", "x.co." + "UK") && !OrganizationalDomainsMatch("x.co." + "uk", "x.co." + "UK")
  {
    hide Split, OrganizationalDomain, Join, UnderListed, ToLower;
    ListedInOneSpelling();
    SplitThree("x", "co", "uk");
    SplitThree("x", "co", "UK");
    LowerConcat("x.co.", "uk");
    LowerConcat("x.co.", "UK");
    assert "x" + "." + "co" + "." == "x.co.";
    StrictThenRelaxed("x.co." + "uk", "x.co." + "UK");
  }
}

/** Where the evaluator agrees with RFC 7208 and where it does not. */
module SpfProofs {
  import opened Text
  import opened Spf
  import opened SpfStandard

  // ----- the record taken -----

  // Record i is the only SPF record, and nothing before it looks like one to the program.
  ghost predicate OnlyAndFirst(records: seq<string>, i: int) {
    && 0 <= i < |records| && IsSpfRecord(records[i])
    && (forall j :: 0 <= j < |records| && j != i ==> !IsSpfRecord(records[j]))
    && (forall j :: 0 <= j < i ==> !HasPrefix(records[j], "v=spf1"))
  }

  lemma {:induction false} NoSpfRecords(records: seq<string>)
    ensures SpfRecords(records) == [] <==> forall j :: 0 <= j < |records| ==> !IsSpfRecord(records[j])
  {
    if records != [] {
      NoSpfRecords(records[1..]);
      assert forall j :: 0 <= j < |records| - 1 ==> records[1..][j] == records[j + 1];
    }
  }

  lemma ShiftOnly(records: seq<string>, i: int)
    requires records != [] && !HasPrefix(records[0], "v=spf1")
    ensures OnlyAndFirst(records, i + 1) <==> OnlyAndFirst(records[1..], i)
  {
    assert forall j :: 0 <= j < |records[1..]| ==> records[1..][j] == records[j + 1];
    assert forall j :: 0 < j < |records| ==> records[j] == records[1..][j - 1];
  }

  // When the first record starts with v=spf1, the program takes it.
  lemma FirstTaken(records: seq<string>)
    requires records != [] && HasPrefix(records[0], "v=spf1")
    ensures SameRecord(records) <==> OnlyAndFirst(records, 0)
    ensures forall i :: OnlyAndFirst(records, i) ==> i == 0
  {
    var first, rest := records[0], records[1..];
    NoSpfRecords(rest);
    assert forall j :: 0 < j < |records| ==> records[j] == rest[j - 1];
    assert forall j :: 0 <= j < |rest| ==> rest[j] == records[j + 1];
    if SameRecord(records) {
      assert first in SpfRecords(records);
    }
  }

  ghost predicate OneFirst(records: seq<string>) {
    exists i :: OnlyAndFirst(records, i)
  }

  lemma OneFirstRest(records: seq<string>)
    requires records != [] && !HasPrefix(records[0], "v=spf1")
    ensures OneFirst(records) <==> OneFirst(records[1..])
  {
    if OneFirst(records) {
      var i :| OnlyAndFirst(records, i);
      ShiftOnly(records, i - 1);
    }
    if OneFirst(records[1..]) {
      var i :| OnlyAndFirst(records[1..], i);
      ShiftOnly(records, i);
    }
  }

  /** The program takes the record the standard takes exactly when none starts with v=spf1, or the only SPF record (up
      to the word boundary) has nothing before it that starts with v=spf1. */
  lemma {:induction false} SameRecordExactly(records: seq<string>)
    ensures SameRecord(records) <==> (forall r <- records :: !HasPrefix(r, "v=spf1")) || OneFirst(records)
  {
    if records != [] {
      assert records[0] in records;
      if HasPrefix(records[0], "v=spf1") {
        FirstTaken(records);
        hide SameRecord;
      } else {
        SameRecordExactly(records[1..]);
        OneFirstRest(records);
        assert SameRecord(records) <==> SameRecord(records[1..]);
        hide SameRecord, OneFirst;
        assert forall r :: r in records <==> r == records[0] || r in records[1..];
      }
    }
  }

  // ----- the terms of a record -----

  // Words, each behind a space
  function Spaced(words: seq<string>): string {
    if words == [] then "" else " " + words[0] + Spaced(words[1..])
  }

  lemma {:induction false} FieldsSpaced(words: seq<string>)
    requires forall w <- words :: IsWord(w)
    ensures Fields(Spaced(words)) == words
  {
    if words != [] {
      var rest := Spaced(words[1..]);
      FieldsSpaced(words[1..]);
      FieldsOfWord(words[0], rest);
      assert (" " + words[0] + rest)[1..] == words[0] + rest;
    }
  }

  /** The terms the program walks through are the words of the record behind its version, in their order. */
  lemma TermsInOrder(words: seq<string>)
    requires forall w <- words :: IsWord(w)
    ensures var record := "v=spf1" + Spaced(words); HasPrefix(record, "v=spf1") && Terms(record) == words
  {
    hide WordLength, Fields;
    var rest := Spaced(words);
    FieldsSpaced(words);
    assert rest == [] || rest[0] == ' ';
    FieldsOfWord("v=spf1", rest);
  }

  // Where the only white space is the space, the words are what stands between spaces.
  lemma {:induction false} WordsBetweenSpaces(s: string)
    requires SpacesOnly(s)
    ensures Fields(s) == NonEmpty(Split(s, ' '))
    decreases |s|
  {
    if s == [] {
      assert NonEmpty([""]) == [] + NonEmpty([""][1..]);
    } else if IsSpace(s[0]) {
      WordsBetweenSpaces(s[1..]);
      var rest := Split(s[1..], ' ');
      assert ([[]] + rest)[1..] == rest && [] + NonEmpty(rest) == NonEmpty(rest);
    } else {
      var n := WordLength(s);
      WordIsClean(s);
      var w, rest := s[..n], s[n..];
      assert s == w + rest;
      assert ' ' !in w;
      SplitPrefix(w, rest, ' ');
      WordsBetweenSpaces(rest);
      var parts := Split(rest, ' ');
      assert parts[0] == [];
      assert w + parts[0] == w && ([w] + parts[1..])[1..] == parts[1..];
      assert NonEmpty(parts) == [] + NonEmpty(parts[1..]);
    }
  }

  lemma {:induction false} NonEmptyKeeps(parts: seq<string>, p: string)
    requires p in parts && p != ""
    ensures p in NonEmpty(parts)
  {
    if p != parts[0] {
      NonEmptyKeeps(parts[1..], p);
    }
  }

  /** The program reads the terms of a record as section 4.6.1 does if and only if its only white space is the space; it
      takes tabs, say, for separators too. */
  lemma SameTermsExactly(record: string)
    requires IsSpfRecord(record)
    ensures Terms(record) == StandardTerms(record) <==> SpacesOnly(record)
  {
    var rest := record[6..];
    assert record == "v=spf1" + rest;
    FieldsOfWord("v=spf1", rest);
    assert forall c <- "v=spf1" :: !IsSpace(c);
    assert SpacesOnly(record) <==> SpacesOnly(rest);
    if SpacesOnly(rest) {
      WordsBetweenSpaces(rest);
    } else {
      var c :| c in rest && IsSpace(c) && c != ' ';
      SplitCovers(rest, ' ', c);
      var p :| p in Split(rest, ' ') && c in p;
      NonEmptyKeeps(Split(rest, ' '), p);
      FieldsAreWords(rest);
      assert p in StandardTerms(record) && p !in Fields(rest);
    }
  }

  // ----- the scans over addresses -----

  lemma {:induction false} AnyAddressMeans(env: Env, addrs: seq<string>)
    ensures AnyAddress(env, addrs) <==> HasClient(env, addrs)
  {
    if addrs != [] {
      AnyAddressMeans(env, addrs[1..]);
      assert forall a :: a in addrs <==> a == addrs[0] || a in addrs[1..];
    }
  }

  lemma HostMatches(env: Env, host: string)
    ensures CheckA(env, host) <==> HostEffect(env, host) == Match
  {
    if env.hosts(host).Found? {
      AnyAddressMeans(env, env.hosts(host).value);
    }
  }

  lemma {:induction false} HostsMatch(env: Env, hosts: seq<string>)
    requires HostsEffect(env, hosts) != TempErr
    ensures AnyHost(env, hosts) <==> HostsEffect(env, hosts) == Match
  {
    if hosts != [] {
      HostMatches(env, hosts[0]);
      if HostEffect(env, hosts[0]) == NoMatch {
        HostsMatch(env, hosts[1..]);
      }
    }
  }

  /** The check of an address or network is the standard's. */
  lemma IpCheckMatches(env: Env, spec: string)
    ensures CheckIp(env, spec) <==> ClientIn(env, spec)
  {
    if '/' in spec {
      var i :| 0 <= i < |spec| && spec[i] == '/';
    }
  }

  /** Unless a query it needs fails, the scan for `a` or `mx` finds the client exactly when the mechanism matches; where
      one fails, the program goes on to answer yes or no and the standard gives a temporary error. */
  lemma ChecksMatch(env: Env, sol: string -> Result, domain: string)
    ensures CheckA(env, domain) <==> EffectOf(env, sol, A, domain) == Match
    ensures EffectOf(env, sol, Mx, domain) != TempErr ==>
      (CheckMx(env, domain) <==> EffectOf(env, sol, Mx, domain) == Match)
  {
    HostMatches(env, domain);
    if env.mx(domain).Found? && HostsEffect(env, env.mx(domain).value) != TempErr {
      HostsMatch(env, env.mx(domain).value);
    }
  }

  // ----- the branch a term takes -----

  lemma {:induction false} LowerAt(s: string, i: nat)
    requires i < |s|
    ensures ToLower(s)[i] == LowerChar(s[i])
  {
    if i > 0 {
      LowerAt(s[1..], i - 1);
    }
  }

  lemma LowerPrefix(s: string, p: string)
    requires HasPrefix(s, p) && forall c <- p :: LowerChar(c) == c
    ensures HasPrefix(ToLower(s), p)
  {
    forall i | 0 <= i < |p| ensures ToLower(s)[i] == p[i] {
      LowerAt(s, i);
      assert s[i] == p[i] && p[i] in p;
    }
  }

  /** Spelled in lower case, a mechanism is read as it stands. */
  lemma SpelledMechanism(s: string)
    requires Spelled(s)
    ensures ParseMechanism(s) == Some(
      if s == "all" then All else if s == "a" then A else if s == "mx" then Mx
      else if HasPrefix(s, "ip4:") then Ip4(s[4..])
      else if HasPrefix(s, "ip6:") then Ip6(s[4..])
      else Include(s[8..]))
  {
    hide ToLower;
    if s == "all" {
      LowerPrefix(s, "all");
    } else if s == "a" {
      LowerPrefix(s, "a");
    } else if s == "mx" {
      LowerPrefix(s, "mx");
    } else if HasPrefix(s, "ip4:") {
      LowerPrefix(s, "ip4:");
      assert ToLower(s)[0] == 'i';
    } else if HasPrefix(s, "ip6:") {
      LowerPrefix(s, "ip6:");
      assert ToLower(s)[0] == 'i' && ToLower(s)[2] == '6';
    } else {
      LowerPrefix(s, "include:");
      assert ToLower(s)[0] == 'i' && ToLower(s)[1] == 'n';
    }
  }

  /** The branch the standard's reading of a directive asks for. */
  function BranchFor(d: Directive): Branch {
    match d.m
    case All => Always(Outcome(d.q))
    case Include(target) => Nested(target)
    case A => IfA
    case Mx => IfMx
    case Ip4(spec) => IfIp(spec, Outcome(d.q))
    case Ip6(spec) => IfIp(spec, Outcome(d.q))
  }

  // The first letters of a spelled mechanism decide the code's branch.
  lemma SpelledBranch(s: string)
    requires Spelled(s)
    ensures BranchOf(s) ==
      if s == "all" then Always(Pass) else if s == "a" then IfA else if s == "mx" then IfMx
      else if HasPrefix(s, "ip4:") || HasPrefix(s, "ip6:") then IfIp(s[4..], Pass)
      else Nested(s[8..])
    ensures s[0] in "aim"
  {
    if HasPrefix(s, "ip4:") {
      assert s[0] == 'i' && s[2] == '4';
    } else if HasPrefix(s, "ip6:") {
      assert s[0] == 'i' && s[2] == '6';
    } else if HasPrefix(s, "include:") {
      assert s[0] == 'i' && s[1] == 'n';
    }
  }

  lemma PlainTerm(part: string)
    requires Spelled(part)
    ensures Handled(part) && BranchOf(part) == BranchFor(ParseDirective(part).value)
  {
    hide ToLower;
    SpelledBranch(part);
    SpelledMechanism(part);
    assert QualifierOf(part).None?;
    hide ParseMechanism, BranchOf;
  }

  lemma QualifiedAll(q: char)
    requires q in "+-~?"
    ensures BranchOf([q] + "all") == Always(Outcome(QualifierOf([q]).value))
  {
    if q == '+' {
      assert [q] + "all" == "+all";
    } else if q == '-' {
      assert [q] + "all" == "-all";
    } else if q == '~' {
      assert [q] + "all" == "~all";
    } else {
      assert [q] + "all" == "?all";
    }
  }

  lemma QualifiedIp(q: char, s: string)
    requires HasPrefix(s, "ip4:") || HasPrefix(s, "ip6:")
    ensures q == '+' || (q == '-' && s[2] == '4') ==> BranchOf([q] + s) == IfIp(s[4..], if q == '+' then Pass else Fail)
  {
    var part := [q] + s;
    assert part[..5] == [q] + s[..4] && part[5..] == s[4..];
    assert part[0] == q && part[1] == s[0] == 'i';
    if HasPrefix(s, "ip4:") {
      assert s[..4] == "ip4:";
      if q == '+' {
        assert ['+'] + "ip4:" == "+ip4:";
        assert part[..5] == "+ip4:" && HasPrefix(part, "+ip4:");
      } else if q == '-' {
        assert ['-'] + "ip4:" == "-ip4:";
        assert part[..5] == "-ip4:" && HasPrefix(part, "-ip4:");
      }
    } else {
      assert s[..4] == "ip6:" && s[2] == '6';
      assert ['+'] + "ip6:" == "+ip6:";
    }
  }

  lemma QualifiedAddress()
    ensures BranchOf("+a") == IfA && BranchOf("+mx") == IfMx
  {
  }

  lemma QualifiedTerm(part: string)
    requires Handled(part) && QualifierOf(part).Some?
    ensures BranchOf(part) == BranchFor(ParseDirective(part).value)
  {
    hide ToLower, BranchOf;
    var q, s := part[0], part[1..];
    assert part == [q] + s;
    SpelledMechanism(s);
    hide ParseMechanism;
    QualifiedAddress();
    if s == "all" {
      QualifiedAll(q);
    } else if s == "a" {
      assert part == "+a";
    } else if s == "mx" {
      assert part == "+mx";
    } else {
      assert HasPrefix(s, "ip4:") ==> s[2] == '4';
      QualifiedIp(q, s);
    }
  }

  // A term the code does not skip, with more than a mechanism in it
  lemma TakenSpelled(part: string)
    requires !BranchOf(part).Skipped? && !Spelled(part)
    ensures var s := part[1..];
      && QualifierOf(part).Some? && Spelled(s)
      && (s == "all" || part[0] == '+' || (part[0] == '-' && HasPrefix(s, "ip4:")))
      && (s == "all" || s == "a" || s == "mx" || HasPrefix(s, "ip4:") || HasPrefix(s, "ip6:"))
  {
    if |part| >= 5 {
      assert part[1..5] == part[1..][..4];
    }
  }

  // What the code does not skip is a directive it handles.
  lemma TakenIsHandled(part: string)
    requires !BranchOf(part).Skipped?
    ensures Handled(part)
  {
    hide ToLower;
    if Spelled(part) {
      hide BranchOf;
      PlainTerm(part);
    } else {
      TakenSpelled(part);
      SpelledMechanism(part[1..]);
      hide ParseMechanism, BranchOf;
    }
  }

  /** The code takes a branch for a term exactly when it is a handled directive, and then the one the standard's reading
      asks for. */
  lemma BranchExactly(part: string)
    ensures Handled(part) <==> !BranchOf(part).Skipped?
    ensures Handled(part) ==> BranchOf(part) == BranchFor(ParseDirective(part).value)
  {
    if Handled(part) {
      if QualifierOf(part).Some? {
        QualifiedTerm(part);
      } else {
        PlainTerm(part);
      }
    }
    if !BranchOf(part).Skipped? {
      TakenIsHandled(part);
    }
  }

  // ----- evaluation of one record -----

  predicate IsError(r: Result) {
    r == TempError || r == PermError || r == NoResult
  }

  // An exchanger's query fails before one is found that has the client.
  predicate FailsFirst(env: Env, hosts: seq<string>) {
    hosts != [] && (env.hosts(hosts[0]).Failed? || (!CheckA(env, hosts[0]) && FailsFirst(env, hosts[1..])))
  }

  /** On its way through the terms the program ignores an error: a query that fails, an include of a domain without a
      record, or an error ignored while evaluating an include. */
  predicate Ignores(env: Env, depth: nat, terms: seq<string>, domain: string)
    decreases depth, |terms|
  {
    terms != [] &&
    match BranchOf(terms[0])
    case Always(_) => false
    case IfIp(spec, _) => !CheckIp(env, spec) && Ignores(env, depth, terms[1..], domain)
    case IfA => env.hosts(domain).Failed? || (!CheckA(env, domain) && Ignores(env, depth, terms[1..], domain))
    case IfMx =>
      || env.mx(domain).Failed?
      || (env.mx(domain).Found? && FailsFirst(env, env.mx(domain).value))
      || (!CheckMx(env, domain) && Ignores(env, depth, terms[1..], domain))
    case Skipped => Ignores(env, depth, terms[1..], domain)
    case Nested(target) =>
      if !HasRecord(env, target) then true
      else if depth == 0 then false
      else
        var inner := RecordTerms(env, target);
        || Ignores(env, depth - 1, inner, target)
        || (Check(env, depth - 1, inner, target) != Some(Verdict(Pass, target)) &&
            Ignores(env, depth, terms[1..], domain))
  }

  // What the include of `target` needs: an answer that is the standard's unless the standard answers with an error,
  // which is when the program ignores one
  ghost predicate IncludeAgrees(env: Env, depth: nat, sol: string -> Result, target: string) {
    if HasRecord(env, target) then
      && depth > 0
      && Check(env, depth - 1, RecordTerms(env, target), target).Some?
      && (!IsError(sol(target)) ==>
            Check(env, depth - 1, RecordTerms(env, target), target) == Some(Verdict(sol(target), target)))
      && (IsError(sol(target)) <==> Ignores(env, depth - 1, RecordTerms(env, target), target))
    else IsError(sol(target))
  }

  lemma {:induction false} FailsFirstMeans(env: Env, hosts: seq<string>)
    ensures FailsFirst(env, hosts) <==> HostsEffect(env, hosts) == TempErr
    ensures HostsEffect(env, hosts) != PermErr
  {
    if hosts != [] {
      HostMatches(env, hosts[0]);
      FailsFirstMeans(env, hosts[1..]);
    }
  }

  lemma CheckedIpMatches(env: Env, part: string)
    ensures BranchOf(part).IfIp? ==>
      (CheckIp(env, BranchOf(part).spec) <==> ClientIn(env, BranchOf(part).spec))
  {
    if BranchOf(part).IfIp? {
      IpCheckMatches(env, BranchOf(part).spec);
    }
  }

  // The first term decides when it matches and is skipped when it does not; an error is taken for one or the other.
  lemma FirstTerm(env: Env, depth: nat, terms: seq<string>, domain: string, sol: string -> Result)
    requires terms != [] && Usable(env, sol, terms[0], domain)
    requires var m := ParseDirective(terms[0]).value.m; m.Include? ==> IncludeAgrees(env, depth, sol, m.domain)
    ensures var d := ParseDirective(terms[0]).value;
      var (now, later) := (Check(env, depth, terms, domain), Check(env, depth, terms[1..], domain));
      var e := EffectOf(env, sol, d.m, domain);
      && (e == Match ==> now == Some(Verdict(Outcome(d.q), domain)))
      && (e == NoMatch ==> now == later)
      && (now.Some? || now == later)
  {
    hide LookupSpf, Terms, BranchOf, ParseMechanism, HasClient, HostEffect, CheckA, CheckMx, Spelled, QualifierOf;
    hide Ignores;
    BranchExactly(terms[0]);
    CheckedIpMatches(env, terms[0]);
    ChecksMatch(env, sol, domain);
  }

  lemma FirstIgnored(env: Env, depth: nat, terms: seq<string>, domain: string, sol: string -> Result)
    requires terms != [] && Usable(env, sol, terms[0], domain)
    requires var m := ParseDirective(terms[0]).value.m; m.Include? ==> IncludeAgrees(env, depth, sol, m.domain)
    ensures var e := EffectOf(env, sol, ParseDirective(terms[0]).value.m, domain);
      Ignores(env, depth, terms, domain) <==>
        e == TempErr || e == PermErr || (e == NoMatch && Ignores(env, depth, terms[1..], domain))
  {
    hide LookupSpf, Terms, BranchOf, ParseMechanism, HasClient, CheckA, CheckMx, Spelled, QualifierOf, Check;
    BranchExactly(terms[0]);
    CheckedIpMatches(env, terms[0]);
    ChecksMatch(env, sol, domain);
    if env.mx(domain).Found? {
      FailsFirstMeans(env, env.mx(domain).value);
    }
    hide HostsEffect, FailsFirst;
  }

  lemma DecidesCons(env: Env, sol: string -> Result, d: Directive, ds: seq<Directive>, domain: string, r: Result)
    requires EffectOf(env, sol, d.m, domain) == NoMatch && Decides(env, sol, ds, domain, r)
    ensures Decides(env, sol, [d] + ds, domain, r)
  {
    var all := [d] + ds;
    if !(r == Neutral && forall i :: 0 <= i < |ds| ==> EffectOf(env, sol, ds[i].m, domain) == NoMatch) {
      var i :| Deciding(env, sol, ds, domain, i) && r == ResultOf(ds[i].q, EffectOf(env, sol, ds[i].m, domain));
      assert Deciding(env, sol, all, domain, i + 1) && all[i + 1] == ds[i];
    }
  }

  lemma ShiftDeciding(env: Env, sol: string -> Result, d: Directive, ds: seq<Directive>, domain: string, i: int)
    requires EffectOf(env, sol, d.m, domain) == NoMatch
    ensures Deciding(env, sol, [d] + ds, domain, i + 1) <==> Deciding(env, sol, ds, domain, i)
  {
    var all := [d] + ds;
    assert all[0] == d && forall j :: 0 < j < |all| ==> all[j] == ds[j - 1];
    assert forall j :: 0 <= j < |ds| ==> ds[j] == all[j + 1];
  }

  lemma TroubledCons(env: Env, sol: string -> Result, d: Directive, ds: seq<Directive>, domain: string)
    ensures Troubled(env, sol, [d] + ds, domain) <==>
      var e := EffectOf(env, sol, d.m, domain);
      e == TempErr || e == PermErr || (e == NoMatch && Troubled(env, sol, ds, domain))
  {
    var all, e := [d] + ds, EffectOf(env, sol, d.m, domain);
    assert all[0] == d && forall i :: 0 < i < |all| ==> all[i] == ds[i - 1];
    if e == NoMatch {
      forall i ensures Deciding(env, sol, all, domain, i + 1) <==> Deciding(env, sol, ds, domain, i) {
        ShiftDeciding(env, sol, d, ds, domain, i);
      }
      if Troubled(env, sol, all, domain) {
        var i :| Deciding(env, sol, all, domain, i) && EffectOf(env, sol, all[i].m, domain) != Match;
        assert Deciding(env, sol, ds, domain, i - 1);
      }
      if Troubled(env, sol, ds, domain) {
        var i :| Deciding(env, sol, ds, domain, i) && EffectOf(env, sol, ds[i].m, domain) != Match;
        assert Deciding(env, sol, all, domain, i + 1);
      }
    } else {
      assert Deciding(env, sol, all, domain, 0);
      assert forall i :: Deciding(env, sol, all, domain, i) ==> i == 0;
    }
  }

  lemma {:induction false} UsableParse(env: Env, sol: string -> Result, terms: seq<string>, domain: string)
    requires AllUsable(env, sol, terms, domain)
    ensures AllParsed(terms)
  {
    forall i | 0 <= i < |terms| ensures ParseDirective(terms[i]).Some? {
      assert Usable(env, sol, terms[i], domain);
    }
  }

  // The terms of one record, given what its includes answer
  lemma {:induction false} TermsAgree(env: Env, depth: nat, terms: seq<string>, domain: string, sol: string -> Result)
    requires AllUsable(env, sol, terms, domain) && AllParsed(terms)
    requires forall i :: 0 <= i < |terms| && ParseDirective(terms[i]).value.m.Include? ==>
      IncludeAgrees(env, depth, sol, ParseDirective(terms[i]).value.m.domain)
    ensures Check(env, depth, terms, domain).Some?
    ensures !Troubled(env, sol, Directives(terms), domain) ==>
      Decides(env, sol, Directives(terms), domain, Check(env, depth, terms, domain).value.result)
    ensures Troubled(env, sol, Directives(terms), domain) <==> Ignores(env, depth, terms, domain)
  {
    if terms != [] {
      var d, rest := ParseDirective(terms[0]).value, terms[1..];
      assert Usable(env, sol, terms[0], domain);
      assert forall i :: 0 <= i < |rest| ==> rest[i] == terms[i + 1];
      hide Usable, IncludeAgrees;
      TermsAgree(env, depth, rest, domain, sol);
      FirstTerm(env, depth, terms, domain, sol);
      FirstIgnored(env, depth, terms, domain, sol);
      TroubledCons(env, sol, d, Directives(rest), domain);
      assert Directives(terms) == [d] + Directives(rest);
      hide Troubled, Check, Ignores, ParseDirective, EffectOf;
      if !Troubled(env, sol, Directives(terms), domain) {
        if EffectOf(env, sol, d.m, domain) == Match {
          assert Deciding(env, sol, Directives(terms), domain, 0);
        } else {
          DecidesCons(env, sol, d, Directives(rest), domain, Check(env, depth, rest, domain).value.result);
        }
      }
    }
  }

  // The standard decides once, and with an error exactly in trouble.
  lemma DecidesOnce(env: Env, sol: string -> Result, ds: seq<Directive>, domain: string, r1: Result, r2: Result)
    requires Decides(env, sol, ds, domain, r1) && Decides(env, sol, ds, domain, r2)
    ensures r1 == r2
    ensures IsError(r1) <==> Troubled(env, sol, ds, domain)
  {
    if i, j :| Deciding(env, sol, ds, domain, i) && Deciding(env, sol, ds, domain, j) {
      assert i == j;
    }
  }

  // ----- whole evaluations -----

  /** Once an evaluation has answered, allowing deeper includes never changes the answer. */
  lemma {:induction false} DepthIsStable(env: Env, depth: nat, more: nat, terms: seq<string>, domain: string)
    requires Check(env, depth, terms, domain).Some? && depth <= more
    ensures Check(env, more, terms, domain) == Check(env, depth, terms, domain)
    decreases depth, |terms|
  {
    hide BranchOf, LookupSpf, Terms;
    if terms != [] {
      var b := BranchOf(terms[0]);
      if b.Nested? && HasRecord(env, b.target) {
        DepthIsStable(env, depth - 1, more - 1, RecordTerms(env, b.target), b.target);
        if Check(env, depth - 1, RecordTerms(env, b.target), b.target).value.result != Pass {
          DepthIsStable(env, depth, more, terms[1..], domain);
        }
      } else if Check(env, depth, terms, domain) == Check(env, depth, terms[1..], domain) {
        DepthIsStable(env, depth, more, terms[1..], domain);
      }
    }
  }

  // In a ranked zone the standard has an error for a domain in which the program sees no record.
  lemma NoRecordIsError(env: Env, zone: set<string>, rank: string -> nat, sol: string -> Result, domain: string)
    requires RankedAt(env, zone, rank, domain) && SolvesAt(env, sol, domain) && !HasRecord(env, domain)
    ensures IsError(sol(domain))
    ensures sol(domain) == if env.txt(domain).Failed? then TempError else NoResult
  {
  }

  lemma RankedIncludes(env: Env, zone: set<string>, rank: string -> nat, domain: string, i: nat)
    requires RankedAt(env, zone, rank, domain) && HasRecord(env, domain) && i < |RecordTerms(env, domain)|
    ensures IncludesDown(zone, rank, domain, ParseDirective(RecordTerms(env, domain)[i]))
  {
  }

  lemma RecordDecides(env: Env, zone: set<string>, rank: string -> nat, sol: string -> Result, domain: string)
    requires RankedAt(env, zone, rank, domain) && SolvesAt(env, sol, domain) && HasRecord(env, domain)
    ensures AllParsed(RecordTerms(env, domain))
    ensures Decides(env, sol, Directives(RecordTerms(env, domain)), domain, sol(domain))
  {
    assert SpfRecords(env.txt(domain).value) == [FirstSpf(env.txt(domain).value)];
    SameTermsExactly(LookupSpf(env, domain).value);
    hide Terms, StandardTerms, Decides, FirstSpf;
  }

  lemma TermsAgreeExactly(env: Env, depth: nat, terms: seq<string>, domain: string, sol: string -> Result)
    requires AllUsable(env, sol, terms, domain) && AllParsed(terms)
    requires forall i :: 0 <= i < |terms| && ParseDirective(terms[i]).value.m.Include? ==>
      IncludeAgrees(env, depth, sol, ParseDirective(terms[i]).value.m.domain)
    requires Decides(env, sol, Directives(terms), domain, sol(domain))
    ensures Check(env, depth, terms, domain).Some?
    ensures Check(env, depth, terms, domain) == Some(Verdict(sol(domain), domain))
      <==> !Ignores(env, depth, terms, domain)
    ensures IsError(sol(domain)) <==> Ignores(env, depth, terms, domain)
    ensures Troubled(env, sol, Directives(terms), domain) <==> Ignores(env, depth, terms, domain)
  {
    TermsAgree(env, depth, terms, domain, sol);
    DecidesOnce(env, sol, Directives(terms), domain, sol(domain), sol(domain));
    if !Troubled(env, sol, Directives(terms), domain) {
      DecidesOnce(env, sol, Directives(terms), domain, sol(domain), Check(env, depth, terms, domain).value.result);
    }
    hide Troubled, Decides, AllUsable, Ignores;
  }

  /** On a zone whose includes go down in rank, and whose skipped directives do not match, the evaluator terminates, and
      its result is the one the standard gives, reported for the domain asked about, exactly when it ignores no error on
      its way: no query of an `a` or `mx` it reaches fails and every domain it reaches an include of has a record, in
      the record itself and in those of its includes. Then, and only then, the standard's answer is an error. */
  lemma {:induction false} AgreesExactly(env: Env, zone: set<string>, rank: string -> nat, sol: string -> Result,
                                         domain: string, depth: nat)
    requires Ranked(env, zone, rank) && UsableIn(env, zone, sol) && Solves(env, zone, sol)
    requires domain in zone && HasRecord(env, domain) && depth >= rank(domain)
    ensures AllParsed(RecordTerms(env, domain))
    ensures Check(env, depth, RecordTerms(env, domain), domain).Some?
    ensures Check(env, depth, RecordTerms(env, domain), domain) == Some(Verdict(sol(domain), domain))
      <==> !Ignores(env, depth, RecordTerms(env, domain), domain)
    ensures IsError(sol(domain)) <==> Ignores(env, depth, RecordTerms(env, domain), domain)
    ensures Troubled(env, sol, Directives(RecordTerms(env, domain)), domain)
      <==> Ignores(env, depth, RecordTerms(env, domain), domain)
    decreases rank(domain), 1
  {
    hide Check, Terms, RecordTerms, HasRecord, Troubled, Decides, RankedAt, SolvesAt, Ignores;
    hide ParseDirective, Directives, AllUsable;
    assert RankedAt(env, zone, rank, domain) && SolvesAt(env, sol, domain) && UsableAt(env, sol, domain);
    RecordDecides(env, zone, rank, sol, domain);
    var terms := RecordTerms(env, domain);
    forall i | 0 <= i < |terms| && ParseDirective(terms[i]).value.m.Include?
      ensures IncludeAgrees(env, depth, sol, ParseDirective(terms[i]).value.m.domain)
    {
      IncludeAgreesAt(env, zone, rank, sol, domain, depth, i);
    }
    TermsAgreeExactly(env, depth, terms, domain, sol);
  }

  lemma {:induction false} IncludeAgreesAt(env: Env, zone: set<string>, rank: string -> nat, sol: string -> Result,
                                           domain: string, depth: nat, i: nat)
    requires Ranked(env, zone, rank) && UsableIn(env, zone, sol) && Solves(env, zone, sol)
    requires domain in zone && HasRecord(env, domain) && depth >= rank(domain)
    requires i < |RecordTerms(env, domain)| && AllParsed(RecordTerms(env, domain))
    requires ParseDirective(RecordTerms(env, domain)[i]).value.m.Include?
    ensures IncludeAgrees(env, depth, sol, ParseDirective(RecordTerms(env, domain)[i]).value.m.domain)
    decreases rank(domain), 0
  {
    hide Check, Terms, RecordTerms, HasRecord, Troubled, Decides, RankedAt, SolvesAt;
    hide ParseDirective, Directives;
    assert RankedAt(env, zone, rank, domain);
    var target := ParseDirective(RecordTerms(env, domain)[i]).value.m.domain;
    RankedIncludes(env, zone, rank, domain, i);
    assert RankedAt(env, zone, rank, target) && SolvesAt(env, sol, target);
    if HasRecord(env, target) {
      AgreesExactly(env, zone, rank, sol, target, depth - 1);
    } else {
      NoRecordIsError(env, zone, rank, sol, target);
    }
  }

  /** What Verify reports is what the standard says, exactly when the name is not reported missing, which the program
      takes for a failure (section 4.3), and the evaluation, if there is one, ignores no error. */
  lemma VerifyAgreesExactly(env: Env, zone: set<string>, rank: string -> nat, sol: string -> Result,
                            domain: string, depth: nat, helo: string)
    requires Ranked(env, zone, rank) && UsableIn(env, zone, sol) && Solves(env, zone, sol)
    requires domain in zone && domain != "" && depth >= rank(domain)
    ensures Verify(env, depth, helo, domain) == Some(Verdict(sol(domain), domain)) <==>
      !env.txt(domain).NoName? &&
      (HasRecord(env, domain) ==> !Ignores(env, depth, RecordTerms(env, domain), domain))
  {
    assert RankedAt(env, zone, rank, domain) && SolvesAt(env, sol, domain);
    if HasRecord(env, domain) {
      AgreesExactly(env, zone, rank, sol, domain, depth);
    } else {
      NoRecordIsError(env, zone, rank, sol, domain);
    }
    hide Check, Ignores;
  }

  /** Without a sender's domain there is no result, for the greeting. A sender's domain gets no result exactly when none
      of its TXT records starts with v=spf1, and a temporary error exactly when the lookup gave no records, whether the
      name is missing or the query failed. */
  lemma NoneAndTempError(env: Env, depth: nat, helo: string, domain: string)
    requires Verify(env, depth, helo, domain).Some?
    ensures var Verdict(r, d) := Verify(env, depth, helo, domain).value;
      if domain == "" then r == NoResult && d == helo
      else
        && d == domain
        && (r == TempError <==> !env.txt(domain).Found?)
        && (r == NoResult <==>
              env.txt(domain).Found? && forall t <- env.txt(domain).value :: !HasPrefix(t, "v=spf1"))
  {
  }

  /** An include of a domain without a record is skipped; the standard's evaluation ends there with an error. */
  lemma DeadIncludeSkipped(env: Env, zone: set<string>, rank: string -> nat, sol: string -> Result, depth: nat,
                           terms: seq<string>, domain: string, target: string)
    requires terms != [] && AllParsed(terms) && BranchOf(terms[0]) == Nested(target) && !HasRecord(env, target)
    requires RankedAt(env, zone, rank, target) && SolvesAt(env, sol, target)
    ensures Check(env, depth, terms, domain) == Check(env, depth, terms[1..], domain)
    ensures Troubled(env, sol, Directives(terms), domain)
    ensures forall r :: Decides(env, sol, Directives(terms), domain, r) ==>
      r == if env.txt(target).Failed? then TempError else PermError
  {
    BranchExactly(terms[0]);
    NoRecordIsError(env, zone, rank, sol, target);
    var ds := Directives(terms);
    assert ds[0].m == Include(target);
    assert Deciding(env, sol, ds, domain, 0);
    assert forall i :: Deciding(env, sol, ds, domain, i) ==> i == 0;
  }

  // A failed query of a mechanism is taken for no match; the standard's evaluation ends there with an error.
  lemma FailedQueryEnds(env: Env, sol: string -> Result, terms: seq<string>, domain: string)
    requires terms != [] && AllParsed(terms)
    requires EffectOf(env, sol, ParseDirective(terms[0]).value.m, domain) == TempErr
    ensures Troubled(env, sol, Directives(terms), domain)
    ensures forall r :: Decides(env, sol, Directives(terms), domain, r) ==> r == TempError
  {
    var ds := Directives(terms);
    assert Deciding(env, sol, ds, domain, 0);
    assert forall i :: Deciding(env, sol, ds, domain, i) ==> i == 0;
  }

  /** An `a` whose query fails is skipped; the standard's evaluation ends there with a temporary error. */
  lemma FailedASkipped(env: Env, sol: string -> Result, depth: nat, terms: seq<string>, domain: string)
    requires terms != [] && AllParsed(terms) && BranchOf(terms[0]) == IfA && env.hosts(domain).Failed?
    ensures Check(env, depth, terms, domain) == Check(env, depth, terms[1..], domain)
    ensures Troubled(env, sol, Directives(terms), domain)
    ensures forall r :: Decides(env, sol, Directives(terms), domain, r) ==> r == TempError
  {
    BranchExactly(terms[0]);
    FailedQueryEnds(env, sol, terms, domain);
  }

  /** So is an `mx` whose query fails. */
  lemma FailedMxSkipped(env: Env, sol: string -> Result, depth: nat, terms: seq<string>, domain: string)
    requires terms != [] && AllParsed(terms) && BranchOf(terms[0]) == IfMx && env.mx(domain).Failed?
    ensures Check(env, depth, terms, domain) == Check(env, depth, terms[1..], domain)
    ensures Troubled(env, sol, Directives(terms), domain)
    ensures forall r :: Decides(env, sol, Directives(terms), domain, r) ==> r == TempError
  {
    BranchExactly(terms[0]);
    FailedQueryEnds(env, sol, terms, domain);
  }

  /** An `mx` of which one exchanger cannot be looked up goes on to the next exchangers, and may pass; the standard's
      evaluation ends there. */
  lemma FailedExchangerSkipped(env: Env, sol: string -> Result, depth: nat, terms: seq<string>, domain: string)
    requires terms != [] && AllParsed(terms) && BranchOf(terms[0]) == IfMx
    requires env.mx(domain).Found? && FailsFirst(env, env.mx(domain).value)
    ensures Check(env, depth, terms, domain) ==
      if CheckMx(env, domain) then Some(Verdict(Pass, domain)) else Check(env, depth, terms[1..], domain)
    ensures Troubled(env, sol, Directives(terms), domain)
    ensures forall r :: Decides(env, sol, Directives(terms), domain, r) ==> r == TempError
  {
    BranchExactly(terms[0]);
    FailsFirstMeans(env, env.mx(domain).value);
    FailedQueryEnds(env, sol, terms, domain);
  }

  // ----- the standard's answers exist -----

  // The leftmost directive that decides, computed
  ghost function Leftmost(env: Env, sol: string -> Result, ds: seq<Directive>, domain: string): Result {
    if ds == [] then Neutral
    else
      var e := EffectOf(env, sol, ds[0].m, domain);
      if e == NoMatch then Leftmost(env, sol, ds[1..], domain) else ResultOf(ds[0].q, e)
  }

  lemma {:induction false} LeftmostDecides(env: Env, sol: string -> Result, ds: seq<Directive>, domain: string)
    ensures Decides(env, sol, ds, domain, Leftmost(env, sol, ds, domain))
  {
    if ds != [] {
      assert ds == [ds[0]] + ds[1..];
      if EffectOf(env, sol, ds[0].m, domain) == NoMatch {
        LeftmostDecides(env, sol, ds[1..], domain);
        DecidesCons(env, sol, ds[0], ds[1..], domain, Leftmost(env, sol, ds[1..], domain));
      } else {
        assert Deciding(env, sol, ds, domain, 0);
      }
    }
  }

  /** check_host() with includes nested at most `depth` deep; deeper ones are taken to give nothing. */
  ghost function Standard(env: Env, depth: nat, domain: string): Result
    decreases depth, 0
  {
    match env.txt(domain)
    case NoName => NoResult
    case Failed => TempError
    case Found(records) =>
      var published := SpfRecords(records);
      if published == [] then NoResult
      else if |published| > 1 then PermError
      else
        assert published[0] in published;
        if depth == 0 || !AllParsed(StandardTerms(published[0])) then NoResult
        else Leftmost(env, StandardTo(env, depth - 1), Directives(StandardTerms(published[0])), domain)
  }

  ghost function StandardTo(env: Env, depth: nat): string -> Result
    decreases depth, 1
  {
    t => Standard(env, depth, t)
  }

  // In a ranked zone the standard evaluates the record the program takes.
  lemma StandardOfRecord(env: Env, zone: set<string>, rank: string -> nat, domain: string, depth: nat)
    requires RankedAt(env, zone, rank, domain) && HasRecord(env, domain) && depth > 0
    ensures var terms := RecordTerms(env, domain);
      AllParsed(terms) &&
      Standard(env, depth, domain) == Leftmost(env, StandardTo(env, depth - 1), Directives(terms), domain)
  {
    assert SpfRecords(env.txt(domain).value) == [FirstSpf(env.txt(domain).value)];
    SameTermsExactly(LookupSpf(env, domain).value);
    hide Terms, StandardTerms, Leftmost, FirstSpf, Handled, StandardTo;
  }

  // Without one its answer does not depend on the nesting.
  lemma StandardOfNothing(env: Env, zone: set<string>, rank: string -> nat, domain: string, depth: nat)
    requires RankedAt(env, zone, rank, domain) && !HasRecord(env, domain)
    ensures Standard(env, depth, domain) == if env.txt(domain).Failed? then TempError else NoResult
  {
  }

  lemma {:induction false} LeftmostSame(env: Env, sol1: string -> Result, sol2: string -> Result,
                                        ds: seq<Directive>, domain: string)
    requires forall i :: 0 <= i < |ds| && ds[i].m.Include? ==> sol1(ds[i].m.domain) == sol2(ds[i].m.domain)
    ensures Leftmost(env, sol1, ds, domain) == Leftmost(env, sol2, ds, domain)
  {
    if ds != [] {
      assert EffectOf(env, sol1, ds[0].m, domain) == EffectOf(env, sol2, ds[0].m, domain);
      LeftmostSame(env, sol1, sol2, ds[1..], domain);
    }
  }

  lemma {:induction false} DirectivesAt(terms: seq<string>, i: nat)
    requires AllParsed(terms) && i < |terms|
    ensures Directives(terms)[i] == ParseDirective(terms[i]).value
  {
    if i > 0 {
      DirectivesAt(terms[1..], i - 1);
    }
  }

  // Deeper nesting than the rank changes nothing.
  lemma {:induction false} StandardStable(env: Env, zone: set<string>, rank: string -> nat, domain: string, depth: nat)
    requires Ranked(env, zone, rank) && domain in zone && depth > rank(domain)
    ensures Standard(env, depth, domain) == Standard(env, rank(domain) + 1, domain)
    decreases rank(domain)
  {
    hide Check, Terms, RecordTerms, HasRecord, Troubled, Decides, RankedAt, SolvesAt;
    hide ParseDirective, Directives;
    hide Leftmost;
    assert RankedAt(env, zone, rank, domain);
    if HasRecord(env, domain) {
      StandardOfRecord(env, zone, rank, domain, depth);
      StandardOfRecord(env, zone, rank, domain, rank(domain) + 1);
      var terms := RecordTerms(env, domain);
      forall i | 0 <= i < |terms| && Directives(terms)[i].m.Include?
        ensures StandardTo(env, depth - 1)(Directives(terms)[i].m.domain)
          == StandardTo(env, rank(domain))(Directives(terms)[i].m.domain)
      {
        DirectivesAt(terms, i);
        assert RankedAt(env, zone, rank, domain);
        RankedIncludes(env, zone, rank, domain, i);
        var target := Directives(terms)[i].m.domain;
        StandardStable(env, zone, rank, target, depth - 1);
        StandardStable(env, zone, rank, target, rank(domain));
      }
      LeftmostSame(env, StandardTo(env, depth - 1), StandardTo(env, rank(domain)), Directives(terms), domain);
    } else {
      StandardOfNothing(env, zone, rank, domain, depth);
      StandardOfNothing(env, zone, rank, domain, rank(domain) + 1);
    }
  }

  ghost function Answer(env: Env, rank: string -> nat): string -> Result {
    d => Standard(env, rank(d) + 1, d)
  }

  lemma AnswerDecides(env: Env, zone: set<string>, rank: string -> nat, domain: string)
    requires Ranked(env, zone, rank) && domain in zone && HasRecord(env, domain)
    ensures AllParsed(RecordTerms(env, domain))
    ensures Decides(env, Answer(env, rank), Directives(RecordTerms(env, domain)), domain, Answer(env, rank)(domain))
  {
    hide Check, Terms, RecordTerms, HasRecord, Troubled, Decides, RankedAt, SolvesAt;
    hide ParseDirective, Directives;
    hide Leftmost;
    assert RankedAt(env, zone, rank, domain);
    var sol, terms, inner := Answer(env, rank), RecordTerms(env, domain), StandardTo(env, rank(domain));
    StandardOfRecord(env, zone, rank, domain, rank(domain) + 1);
    forall i | 0 <= i < |terms| && Directives(terms)[i].m.Include?
      ensures inner(Directives(terms)[i].m.domain) == sol(Directives(terms)[i].m.domain)
    {
      DirectivesAt(terms, i);
      assert RankedAt(env, zone, rank, domain);
      RankedIncludes(env, zone, rank, domain, i);
      StandardStable(env, zone, rank, Directives(terms)[i].m.domain, rank(domain));
    }
    LeftmostSame(env, inner, sol, Directives(terms), domain);
    LeftmostDecides(env, sol, Directives(terms), domain);
  }

  lemma AnswerSolvesAt(env: Env, zone: set<string>, rank: string -> nat, domain: string)
    requires Ranked(env, zone, rank) && domain in zone
    ensures SolvesAt(env, Answer(env, rank), domain)
  {
    assert RankedAt(env, zone, rank, domain);
    if HasRecord(env, domain) {
      AnswerDecides(env, zone, rank, domain);
      assert SpfRecords(env.txt(domain).value) == [FirstSpf(env.txt(domain).value)];
      SameTermsExactly(LookupSpf(env, domain).value);
      hide Terms, StandardTerms, Decides, FirstSpf, Handled, Answer;
    } else {
      StandardOfNothing(env, zone, rank, domain, rank(domain) + 1);
    }
  }

  /** Answers obeying the standard exist on every ranked zone. */
  lemma AnswersSolve(env: Env, zone: set<string>, rank: string -> nat)
    requires Ranked(env, zone, rank)
    ensures Solves(env, zone, Answer(env, rank))
  {
    forall d <- zone ensures SolvesAt(env, Answer(env, rank), d) {
      AnswerSolvesAt(env, zone, rank, d);
    }
  }

  // ----- directives that are not handled -----

  // A record of one term
  function OneTerm(term: string): string {
    "v=spf1" + (" " + term)
  }

  lemma OneTermRead(term: string)
    requires IsWord(term)
    ensures HasPrefix(OneTerm(term), "v=spf1") && Terms(OneTerm(term)) == [term]
  {
    hide WordLength;
    FieldsOfWord("v=spf1", " " + term);
    FieldsOfWord(term, "");
    assert (" " + term)[1..] == term && term + "" == term;
  }

  // A world in which every mechanism matches
  const WELCOMING := Env(
    _ => Found([OneTerm("all")]), _ => Found(["mx"]), _ => Found(["host"]), _ => true, _ => true)

  lemma WelcomingMatches(part: string, domain: string)
    requires ParseDirective(part).Some?
    ensures EffectOf(WELCOMING, _ => Pass, ParseDirective(part).value.m, domain) == Match
  {
    assert HasClient(WELCOMING, ["host"]) by {
      assert "host" in ["host"];
    }
    assert HostEffect(WELCOMING, "mx") == Match;
    hide ParseDirective;
  }

  lemma WelcomingInclude(target: string)
    ensures IncludeAgrees(WELCOMING, 1, _ => Pass, target)
  {
    OneTermRead("all");
    hide Terms, OneTerm;
    assert LookupSpf(WELCOMING, target) == Some(OneTerm("all"));
  }

  /** Where everything matches, a directive in front decides the record. The code agrees, whether `-all` or `+all`
      follows, exactly for handled directives: the others it skips, whether for their qualifier or their spelling. */
  lemma HandledExactly(part: string, domain: string)
    requires ParseDirective(part).Some?
    ensures var d := ParseDirective(part).value;
      Handled(part) <==>
      forall tail <- ["-all", "+all"] ::
        Check(WELCOMING, 1, [part, tail], domain) == Some(Verdict(Outcome(d.q), domain))
  {
    var d := ParseDirective(part).value;
    WelcomingMatches(part, domain);
    BranchExactly(part);
    hide ParseDirective, BranchFor;
    if Handled(part) {
      if d.m.Include? {
        WelcomingInclude(d.m.domain);
      }
      forall tail <- ["-all", "+all"]
        ensures Check(WELCOMING, 1, [part, tail], domain) == Some(Verdict(Outcome(d.q), domain))
      {
        FirstTerm(WELCOMING, 1, [part, tail], domain, _ => Pass);
      }
    } else {
      var tail := if d.q.Minus? then "+all" else "-all";
      assert tail in ["-all", "+all"];
      assert [part, tail][1..] == [tail];
      assert Check(WELCOMING, 1, [part, tail], domain) == Check(WELCOMING, 1, [tail], domain);
    }
  }

  // ----- when the evaluation ends -----

  ghost predicate NeverAnswers(env: Env, terms: seq<string>, domain: string) {
    forall depth: nat {:trigger Check(env, depth, terms, domain)} :: Check(env, depth, terms, domain) == None
  }

  ghost predicate Refuses(env: Env, depth: nat, target: string)
    requires HasRecord(env, target)
  {
    var v := Check(env, depth, RecordTerms(env, target), target);
    v.Some? && v.value.result != Pass
  }

  /** The evaluation gets past a term: it matches nothing, or it includes a domain without a record or with an answer
      other than pass. */
  ghost predicate PassedOver(env: Env, part: string, domain: string) {
    match BranchOf(part)
    case Always(_) => false
    case IfIp(spec, _) => !CheckIp(env, spec)
    case IfMx => !CheckMx(env, domain)
    case IfA => !CheckA(env, domain)
    case Skipped => true
    case Nested(target) => HasRecord(env, target) ==> exists depth: nat :: Refuses(env, depth, target)
  }

  /** Term i includes a member of the zone, and every term before it is passed over. */
  ghost predicate StuckAt(env: Env, zone: iset<string>, terms: seq<string>, domain: string, i: int) {
    && 0 <= i < |terms| && BranchOf(terms[i]).Nested? && BranchOf(terms[i]).target in zone
    && forall j :: 0 <= j < i ==> PassedOver(env, terms[j], domain)
  }

  ghost predicate StuckTerms(env: Env, zone: iset<string>, terms: seq<string>, domain: string) {
    exists i :: StuckAt(env, zone, terms, domain, i)
  }

  ghost predicate StuckDomain(env: Env, zone: iset<string>, domain: string) {
    HasRecord(env, domain) && StuckTerms(env, zone, RecordTerms(env, domain), domain)
  }

  ghost predicate Stuck(env: Env, zone: iset<string>) {
    forall d {:trigger StuckDomain(env, zone, d)} :: d in zone ==> StuckDomain(env, zone, d)
  }

  // The include of a domain that does not answer at one depth less does not answer.
  lemma NestedHead(env: Env, depth: nat, terms: seq<string>, target: string, domain: string)
    requires terms != [] && BranchOf(terms[0]) == Nested(target) && HasRecord(env, target)
    requires depth > 0 ==> Check(env, depth - 1, RecordTerms(env, target), target) == None
    ensures Check(env, depth, terms, domain) == None
  {
  }

  // A term that is passed over hands its evaluation on, or gives no answer at this depth.
  lemma PassedHead(env: Env, depth: nat, terms: seq<string>, domain: string)
    requires terms != [] && PassedOver(env, terms[0], domain)
    ensures var now := Check(env, depth, terms, domain); now == None || now == Check(env, depth, terms[1..], domain)
  {
    hide LookupSpf, Terms;
    var b := BranchOf(terms[0]);
    if b.Nested? && HasRecord(env, b.target) && depth > 0 {
      var k: nat :| Refuses(env, k, b.target);
      var terms' := RecordTerms(env, b.target);
      if Check(env, depth - 1, terms', b.target).Some? {
        if k <= depth - 1 {
          DepthIsStable(env, k, depth - 1, terms', b.target);
        } else {
          DepthIsStable(env, depth - 1, k, terms', b.target);
        }
      }
    }
    hide BranchOf;
  }

  lemma {:induction false} StuckNone(env: Env, depth: nat, terms: seq<string>, domain: string, target: string, i: nat)
    requires i < |terms| && BranchOf(terms[i]) == Nested(target) && HasRecord(env, target)
    requires forall j :: 0 <= j < i ==> PassedOver(env, terms[j], domain)
    requires depth > 0 ==> Check(env, depth - 1, RecordTerms(env, target), target) == None
    ensures Check(env, depth, terms, domain) == None
    decreases i
  {
    hide Check, BranchOf, PassedOver, LookupSpf;
    if i == 0 {
      NestedHead(env, depth, terms, target, domain);
    } else {
      PassedHead(env, depth, terms, domain);
      StuckNone(env, depth, terms[1..], domain, target, i - 1);
    }
  }

  lemma {:induction false} StuckDiverges(env: Env, zone: iset<string>, domain: string, depth: nat)
    requires Stuck(env, zone) && domain in zone
    ensures HasRecord(env, domain) && Check(env, depth, RecordTerms(env, domain), domain) == None
    decreases depth
  {
    hide Check, BranchOf, LookupSpf, PassedOver, HasRecord, RecordTerms;
    assert StuckDomain(env, zone, domain);
    var terms := RecordTerms(env, domain);
    var i :| StuckAt(env, zone, terms, domain, i);
    var target := BranchOf(terms[i]).target;
    assert StuckDomain(env, zone, target);
    if depth > 0 {
      StuckDiverges(env, zone, target, depth - 1);
    }
    hide Stuck, StuckDomain, StuckTerms;
    StuckNone(env, depth, terms, domain, target, i);
  }

  // Everything that is never answered
  ghost function Unanswered(env: Env): iset<string> {
    iset d | HasRecord(env, d) && NeverAnswers(env, RecordTerms(env, d), d)
  }

  lemma RefusedHead(env: Env, depth: nat, terms: seq<string>, target: string, domain: string)
    requires terms != [] && BranchOf(terms[0]) == Nested(target) && HasRecord(env, target)
    requires depth > 0 && Refuses(env, depth - 1, target)
    ensures Check(env, depth, terms, domain) == Check(env, depth, terms[1..], domain)
  {
  }

  // Past an include that answers other than pass, the rest would have to answer too.
  lemma LaterNone(env: Env, k: nat, depth: nat, terms: seq<string>, target: string, domain: string)
    requires NeverAnswers(env, terms, domain) && terms != [] && BranchOf(terms[0]) == Nested(target)
    requires HasRecord(env, target) && Refuses(env, k, target)
    ensures Check(env, depth, terms[1..], domain) == None
  {
    hide Check, LookupSpf, BranchOf, HasRecord, RecordTerms;
    var more := k + depth + 1;
    DepthIsStable(env, k, more - 1, RecordTerms(env, target), target);
    RefusedHead(env, more, terms, target, domain);
    if Check(env, depth, terms[1..], domain).Some? {
      DepthIsStable(env, depth, more, terms[1..], domain);
    }
  }

  // Terms never answered: the first one leads into the never-answered domains, or is passed over.
  lemma NeverHead(env: Env, terms: seq<string>, domain: string)
    requires NeverAnswers(env, terms, domain)
    ensures terms != []
    ensures var b := BranchOf(terms[0]);
      (b.Nested? && b.target in Unanswered(env)) ||
      (PassedOver(env, terms[0], domain) && NeverAnswers(env, terms[1..], domain))
  {
    assert Check(env, 0, terms, domain) == None;
    var b := BranchOf(terms[0]);
    if b.Nested? && HasRecord(env, b.target) {
      var inner := RecordTerms(env, b.target);
      if !NeverAnswers(env, inner, b.target) {
        var k: nat :| Check(env, k, inner, b.target).Some?;
        assert Check(env, k + 1, terms, domain) == None;
        assert Refuses(env, k, b.target);
        forall depth: nat ensures Check(env, depth, terms[1..], domain) == None {
          LaterNone(env, k, depth, terms, b.target, domain);
        }
      }
    } else {
      assert PassedOver(env, terms[0], domain);
      forall depth: nat ensures Check(env, depth, terms[1..], domain) == None {
        assert Check(env, depth, terms, domain) == None;
      }
    }
  }

  lemma {:induction false} NeverIsStuck(env: Env, terms: seq<string>, domain: string)
    requires NeverAnswers(env, terms, domain)
    ensures StuckTerms(env, Unanswered(env), terms, domain)
  {
    NeverHead(env, terms, domain);
    hide NeverAnswers, Unanswered, PassedOver;
    var b := BranchOf(terms[0]);
    if b.Nested? && b.target in Unanswered(env) {
      assert StuckAt(env, Unanswered(env), terms, domain, 0);
    } else {
      NeverIsStuck(env, terms[1..], domain);
      var i :| StuckAt(env, Unanswered(env), terms[1..], domain, i);
      assert forall j :: 0 < j <= i + 1 ==> terms[j] == terms[1..][j - 1];
      assert StuckAt(env, Unanswered(env), terms, domain, i + 1);
    }
  }

  ghost predicate Ensnared(env: Env, domain: string) {
    exists zone: iset<string> :: domain in zone && Stuck(env, zone)
  }

  /** The evaluation of a domain's record ends at no depth, so the unbounded recursion of the program never ends,
      exactly when the domain lies in a set of domains each of whose records comes, past terms that do not stop it, to
      an include of a member of the set. */
  lemma DivergesExactly(env: Env, domain: string)
    requires HasRecord(env, domain)
    ensures NeverAnswers(env, RecordTerms(env, domain), domain) <==> Ensnared(env, domain)
  {
    if NeverAnswers(env, RecordTerms(env, domain), domain) {
      forall d ensures d in Unanswered(env) ==> StuckDomain(env, Unanswered(env), d) {
        if d in Unanswered(env) {
          NeverIsStuck(env, RecordTerms(env, d), d);
        }
      }
      assert domain in Unanswered(env) && Stuck(env, Unanswered(env));
    }
    if Ensnared(env, domain) {
      var zone: iset<string> :| domain in zone && Stuck(env, zone);
      forall depth: nat ensures Check(env, depth, RecordTerms(env, domain), domain) == None {
        StuckDiverges(env, zone, domain, depth);
      }
    }
  }

  lemma IncludeBranch(target: string)
    ensures BranchOf("include:" + target) == Nested(target)
  {
    var s := "include:" + target;
    assert s[8..] == target && HasPrefix(s, "include:");
    SpelledBranch(s);
    assert s[0] == 'i' && s[2] == 'c';
  }

  /** The shortest such record, for any domain: one that includes the domain itself. */
  lemma SelfIncludeDiverges(env: Env, domain: string, depth: nat)
    requires IsWord(domain) && env.txt(domain) == Found([OneTerm("include:" + domain)])
    ensures HasRecord(env, domain) && Check(env, depth, RecordTerms(env, domain), domain) == None
  {
    var term := "include:" + domain;
    OneTermRead(term);
    IncludeBranch(domain);
    hide Terms, BranchOf, Check, PassedOver, OneTerm;
    assert RecordTerms(env, domain) == [term];
    assert StuckAt(env, iset{domain}, [term], domain, 0);
    assert StuckDomain(env, iset{domain}, domain);
    StuckDiverges(env, iset{domain}, domain, depth);
  }

  predicate Lower(env: Env, zone: set<string>, rank: string -> nat, b: Branch, top: nat) {
    b.Nested? && HasRecord(env, b.target) ==> b.target in zone && rank(b.target) < top
  }

  /** The terms include only domains without a record, or of lower rank in the zone. */
  ghost predicate GoesDown(env: Env, zone: set<string>, rank: string -> nat, terms: seq<string>, top: nat) {
    forall i :: 0 <= i < |terms| ==> Lower(env, zone, rank, BranchOf(terms[i]), top)
  }

  ghost predicate DomainGoesDown(env: Env, zone: set<string>, rank: string -> nat, domain: string) {
    HasRecord(env, domain) ==> GoesDown(env, zone, rank, RecordTerms(env, domain), rank(domain))
  }

  ghost predicate AllGoDown(env: Env, zone: set<string>, rank: string -> nat) {
    forall d {:trigger DomainGoesDown(env, zone, rank, d)} :: d in zone ==> DomainGoesDown(env, zone, rank, d)
  }

  lemma GoesDownRest(env: Env, zone: set<string>, rank: string -> nat, terms: seq<string>, top: nat)
    requires terms != [] && GoesDown(env, zone, rank, terms, top)
    ensures Lower(env, zone, rank, BranchOf(terms[0]), top) && GoesDown(env, zone, rank, terms[1..], top)
  {
    hide Lower, BranchOf;
    forall i | 0 <= i < |terms[1..]| ensures Lower(env, zone, rank, BranchOf(terms[1..][i]), top) {
      assert terms[1..][i] == terms[i + 1];
      assert Lower(env, zone, rank, BranchOf(terms[i + 1]), top);
    }
  }

  /** What the owners of records can see to: when includes of domains with a record go down in rank, every evaluation
      ends, at a nesting of the rank, whatever the other terms are. */
  lemma {:induction false} RankedIncludesEnd(env: Env, zone: set<string>, rank: string -> nat, domain: string)
    requires AllGoDown(env, zone, rank)
    requires domain in zone && HasRecord(env, domain)
    ensures Check(env, rank(domain), RecordTerms(env, domain), domain).Some?
    decreases rank(domain), 1, 0
  {
    assert DomainGoesDown(env, zone, rank, domain);
    TermsEnd(env, zone, rank, RecordTerms(env, domain), domain, rank(domain));
  }

  lemma {:induction false} TermsEnd(env: Env, zone: set<string>, rank: string -> nat, terms: seq<string>,
                                    domain: string, top: nat)
    requires AllGoDown(env, zone, rank)
    requires GoesDown(env, zone, rank, terms, top)
    ensures Check(env, top, terms, domain).Some?
    decreases top, 0, |terms|
  {
    hide BranchOf, GoesDown, LookupSpf, Terms;
    if terms != [] {
      var b := BranchOf(terms[0]);
      GoesDownRest(env, zone, rank, terms, top);
      TermsEnd(env, zone, rank, terms[1..], domain, top);
      if b.Nested? && HasRecord(env, b.target) {
        RankedIncludesEnd(env, zone, rank, b.target);
        DepthIsStable(env, rank(b.target), top - 1, RecordTerms(env, b.target), b.target);
      }
    }
  }
}

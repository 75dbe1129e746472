/** What one setup provides, when a second one changes nothing, and what both leave alone. */
module DnsProofs {
  import opened Text
  import opened Dns

  // ----- one upsert -----

  lemma {:induction false} FindReplaced(records: seq<Record>, id: nat, r: Record, kind: string, name: string)
    requires forall x <- records :: x.id == id ==> Fits(x, r.kind, r.name)
    ensures Find(Replaced(records, id, r), kind, name) ==
      if !Fits(r, kind, name) then Find(records, kind, name)
      else
        var e := Find(records, kind, name);
        if e.Some? && e.value.id == id then Some(r.(id := id)) else e
    decreases records
  {
    if records != [] {
      FindReplaced(records[1..], id, r, kind, name);
    }
  }

  lemma {:induction false} FindAppended(records: seq<Record>, x: Record, kind: string, name: string)
    ensures Find(records + [x], kind, name) ==
      var e := Find(records, kind, name); if e.Some? then e else if Fits(x, kind, name) then Some(x) else None
  {
    if records != [] {
      assert (records + [x])[1..] == records[1..] + [x];
      FindAppended(records[1..], x, kind, name);
    }
  }

  lemma {:induction false} ReplacedKeepsIds(records: seq<Record>, id: nat, r: Record)
    ensures |Replaced(records, id, r)| == |records|
    ensures forall i :: 0 <= i < |records| ==>
      Replaced(records, id, r)[i] == if records[i].id == id then r.(id := id) else records[i]
  {
    if records != [] {
      ReplacedKeepsIds(records[1..], id, r);
    }
  }

  lemma UniqueId(st: Store, a: Record, b: Record)
    requires Valid(st) && a in st.records && b in st.records && a.id == b.id
    ensures a == b
  {
  }

  /** After an upsert the first record under the wanted type and name holds the wanted data; what is found under any
      other type and name stays the same. */
  lemma UpsertFinds(st: Store, r: Record, kind: string, name: string)
    requires Valid(st)
    ensures var (before, after) := (Find(st.records, kind, name), Find(Upserted(st, r).records, kind, name));
      if Fits(r, kind, name) then after == Some(r.(id := if before.Some? then before.value.id else st.nextId))
      else after == before
  {
    var e := Find(st.records, r.kind, r.name);
    if e.Some? {
      forall x <- st.records | x.id == e.value.id ensures Fits(x, r.kind, r.name) {
        UniqueId(st, x, e.value);
      }
      FindReplaced(st.records, e.value.id, r, kind, name);
    } else {
      FindAppended(st.records, r.(id := st.nextId), kind, name);
    }
  }

  // With distinct ids the record found stands in the first place that fits.
  lemma {:induction false} FoundFirst(records: seq<Record>, kind: string, name: string, i: nat)
    requires DistinctIds(records) && i < |records| && Find(records, kind, name) == Some(records[i])
    ensures FirstAt(records, i, kind, name)
  {
    if i > 0 {
      assert records[0].id != records[i].id;
      assert !Fits(records[0], kind, name);
      FoundFirst(records[1..], kind, name, i - 1);
      assert forall j :: 0 < j <= i ==> records[j] == records[1..][j - 1];
    }
  }

  /** It takes the place of that first record and keeps its id, or comes last under a new one. */
  lemma UpsertInPlace(st: Store, r: Record)
    requires Valid(st)
    ensures var (before, after) := (st.records, Upserted(st, r).records);
      if exists x :: x in before && x.kind == r.kind && x.name == r.name then
        && |after| == |before|
        && forall i :: 0 <= i < |before| ==>
             after[i] == if FirstAt(before, i, r.kind, r.name) then r.(id := before[i].id) else before[i]
      else |after| == |before| + 1 && after[..|before|] == before && after[|before|] == r.(id := st.nextId)
  {
    var e := Find(st.records, r.kind, r.name);
    if e.Some? {
      ReplacedKeepsIds(st.records, e.value.id, r);
      forall i | 0 <= i < |st.records| && st.records[i].id == e.value.id
        ensures FirstAt(st.records, i, r.kind, r.name)
      {
        UniqueId(st, st.records[i], e.value);
        FoundFirst(st.records, r.kind, r.name, i);
      }
      assert e.value in st.records && Fits(e.value, r.kind, r.name);
    }
  }

  lemma UpsertValid(st: Store, r: Record)
    requires Valid(st)
    ensures Valid(Upserted(st, r)) && st.nextId <= Upserted(st, r).nextId
    ensures forall x <- Upserted(st, r).records ::
      x in st.records || (x == r.(id := x.id) && (x.id == st.nextId || exists y <- st.records :: y.id == x.id))
  {
    var e := Find(st.records, r.kind, r.name);
    if e.Some? {
      ReplacedKeepsIds(st.records, e.value.id, r);
    }
  }

  /** The first record under the wanted type and name is the wanted one. */
  predicate Settled(st: Store, w: Record) {
    var e := Find(st.records, w.kind, w.name);
    e.Some? && e.value == w.(id := e.value.id)
  }

  lemma {:induction false} ReplacedSame(records: seq<Record>, id: nat, r: Record)
    requires forall x <- records :: x.id == id ==> x == r.(id := id)
    ensures Replaced(records, id, r) == records
  {
    if records != [] {
      ReplacedSame(records[1..], id, r);
    }
  }

  lemma UpsertSettled(st: Store, w: Record)
    requires Valid(st) && Settled(st, w)
    ensures Upserted(st, w) == st
  {
    var e := Find(st.records, w.kind, w.name).value;
    forall x <- st.records | x.id == e.id ensures x == w.(id := e.id) {
      UniqueId(st, x, e);
    }
    ReplacedSame(st.records, e.id, w);
  }

  // ----- the whole list of wanted records -----

  ghost predicate DistinctKeys(wanted: seq<Record>) {
    forall i, j :: 0 <= i < j < |wanted| ==> !(wanted[i].kind == wanted[j].kind && wanted[i].name == wanted[j].name)
  }

  lemma WantedKeys(domain: string, host: string, ip: string)
    ensures DistinctKeys(Wanted(domain, host, ip))
    ensures forall w <- Wanted(domain, host, ip) :: w.kind != "A" ==> !Legacy(w, ip)
  {
  }

  lemma {:induction false} AllSettled(st: Store, wanted: seq<Record>)
    requires Valid(st) && DistinctKeys(wanted)
    ensures Valid(UpsertedAll(st, wanted)) && st.nextId <= UpsertedAll(st, wanted).nextId
    ensures forall i :: 0 <= i < |wanted| ==> Settled(UpsertedAll(st, wanted), wanted[i])
  {
    if wanted != [] {
      var n := |wanted| - 1;
      var before := UpsertedAll(st, wanted[..n]);
      AllSettled(st, wanted[..n]);
      UpsertValid(before, wanted[n]);
      forall i | 0 <= i < |wanted| ensures Settled(UpsertedAll(st, wanted), wanted[i]) {
        UpsertFinds(before, wanted[n], wanted[i].kind, wanted[i].name);
        assert i < n ==> Settled(before, wanted[..n][i]);
      }
    }
  }

  lemma {:induction false} SettledStays(st: Store, wanted: seq<Record>)
    requires Valid(st) && forall i :: 0 <= i < |wanted| ==> Settled(st, wanted[i])
    ensures UpsertedAll(st, wanted) == st
  {
    if wanted != [] {
      SettledStays(st, wanted[..|wanted| - 1]);
      UpsertSettled(st, wanted[|wanted| - 1]);
    }
  }

  // ----- cleanup -----

  lemma DistinctCons(r: Record, rest: seq<Record>)
    requires DistinctIds(rest) && forall x <- rest :: x.id != r.id
    ensures DistinctIds([r] + rest)
  {
    assert forall k :: 0 <= k < |rest| ==> rest[k] in rest;
  }

  lemma {:induction false} CleanedKeepsIds(records: seq<Record>, ip: string)
    requires DistinctIds(records)
    ensures DistinctIds(Cleaned(records, ip))
  {
    if records != [] {
      var rest := Cleaned(records[1..], ip);
      CleanedKeepsIds(records[1..], ip);
      CleanedIsPart(records[1..], ip);
      assert forall x <- records[1..] :: x.id != records[0].id;
      DistinctCons(records[0], rest);
      assert [] + rest == rest;
    }
  }

  lemma CleanedValid(st: Store, ip: string)
    requires Valid(st)
    ensures Valid(st.(records := Cleaned(st.records, ip)))
  {
    CleanedKeepsIds(st.records, ip);
    CleanedIsPart(st.records, ip);
    var c := Cleaned(st.records, ip);
    assert forall k :: 0 <= k < |c| ==> c[k] in c;
  }

  lemma {:induction false} CleanedNothing(records: seq<Record>, ip: string)
    requires forall r <- records :: !Legacy(r, ip)
    ensures Cleaned(records, ip) == records
  {
    if records != [] {
      CleanedNothing(records[1..], ip);
    }
  }

  lemma {:induction false} NoLegacyLeft(st: Store, wanted: seq<Record>, ip: string)
    requires Valid(st) && DistinctKeys(wanted)
    requires forall r <- st.records :: !Legacy(r, ip)
    requires forall w <- wanted :: !Legacy(w, ip)
    ensures forall r <- UpsertedAll(st, wanted).records :: !Legacy(r, ip)
  {
    if wanted != [] {
      var init, w := wanted[..|wanted| - 1], wanted[|wanted| - 1];
      NoLegacyLeft(st, init, ip);
      AllSettled(st, init);
      UpsertValid(UpsertedAll(st, init), w);
      assert w in wanted;
    }
  }

  lemma {:induction false} IdStaysAway(st: Store, wanted: seq<Record>, id: nat)
    requires Valid(st) && DistinctKeys(wanted) && id < st.nextId
    requires forall r <- st.records :: r.id != id
    ensures forall r <- UpsertedAll(st, wanted).records :: r.id != id
  {
    if wanted != [] {
      var init := wanted[..|wanted| - 1];
      IdStaysAway(st, init, id);
      AllSettled(st, init);
      UpsertValid(UpsertedAll(st, init), wanted[|wanted| - 1]);
    }
  }

  // ----- the setup -----

  /** After one run the first record for each wanted type and name holds the wanted data. */
  lemma SetupProvides(st: Store, domain: string, host: string, ip: string, w: Record)
    requires Valid(st) && w in Wanted(domain, host, ip)
    ensures Valid(Setup(st, domain, host, ip)) && Settled(Setup(st, domain, host, ip), w)
  {
    CleanedValid(st, ip);
    WantedKeys(domain, host, ip);
    AllSettled(st.(records := Cleaned(st.records, ip)), Wanted(domain, host, ip));
  }

  /** Cleanup would delete the record of the mail host: it lies in the domain under a name that does not look
      mail-related. */
  predicate HostLooksLegacy(domain: string, host: string) {
    HasSuffix(host, "." + domain) && Subdomain(domain, host) != "@" && !HasPrefix(Subdomain(domain, host), "mail")
  }

  lemma HostRecord(domain: string, host: string, ip: string)
    ensures HostLooksLegacy(domain, host) <==> exists w :: w in Wanted(domain, host, ip) && Legacy(w, ip)
  {
    var sub := Subdomain(domain, host);
    if HostLooksLegacy(domain, host) {
      assert Wanted(domain, host, ip)[0] == Wish("A", sub, ip, 0);
      assert Legacy(Wanted(domain, host, ip)[0], ip);
    }
  }

  lemma MailRecordReplaced(once: Store, wanted: seq<Record>, ip: string)
    requires Valid(once) && DistinctKeys(wanted)
    requires forall i :: 0 <= i < |wanted| ==> Settled(once, wanted[i])
    requires exists w :: w in wanted && Legacy(w, ip)
    ensures UpsertedAll(once.(records := Cleaned(once.records, ip)), wanted) != once
  {
    var w :| w in wanted && Legacy(w, ip);
    var e := Find(once.records, w.kind, w.name).value;
    var clean := once.(records := Cleaned(once.records, ip));
    CleanedValid(once, ip);
    CleanedIsPart(once.records, ip);
    forall r <- clean.records ensures r.id != e.id {
      if r.id == e.id {
        UniqueId(once, r, e);
      }
    }
    IdStaysAway(clean, wanted, e.id);
  }

  /** A second run leaves the records as the first left them exactly when the mail host's own record does not look
      like a legacy one; otherwise every run deletes it and makes it again. */
  lemma SetupIdempotentExactly(st: Store, domain: string, host: string, ip: string)
    requires Valid(st)
    ensures var once := Setup(st, domain, host, ip);
      Setup(once, domain, host, ip) == once <==> !HostLooksLegacy(domain, host)
  {
    var wanted := Wanted(domain, host, ip);
    var clean := st.(records := Cleaned(st.records, ip));
    var once := UpsertedAll(clean, wanted);
    CleanedValid(st, ip);
    CleanedIsPart(st.records, ip);
    WantedKeys(domain, host, ip);
    AllSettled(clean, wanted);
    HostRecord(domain, host, ip);
    if HostLooksLegacy(domain, host) {
      MailRecordReplaced(once, wanted, ip);
    } else {
      NoLegacyLeft(clean, wanted, ip);
      CleanedNothing(once.records, ip);
      SettledStays(once, wanted);
    }
  }

  // ----- everything else -----

  predicate IsOther(r: Record, wanted: seq<Record>, ip: string) {
    !Legacy(r, ip) && forall w <- wanted :: !Fits(r, w.kind, w.name)
  }

  function Others(records: seq<Record>, wanted: seq<Record>, ip: string): seq<Record> {
    if records == [] then []
    else (if IsOther(records[0], wanted, ip) then [records[0]] else []) + Others(records[1..], wanted, ip)
  }

  lemma {:induction false} OthersAfterCleaning(records: seq<Record>, wanted: seq<Record>, ip: string)
    ensures Others(Cleaned(records, ip), wanted, ip) == Others(records, wanted, ip)
  {
    if records != [] {
      OthersAfterCleaning(records[1..], wanted, ip);
      var rest := Cleaned(records[1..], ip);
      assert ([records[0]] + rest)[1..] == rest && [] + rest == rest;
      assert Legacy(records[0], ip) ==> !IsOther(records[0], wanted, ip);
    }
  }

  lemma {:induction false} OthersAfterReplacing(records: seq<Record>, id: nat, w: Record, wanted: seq<Record>,
                                                ip: string)
    requires w in wanted && forall x <- records :: x.id == id ==> Fits(x, w.kind, w.name)
    ensures Others(Replaced(records, id, w), wanted, ip) == Others(records, wanted, ip)
  {
    if records != [] {
      OthersAfterReplacing(records[1..], id, w, wanted, ip);
    }
  }

  lemma {:induction false} OthersAfterAppending(records: seq<Record>, x: Record, wanted: seq<Record>, ip: string)
    requires !IsOther(x, wanted, ip)
    ensures Others(records + [x], wanted, ip) == Others(records, wanted, ip)
  {
    if records != [] {
      assert (records + [x])[1..] == records[1..] + [x];
      OthersAfterAppending(records[1..], x, wanted, ip);
    }
  }

  lemma OthersAfterUpsert(st: Store, w: Record, wanted: seq<Record>, ip: string)
    requires Valid(st) && w in wanted
    ensures Others(Upserted(st, w).records, wanted, ip) == Others(st.records, wanted, ip)
  {
    var e := Find(st.records, w.kind, w.name);
    if e.Some? {
      forall x <- st.records | x.id == e.value.id ensures Fits(x, w.kind, w.name) {
        UniqueId(st, x, e.value);
      }
      OthersAfterReplacing(st.records, e.value.id, w, wanted, ip);
    } else {
      OthersAfterAppending(st.records, w.(id := st.nextId), wanted, ip);
    }
  }

  lemma {:induction false} OthersAfterAll(st: Store, some: seq<Record>, wanted: seq<Record>, ip: string)
    requires Valid(st) && DistinctKeys(some) && forall w <- some :: w in wanted
    ensures Others(UpsertedAll(st, some).records, wanted, ip) == Others(st.records, wanted, ip)
  {
    if some != [] {
      var init, w := some[..|some| - 1], some[|some| - 1];
      assert w in some;
      OthersAfterAll(st, init, wanted, ip);
      AllSettled(st, init);
      OthersAfterUpsert(UpsertedAll(st, init), w, wanted, ip);
    }
  }

  /** An A record of this server under a name that is neither the domain's own nor starts with mail. */
  predicate UpForCleanup(r: Record, ip: string) {
    r.kind == "A" && r.data == ip && r.name != "@" && !("mail" <= r.name)
  }

  /** The four places a setup writes to, the first only for a host inside the domain. */
  predicate Written(domain: string, host: string, kind: string, name: string) {
    || (kind == "A" && host == name + "." + domain)
    || (kind == "MX" && name == "@")
    || (kind == "TXT" && (name == "@" || name == "_dmarc"))
  }

  lemma HostInside(domain: string, host: string, name: string)
    ensures host == name + "." + domain <==> Subdomain(domain, host) == name && name != host
  {
    if host == name + "." + domain {
      assert host[..|name|] == name && host[|name|..] == "." + domain;
    } else if HasSuffix(host, "." + domain) {
      assert host == Subdomain(domain, host) + ("." + domain);
      assert Subdomain(domain, host) + ("." + domain) == Subdomain(domain, host) + "." + domain;
    }
  }

  lemma WrittenIsWanted(domain: string, host: string, ip: string, kind: string, name: string)
    ensures Written(domain, host, kind, name) <==>
      exists w :: w in Wanted(domain, host, ip) && w.kind == kind && w.name == name
  {
    HostInside(domain, host, name);
    var wanted := Wanted(domain, host, ip);
    var n := |wanted|;
    assert wanted[n - 3] in wanted && wanted[n - 2] in wanted && wanted[n - 1] in wanted && wanted[0] in wanted;
  }

  /** The records a setup has no business with, in order. */
  function Untouched(records: seq<Record>, domain: string, host: string, ip: string): seq<Record> {
    if records == [] then []
    else
      (if UpForCleanup(records[0], ip) || Written(domain, host, records[0].kind, records[0].name) then []
       else [records[0]]) + Untouched(records[1..], domain, host, ip)
  }

  lemma {:induction false} UntouchedAreOthers(records: seq<Record>, domain: string, host: string, ip: string)
    ensures Untouched(records, domain, host, ip) == Others(records, Wanted(domain, host, ip), ip)
  {
    if records != [] {
      WrittenIsWanted(domain, host, ip, records[0].kind, records[0].name);
      hide Wanted, Written;
      UntouchedAreOthers(records[1..], domain, host, ip);
    }
  }

  /** Records that are neither written nor up for cleanup keep their value and their order. */
  lemma SetupKeepsOthers(st: Store, domain: string, host: string, ip: string)
    requires Valid(st)
    ensures Untouched(Setup(st, domain, host, ip).records, domain, host, ip)
      == Untouched(st.records, domain, host, ip)
  {
    var wanted := Wanted(domain, host, ip);
    CleanedValid(st, ip);
    WantedKeys(domain, host, ip);
    OthersAfterCleaning(st.records, wanted, ip);
    OthersAfterAll(st.(records := Cleaned(st.records, ip)), wanted, wanted, ip);
    UntouchedAreOthers(st.records, domain, host, ip);
    UntouchedAreOthers(Setup(st, domain, host, ip).records, domain, host, ip);
  }

  /** A record that was up for cleanup is gone, under whatever name another one is made. */
  lemma SetupCleansUp(st: Store, domain: string, host: string, ip: string, r: Record)
    requires Valid(st) && r in st.records && UpForCleanup(r, ip)
    ensures forall x <- Setup(st, domain, host, ip).records :: x.id != r.id
  {
    var clean := st.(records := Cleaned(st.records, ip));
    CleanedValid(st, ip);
    CleanedIsPart(st.records, ip);
    WantedKeys(domain, host, ip);
    forall x <- clean.records ensures x.id != r.id {
      if x.id == r.id {
        UniqueId(st, x, r);
      }
    }
    IdStaysAway(clean, Wanted(domain, host, ip), r.id);
  }

  lemma {:induction false} OnlyWantedAdded(st: Store, wanted: seq<Record>)
    requires Valid(st) && DistinctKeys(wanted)
    ensures forall x <- UpsertedAll(st, wanted).records ::
      x in st.records || exists w :: w in wanted && x == w.(id := x.id)
  {
    if wanted != [] {
      var init, w := wanted[..|wanted| - 1], wanted[|wanted| - 1];
      OnlyWantedAdded(st, init);
      AllSettled(st, init);
      UpsertValid(UpsertedAll(st, init), w);
      assert w in wanted && forall v <- init :: v in wanted;
    }
  }

  /** Nothing is there after a setup but records from before and the ones it publishes. */
  lemma SetupAddsNothingElse(st: Store, domain: string, host: string, ip: string)
    requires Valid(st)
    ensures forall x <- Setup(st, domain, host, ip).records ::
      (x in st.records && !UpForCleanup(x, ip)) || Written(domain, host, x.kind, x.name)
  {
    var wanted := Wanted(domain, host, ip);
    CleanedValid(st, ip);
    CleanedIsPart(st.records, ip);
    WantedKeys(domain, host, ip);
    OnlyWantedAdded(st.(records := Cleaned(st.records, ip)), wanted);
    hide Wanted, Valid, Cleaned;
    forall x <- Setup(st, domain, host, ip).records
      ensures (x in st.records && !UpForCleanup(x, ip)) || Written(domain, host, x.kind, x.name)
    {
      WrittenIsWanted(domain, host, ip, x.kind, x.name);
    }
  }

  /** A record of this kind, name, data and priority, that lives for thirty seconds. */
  predicate Publishes(r: Option<Record>, kind: string, name: string, data: string, priority: int) {
    r.Some? && r.value == Record(r.value.id, kind, name, data, priority, 0, 30, 0, 0, "")
  }

  /** What the world finds after one setup: the mail host as exchanger, the policies for senders, and, for a host inside
      the domain, its address. */
  lemma SetupPublishes(st: Store, domain: string, host: string, ip: string)
    requires Valid(st)
    ensures var found := (kind, name) => Find(Setup(st, domain, host, ip).records, kind, name);
      && Publishes(found("MX", "@"), "MX", "@", host + ".", 10)
      && Publishes(found("TXT", "@"), "TXT", "@", "v=spf1 mx a:" + host + " ~all", 0)
      && Publishes(found("TXT", "_dmarc"), "TXT", "_dmarc", "v=DMARC1; p=none; rua=mailto:postmaster@" + domain, 0)
    ensures forall name :: host == name + "." + domain ==>
      Publishes(Find(Setup(st, domain, host, ip).records, "A", name), "A", name, ip, 0)
  {
    var wanted := Wanted(domain, host, ip);
    var n := |wanted|;
    SetupProvides(st, domain, host, ip, wanted[n - 3]);
    SetupProvides(st, domain, host, ip, wanted[n - 2]);
    SetupProvides(st, domain, host, ip, wanted[n - 1]);
    forall name | host == name + "." + domain
      ensures Publishes(Find(Setup(st, domain, host, ip).records, "A", name), "A", name, ip, 0)
    {
      HostInside(domain, host, name);
      SetupProvides(st, domain, host, ip, wanted[0]);
    }
  }

  /** A mail host called smtp is such a host: its record never settles. */
  lemma SmtpHostNeverSettles(st: Store, domain: string, ip: string)
    requires Valid(st)
    ensures var once := Setup(st, domain, "smtp." + domain, ip);
      Setup(once, domain, "smtp." + domain, ip) != once
  {
    var host := "smtp." + domain;
    assert host[4..] == "." + domain && host[..4] == "smtp";
    assert HasSuffix(host, "." + domain) && Subdomain(domain, host) == "smtp";
    assert "smtp"[0] != "mail"[0];
    SetupIdempotentExactly(st, domain, host, ip);
  }
}

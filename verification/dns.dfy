/** Reconciling a zone's DNS records with what a mail server needs (internal/digitalocean/dns.go). The provider is
    modelled as an ordered store: POST appends under a fresh id, PUT replaces the record with an id, DELETE removes
    it. All calls succeed and a zone fits one page. */
module Dns {
  import opened Text

  datatype Record = Record(id: nat, kind: string, name: string, data: string, priority: int, port: int, ttl: int,
                           weight: int, flags: int, tag: string)

  /** A record as the program builds it, without an id. */
  function Wish(kind: string, name: string, data: string, priority: int): Record {
    Record(0, kind, name, data, priority, 0, 30, 0, 0, "")
  }

  datatype Store = Store(records: seq<Record>, nextId: nat)

  // ----- the provider's calls -----

  function Created(st: Store, r: Record): Store {
    Store(st.records + [r.(id := st.nextId)], st.nextId + 1)
  }

  function Replaced(records: seq<Record>, id: nat, r: Record): seq<Record> {
    if records == [] then []
    else [if records[0].id == id then r.(id := id) else records[0]] + Replaced(records[1..], id, r)
  }

  function Deleted(records: seq<Record>, id: nat): seq<Record> {
    if records == [] then []
    else (if records[0].id == id then [] else [records[0]]) + Deleted(records[1..], id)
  }

  predicate DistinctIds(records: seq<Record>) {
    forall i, j :: 0 <= i < j < |records| ==> records[i].id != records[j].id
  }

  /** What the provider keeps true of ids. */
  predicate Valid(st: Store) {
    DistinctIds(st.records) && forall i :: 0 <= i < |st.records| ==> st.records[i].id < st.nextId
  }

  // ----- the program's decisions -----

  predicate Fits(r: Record, kind: string, name: string) {
    r.kind == kind && r.name == name
  }

  /** Record i is the first of this kind and name. */
  predicate FirstAt(records: seq<Record>, i: int, kind: string, name: string) {
    0 <= i < |records| && Fits(records[i], kind, name) && forall j :: 0 <= j < i ==> !Fits(records[j], kind, name)
  }

  function Find(records: seq<Record>, kind: string, name: string): (r: Option<Record>)
    ensures r.Some? ==> r.value in records && Fits(r.value, kind, name)
    ensures r.None? <==> forall x <- records :: !Fits(x, kind, name)
    ensures forall i {:trigger FirstAt(records, i, kind, name)} ::
      FirstAt(records, i, kind, name) ==> r == Some(records[i])
  {
    if records == [] then None
    else if Fits(records[0], kind, name) then Some(records[0])
    else
      assert forall i {:trigger FirstAt(records, i, kind, name)} ::
        FirstAt(records, i, kind, name) ==> FirstAt(records[1..], i - 1, kind, name);
      Find(records[1..], kind, name)
  }

  function Upserted(st: Store, r: Record): Store {
    var existing := Find(st.records, r.kind, r.name);
    if existing.Some? then st.(records := Replaced(st.records, existing.value.id, r)) else Created(st, r)
  }

  /** An A record for this server under a name that is not mail-related. */
  predicate Legacy(r: Record, ip: string) {
    r.kind == "A" && r.data == ip && r.name != "@" && !HasPrefix(r.name, "mail")
  }

  function Cleaned(records: seq<Record>, ip: string): seq<Record> {
    if records == [] then []
    else (if Legacy(records[0], ip) then [] else [records[0]]) + Cleaned(records[1..], ip)
  }

  // The host name inside the domain, or all of it when it lies elsewhere
  function Subdomain(domain: string, host: string): string {
    if HasSuffix(host, "." + domain) then host[..|host| - |domain| - 1] else host
  }

  function Wanted(domain: string, host: string, ip: string): seq<Record> {
    var sub := Subdomain(domain, host);
    (if sub != host then [Wish("A", sub, ip, 0)] else []) + [
      Wish("MX", "@", host + ".", 10),
      Wish("TXT", "@", "v=spf1 mx a:" + host + " ~all", 0),
      Wish("TXT", "_dmarc", "v=DMARC1; p=none; rua=mailto:postmaster@" + domain, 0)]
  }

  function UpsertedAll(st: Store, wanted: seq<Record>): Store {
    if wanted == [] then st else Upserted(UpsertedAll(st, wanted[..|wanted| - 1]), wanted[|wanted| - 1])
  }

  /** SetupMailDNS on a domain that exists. */
  function Setup(st: Store, domain: string, host: string, ip: string): Store {
    UpsertedAll(st.(records := Cleaned(st.records, ip)), Wanted(domain, host, ip))
  }

  lemma {:induction false} ReplacedSets(records: seq<Record>, id: nat, r: Record)
    ensures Replaced(records, id, r.(id := id)) == Replaced(records, id, r)
  {
    hide Legacy, Deleted;
    if records != [] {
      ReplacedSets(records[1..], id, r);
    }
  }

  lemma {:induction false} CleanedAppend(a: seq<Record>, b: seq<Record>, ip: string)
    ensures Cleaned(a + b, ip) == Cleaned(a, ip) + Cleaned(b, ip)
  {
    if a == [] {
      assert a + b == b;
    } else {
      assert (a + b)[1..] == a[1..] + b;
      CleanedAppend(a[1..], b, ip);
    }
  }

  lemma {:induction false} CleanedIsPart(records: seq<Record>, ip: string)
    ensures forall r :: r in Cleaned(records, ip) <==> r in records && !Legacy(r, ip)
  {
    if records != [] {
      CleanedIsPart(records[1..], ip);
      assert forall r :: r in records <==> r == records[0] || r in records[1..];
    }
  }

  lemma FrontHasOtherIds(snapshot: seq<Record>, i: nat, ip: string)
    requires i < |snapshot|
    requires DistinctIds(snapshot)
    ensures forall r <- Cleaned(snapshot[..i], ip) :: r.id != snapshot[i].id
    ensures forall r <- snapshot[i + 1..] :: r.id != snapshot[i].id
  {
    CleanedIsPart(snapshot[..i], ip);
  }

  lemma CleanedOne(r: Record, ip: string)
    ensures Cleaned([r], ip) == if Legacy(r, ip) then [] else [r]
  {
  }

  lemma {:induction false} DeletedAbsent(records: seq<Record>, id: nat)
    requires forall r <- records :: r.id != id
    ensures Deleted(records, id) == records
  {
    if records != [] {
      DeletedAbsent(records[1..], id);
    }
  }

  lemma {:induction false} DeletedAppend(a: seq<Record>, b: seq<Record>, id: nat)
    ensures Deleted(a + b, id) == Deleted(a, id) + Deleted(b, id)
  {
    if a == [] {
      assert a + b == b;
    } else {
      assert (a + b)[1..] == a[1..] + b;
      DeletedAppend(a[1..], b, id);
    }
  }

  lemma DeletedAround(front: seq<Record>, r: Record, back: seq<Record>)
    requires forall x <- front :: x.id != r.id
    requires forall x <- back :: x.id != r.id
    ensures Deleted(front + ([r] + back), r.id) == front + back
  {
    DeletedAppend(front, [r] + back, r.id);
    DeletedAbsent(front, r.id);
    DeletedAbsent(back, r.id);
    assert ([r] + back)[1..] == back;
  }

  // One round of the deletion loop: with distinct ids, deleting by id takes out the one record.
  lemma CleanedStep(snapshot: seq<Record>, i: nat, ip: string)
    requires i < |snapshot|
    requires DistinctIds(snapshot)
    ensures var (now, r) := (Cleaned(snapshot[..i], ip) + snapshot[i..], snapshot[i]);
      Cleaned(snapshot[..i + 1], ip) + snapshot[i + 1..] == if Legacy(r, ip) then Deleted(now, r.id) else now
  {
    var front, r, back := Cleaned(snapshot[..i], ip), snapshot[i], snapshot[i + 1..];
    assert snapshot[..i + 1] == snapshot[..i] + [r];
    assert snapshot[i..] == [r] + back;
    CleanedAppend(snapshot[..i], [r], ip);
    CleanedOne(r, ip);
    FrontHasOtherIds(snapshot, i, ip);
    DeletedAround(front, r, back);
    assert front + [] == front && front + [r] + back == front + ([r] + back);
  }

  class Client {
    var records: seq<Record>
    var nextId: nat

    ghost function View(): Store
      reads this
    {
      Store(records, nextId)
    }

    method FindDNSRecord(kind: string, name: string) returns (r: Option<Record>)
      ensures r == Find(records, kind, name)
    {
      for i := 0 to |records|
        invariant Find(records[i..], kind, name) == Find(records, kind, name)
      {
        assert records[i..][1..] == records[i + 1..];
        if records[i].kind == kind && records[i].name == name {
          return Some(records[i]);
        }
      }
      return None;
    }

    method UpsertDNSRecord(r: Record)
      modifies this
      ensures View() == Upserted(old(View()), r)
    {
      var existing := FindDNSRecord(r.kind, r.name);
      if existing.Some? {
        records := Replaced(records, existing.value.id, r.(id := existing.value.id));
        ReplacedSets(old(records), existing.value.id, r);
      } else {
        records, nextId := records + [r.(id := nextId)], nextId + 1;
      }
    }

    method CleanupLegacyARecords(ip: string)
      requires Valid(View())
      modifies this`records
      ensures records == Cleaned(old(records), ip)
    {
      var snapshot := records;
      for i := 0 to |snapshot|
        invariant records == Cleaned(snapshot[..i], ip) + snapshot[i..]
      {
        var record := snapshot[i];
        CleanedStep(snapshot, i, ip);
        if record.kind == "A" && record.data == ip {
          if record.name == "@" || HasPrefix(record.name, "mail") {
            continue;
          }
          records := Deleted(records, record.id);
        }
      }
      assert snapshot[..|snapshot|] == snapshot;
    }

    method SetupMailDNS(domain: string, host: string, ip: string)
      requires Valid(View())
      modifies this
      ensures View() == Setup(old(View()), domain, host, ip)
    {
      hide Upserted, Cleaned;
      CleanupLegacyARecords(ip);
      ghost var cleaned := View();
      var sub := Subdomain(domain, host);
      ghost var wanted := [];
      if sub != host {
        UpsertDNSRecord(Wish("A", sub, ip, 0));
        wanted := [Wish("A", sub, ip, 0)];
        assert wanted[..0] == [];
      }
      wanted := UpsertOne(cleaned, wanted, Wish("MX", "@", host + ".", 10));
      wanted := UpsertOne(cleaned, wanted, Wish("TXT", "@", "v=spf1 mx a:" + host + " ~all", 0));
      wanted := UpsertOne(cleaned, wanted,
                          Wish("TXT", "_dmarc", "v=DMARC1; p=none; rua=mailto:postmaster@" + domain, 0));
      assert wanted == Wanted(domain, host, ip);
    }

    // An upsert, keeping account of the ones before it
    method UpsertOne(ghost start: Store, ghost before: seq<Record>, r: Record) returns (ghost after: seq<Record>)
      requires View() == UpsertedAll(start, before)
      modifies this
      ensures after == before + [r] && View() == UpsertedAll(start, after)
    {
      UpsertDNSRecord(r);
      after := before + [r];
      assert after[..|after| - 1] == before;
    }
  }
}

/** The list of mail domains: a text file mirrored into a Postfix setting (internal/postfix/manager.go), and the
    installer's writes to the same two places (internal/postfix/installer.go). */
module Postfix {
  import opened Text

  // ----- reading the file -----

  function DropCR(line: string): string {
    if line != [] && line[|line| - 1] == '\r' then line[..|line| - 1] else line
  }

  /** The lines a bufio.Scanner yields: without their ends, and no empty line after the last newline. */
  function ScanLines(text: string): seq<string>
    decreases |text|
  {
    if text == [] then []
    else
      var n := LineEnd(text);
      [DropCR(text[..n])] + if n < |text| then ScanLines(text[n + 1..]) else []
  }

  predicate IsEntry(line: string) {
    Trim(line) != "" && !HasPrefix(Trim(line), "#")
  }

  /** The trimmed lines that are neither blank nor comments. */
  function Entries(lines: seq<string>): seq<string> {
    if lines == [] then []
    else (if IsEntry(lines[0]) then [Trim(lines[0])] else []) + Entries(lines[1..])
  }

  function Listed(text: string): seq<string> {
    Entries(ScanLines(text))
  }

  // ----- the two places and the three ways they change -----

  datatype State = State(file: string, setting: string)

  // The value for virtual_mailbox_domains, which may not be empty
  function Render(domains: seq<string>): string {
    if domains == [] then "localhost" else Join(domains, " ")
  }

  function Print(domains: seq<string>): string {
    if domains == [] then "" else Join(domains, "\n") + "\n"
  }

  function Without(domains: seq<string>, domain: string): seq<string> {
    if domains == [] then []
    else (if domains[0] != domain then [domains[0]] else []) + Without(domains[1..], domain)
  }

  /** `ok` says whether postconf succeeds. */
  function Added(s: State, domain: string, ok: bool): State {
    var domains := Listed(s.file);
    if domain in domains then s
    else State(s.file + domain + "\n", if ok then Join(domains + [domain], " ") else s.setting)
  }

  function Removed(s: State, domain: string, ok: bool): State {
    var domains := Listed(s.file);
    var rest := Without(domains, domain);
    if domain !in domains then s
    else State(Print(rest), if ok then Render(rest) else s.setting)
  }

  function Updated(s: State, primary: string, ok: bool): State {
    var domains := Entries(Split(s.file, '\n'));
    if primary in domains then s
    else State(Print(domains + [primary]), if ok then Join(domains + [primary], " ") else s.setting)
  }

  datatype Outcome = Done | NotFound | PostconfFailed

  method ReadEntries(lines: seq<string>) returns (domains: seq<string>)
    ensures domains == Entries(lines)
  {
    hide Trim;
    domains := [];
    for i := 0 to |lines|
      invariant domains + Entries(lines[i..]) == Entries(lines)
    {
      ghost var later := Entries(lines[i + 1..]);
      var domain := Trim(lines[i]);
      assert lines[i..][1..] == lines[i + 1..];
      Reassociate(domains, [domain], later);
      if domain != "" && !HasPrefix(domain, "#") {
        domains := domains + [domain];
      }
    }
  }

  method Filter(domains: seq<string>, domain: string) returns (rest: seq<string>, found: bool)
    ensures rest == Without(domains, domain) && (found <==> domain in domains)
  {
    rest, found := [], false;
    for i := 0 to |domains|
      invariant rest + Without(domains[i..], domain) == Without(domains, domain)
      invariant found <==> domain in domains[..i]
    {
      ghost var later := Without(domains[i + 1..], domain);
      assert domains[..i + 1] == domains[..i] + [domains[i]] && domains[i..][1..] == domains[i + 1..];
      Reassociate(rest, [domains[i]], later);
      if domains[i] != domain {
        rest := rest + [domains[i]];
      } else {
        found := true;
      }
    }
    assert domains[..|domains|] == domains;
  }

  method Contains(domains: seq<string>, domain: string) returns (found: bool)
    ensures found <==> domain in domains
  {
    for i := 0 to |domains|
      invariant domain !in domains[..i]
    {
      if domains[i] == domain {
        return true;
      }
      assert domains[..i + 1] == domains[..i] + [domains[i]];
    }
    assert domains[..|domains|] == domains;
    return false;
  }

  lemma {:induction false} EntriesAreNotEmpty(lines: seq<string>)
    ensures forall d <- Entries(lines) :: d != ""
  {
    if lines != [] {
      EntriesAreNotEmpty(lines[1..]);
    }
  }

  lemma {:induction false} WithoutIsPart(domains: seq<string>, domain: string)
    ensures forall d :: d in Without(domains, domain) <==> d in domains && d != domain
  {
    if domains != [] {
      WithoutIsPart(domains[1..], domain);
      assert forall d :: d in domains <==> d == domains[0] || d in domains[1..];
    }
  }

  // Only a list without domains joins to nothing.
  lemma RestIsNotBlank(text: string, domain: string)
    ensures var rest := Without(Listed(text), domain); Join(rest, " ") == "" <==> rest == []
  {
    var rest := Without(Listed(text), domain);
    EntriesAreNotEmpty(ScanLines(text));
    WithoutIsPart(Listed(text), domain);
    assert rest != [] ==> rest[0] in rest && rest[0] != "";
  }

  class DomainManager {
    var file: string
    var setting: string

    /** As configurePostfix leaves a new installation. */
    constructor (primary: string)
      ensures View() == State(primary + "\n", primary)
    {
      file, setting := primary + "\n", primary;
    }

    ghost function View(): State
      reads this
    {
      State(file, setting)
    }

    method ListDomains() returns (domains: seq<string>)
      ensures domains == Listed(file)
    {
      var lines := ScanLines(file);
      domains := ReadEntries(lines);
    }

    method AddDomain(domain: string, postconf: bool) returns (r: Outcome)
      modifies this
      ensures View() == Added(old(View()), domain, postconf)
      ensures r == if domain in Listed(old(file)) || postconf then Done else PostconfFailed
    {
      var domains := ListDomains();
      var found := Contains(domains, domain);
      if found {
        return Done;
      }
      file := file + domain + "\n";
      domains := domains + [domain];
      if !postconf {
        return PostconfFailed;
      }
      setting := Join(domains, " ");
      return Done;
    }

    method RemoveDomain(domain: string, postconf: bool) returns (r: Outcome)
      modifies this
      ensures View() == Removed(old(View()), domain, postconf)
      ensures r == if domain !in Listed(old(file)) then NotFound else if postconf then Done else PostconfFailed
    {
      var domains := ListDomains();
      var rest, found := Filter(domains, domain);
      if !found {
        return NotFound;
      }
      var content := Join(rest, "\n");
      if |rest| > 0 {
        content := content + "\n";
      }
      file := content;
      RestIsNotBlank(old(file), domain);
      var value := Join(rest, " ");
      if value == "" {
        value := "localhost";
      }
      if !postconf {
        return PostconfFailed;
      }
      setting := value;
      return Done;
    }

    method UpdateDomains(primary: string, postconf: bool) returns (r: Outcome)
      modifies this
      ensures View() == Updated(old(View()), primary, postconf)
      ensures r == if primary in Entries(Split(old(file), '\n')) || postconf then Done else PostconfFailed
    {
      var domains := ReadEntries(Split(file, '\n'));
      var found := Contains(domains, primary);
      if !found {
        domains := domains + [primary];
        file := Join(domains, "\n") + "\n";
        if !postconf {
          return PostconfFailed;
        }
        setting := Join(domains, " ");
      }
      return Done;
    }
  }
}

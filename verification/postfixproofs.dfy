/** The two readers of the domain file agree; file and setting stay in step over every run. */
module PostfixProofs {
  import opened Text
  import opened Postfix

  // ----- trimming -----

  lemma {:induction false} TrimLeftAppend(s: string, t: string)
    ensures TrimLeft(s + t) == if TrimLeft(s) == [] then TrimLeft(t) else TrimLeft(s) + t
  {
    if s == [] {
      assert s + t == t;
    } else if IsSpace(s[0]) {
      assert (s + t)[1..] == s[1..] + t;
      TrimLeftAppend(s[1..], t);
    }
  }

  lemma {:induction false} TrimRightSpaces(s: string, c: char)
    requires IsSpace(c)
    ensures TrimRight(s + [c]) == TrimRight(s)
  {
    assert (s + [c])[..|s|] == s;
  }

  lemma TrimDropCR(line: string)
    ensures Trim(DropCR(line)) == Trim(line)
    ensures IsEntry(DropCR(line)) <==> IsEntry(line)
  {
    if line != [] && line[|line| - 1] == '\r' {
      var front := line[..|line| - 1];
      assert line == front + ['\r'];
      TrimLeftAppend(front, ['\r']);
      TrimRightSpaces(TrimLeft(front), '\r');
    }
  }

  lemma {:induction false} TrimLeftEnds(s: string)
    ensures TrimLeft(s) == [] || !IsSpace(TrimLeft(s)[0])
    ensures HasSuffix(s, TrimLeft(s))
  {
    if s != [] && IsSpace(s[0]) {
      TrimLeftEnds(s[1..]);
    }
  }

  lemma {:induction false} TrimRightEnds(s: string)
    ensures TrimRight(s) == [] || !IsSpace(TrimRight(s)[|TrimRight(s)| - 1])
    ensures TrimRight(s) <= s
  {
    if s != [] && IsSpace(s[|s| - 1]) {
      TrimRightEnds(s[..|s| - 1]);
    }
  }

  /** What a list may hold: no white space at the ends, no leading '#', no newline inside. */
  predicate IsName(d: string) {
    d != "" && d[0] != '#' && !IsSpace(d[0]) && !IsSpace(d[|d| - 1]) && '\n' !in d
  }

  lemma NameIsEntry(d: string)
    requires IsName(d)
    ensures Trim(d) == d && IsEntry(d)
  {
  }

  lemma EntryIsName(line: string)
    requires '\n' !in line && IsEntry(line)
    ensures IsName(Trim(line))
  {
    TrimLeftEnds(line);
    TrimRightEnds(TrimLeft(line));
  }

  // ----- the two readers agree -----

  lemma NoEntryInBlank()
    ensures Entries([""]) == []
  {
  }

  lemma {:induction false} EntriesAppend(a: seq<string>, b: seq<string>)
    ensures Entries(a + b) == Entries(a) + Entries(b)
  {
    hide IsEntry, Trim;
    if a == [] {
      assert a + b == b;
    } else {
      assert (a + b)[1..] == a[1..] + b;
      EntriesAppend(a[1..], b);
      Reassociate(if IsEntry(a[0]) then [Trim(a[0])] else [], Entries(a[1..]), Entries(b));
    }
  }

  /** The scanner's lines and the installer's split give the same list for every text. */
  lemma {:induction false} SameReading(text: string)
    ensures Listed(text) == Entries(Split(text, '\n'))
    decreases |text|
  {
    NoEntryInBlank();
    hide IsEntry, DropCR;
    if text != [] {
      var n := LineEnd(text);
      TrimDropCR(text[..n]);
      if n < |text| {
        SameReading(text[n + 1..]);
        assert text == text[..n] + ['\n'] + text[n + 1..];
        SplitCons(text[..n], text[n + 1..], '\n');
      } else {
        assert text[..n] == text;
        SplitCons(text, [], '\n');
      }
    }
  }

  lemma {:induction false} EntriesAreNames(lines: seq<string>)
    requires forall l <- lines :: '\n' !in l
    ensures forall d <- Entries(lines) :: IsName(d)
  {
    if lines != [] {
      EntriesAreNames(lines[1..]);
      if IsEntry(lines[0]) {
        EntryIsName(lines[0]);
      }
    }
  }

  lemma {:induction false} ListedAreNames(text: string)
    ensures forall d <- Listed(text) :: IsName(d)
  {
    SameReading(text);
    SplitPartsClean(text, '\n');
    EntriesAreNames(Split(text, '\n'));
  }

  /** What one line of the file says: a name, whatever white space is around it; nothing if there is nothing else, or
      if a number sign comes first. */
  lemma LineMeans(left: string, name: string, right: string)
    requires AllSpaces(left) && AllSpaces(right) && (name == "" || (!IsSpace(name[0]) && !IsSpace(name[|name| - 1])))
    ensures Entries([left + name + right]) == if name == "" || name[0] == '#' then [] else [name]
  {
    TrimPadded(left, name, right);
    assert [left + name + right][1..] == [];
    hide Trim, IsSpace;
  }

  // Lines with their newlines
  function Concat(lines: seq<string>): string {
    if lines == [] then "" else lines[0] + "\n" + Concat(lines[1..])
  }

  lemma {:induction false} SplitLines(lines: seq<string>, rest: string)
    requires (forall l <- lines :: '\n' !in l) && '\n' !in rest
    ensures Split(Concat(lines) + rest, '\n') == lines + [rest]
  {
    if lines == [] {
      assert Concat(lines) + rest == rest && lines + [rest] == [rest];
      SplitCons(rest, [], '\n');
    } else {
      SplitLines(lines[1..], rest);
      assert Concat(lines) + rest == lines[0] + "\n" + (Concat(lines[1..]) + rest);
      SplitCons(lines[0], Concat(lines[1..]) + rest, '\n');
      assert lines + [rest] == [lines[0]] + (lines[1..] + [rest]);
    }
  }

  /** And what a file of several lines says, line by line; a rest without a newline is a line too. */
  lemma {:induction false} FileMeans(lines: seq<string>, rest: string)
    requires (forall l <- lines :: '\n' !in l) && '\n' !in rest
    ensures Listed(Concat(lines) + rest) == Entries(lines) + Entries([rest])
  {
    SameReading(Concat(lines) + rest);
    SplitLines(lines, rest);
    EntriesAppend(lines, [rest]);
  }

  // ----- printing and appending -----

  lemma {:induction false} EntriesOfNames(domains: seq<string>)
    requires forall d <- domains :: IsName(d)
    ensures Entries(domains) == domains
  {
    if domains != [] {
      NameIsEntry(domains[0]);
      EntriesOfNames(domains[1..]);
    }
  }

  // Two lists of lines whose last and first lines run together
  function Glue(a: seq<string>, b: seq<string>): seq<string>
    requires a != [] && b != []
  {
    if |a| == 1 then [a[0] + b[0]] + b[1..] else [a[0]] + Glue(a[1..], b)
  }

  // The unterminated rest of a text joins the first line of what is appended.
  lemma {:induction false} SplitAppend(s: string, t: string)
    ensures Split(s + t, '\n') == Glue(Split(s, '\n'), Split(t, '\n'))
  {
    var b := Split(t, '\n');
    if s == [] {
      assert s + t == t && [] + b[0] == b[0];
    } else {
      assert (s + t)[1..] == s[1..] + t;
      SplitAppend(s[1..], t);
      var r := Split(s[1..], '\n');
      if s[0] == '\n' {
        assert ([[]] + r)[1..] == r;
      } else {
        assert ([[s[0]] + r[0]] + r[1..])[1..] == r[1..];
        assert [s[0]] + (r[0] + b[0]) == [s[0]] + r[0] + b[0];
      }
    }
  }

  lemma EntriesEmpty()
    ensures Entries([]) == []
  {
  }

  lemma EntriesCons(line: string, lines: seq<string>)
    ensures Entries([line] + lines) == Entries([line]) + Entries(lines)
  {
    EntriesAppend([line], lines);
  }

  lemma {:induction false} EntriesGlue(a: seq<string>, b: seq<string>)
    requires a != [] && b != []
    ensures Entries(Glue(a, b)) == Entries(a[..|a| - 1]) + Entries([a[|a| - 1] + b[0]]) + Entries(b[1..])
  {
    hide IsEntry, Entries;
    if |a| == 1 {
      EntriesAppend([a[0] + b[0]], b[1..]);
      EntriesEmpty();
      assert [] + Entries([a[0] + b[0]]) == Entries([a[0] + b[0]]);
    } else {
      var init := a[1..][..|a[1..]| - 1];
      EntriesGlue(a[1..], b);
      EntriesCons(a[0], Glue(a[1..], b));
      EntriesCons(a[0], init);
      assert a[..|a| - 1] == [a[0]] + init;
      Reassociate(Entries([a[0]]), Entries(init), Entries([a[|a| - 1] + b[0]]));
      Reassociate(Entries([a[0]]), Entries(init) + Entries([a[|a| - 1] + b[0]]), Entries(b[1..]));
    }
  }

  lemma EntryOfLine(line: string)
    ensures Entries([line]) == if IsEntry(line) then [Trim(line)] else []
  {
  }

  // What follows the last newline
  function LastLine(text: string): string {
    var parts := Split(text, '\n');
    parts[|parts| - 1]
  }

  // The entries of the terminated lines
  function Head(text: string): seq<string> {
    var parts := Split(text, '\n');
    Entries(parts[..|parts| - 1])
  }

  lemma ListedByLines(text: string)
    ensures Listed(text) == Head(text) + Entries([LastLine(text)])
  {
    var parts := Split(text, '\n');
    SameReading(text);
    EntriesAppend(parts[..|parts| - 1], [LastLine(text)]);
    assert parts == parts[..|parts| - 1] + [LastLine(text)];
  }

  lemma ListedAppended(text: string, domain: string)
    requires '\n' !in domain
    ensures Listed(text + domain + "\n") == Head(text) + Entries([LastLine(text) + domain])
  {
    hide Listed, IsEntry;
    SameReading(text + domain + "\n");
    assert text + domain + "\n" == text + (domain + "\n");
    SplitAppend(text, domain + "\n");
    SplitCons(domain, [], '\n');
    assert domain + "\n" + [] == domain + "\n";
    EntriesGlue(Split(text, '\n'), [domain, ""]);
    assert Split(domain + "\n", '\n') == [domain, ""];
    NoEntryInBlank();
    assert [domain, ""][1..] == [""];
    var entries := Head(text) + Entries([LastLine(text) + domain]);
    assert entries + [] == entries;
  }

  // A text of complete lines
  lemma ListedLines(lines: seq<string>)
    requires lines != [] && forall l <- lines :: '\n' !in l
    ensures Listed(Join(lines, "\n") + "\n") == Entries(lines)
  {
    hide Listed, Join;
    var init, last := lines[..|lines| - 1], lines[|lines| - 1];
    SameReading(Join(lines, "\n") + "\n");
    SplitJoin(lines, '\n');
    SplitAppend(Join(lines, "\n"), "\n");
    assert Split("\n", '\n') == ["", ""] by {
      SplitCons("", "", '\n');
      assert "" + "\n" + "" == "\n";
    }
    EntriesGlue(lines, ["", ""]);
    NoEntryInBlank();
    assert last + "" == last && ["", ""][1..] == [""];
    EntriesAppend(init, [last]);
    assert lines == init + [last] && Entries(lines) + [] == Entries(lines);
  }

  /** Reading undoes printing. */
  lemma ListedPrint(domains: seq<string>)
    requires forall d <- domains :: IsName(d)
    ensures Listed(Print(domains)) == domains
  {
    if domains != [] {
      ListedLines(domains);
      EntriesOfNames(domains);
    }
  }

  lemma {:induction false} JoinConcat(domains: seq<string>)
    ensures domains != [] ==> Join(domains, "\n") + "\n" == Concat(domains)
  {
    if |domains| == 1 {
      assert domains[0] + "\n" + Concat(domains[1..]) == domains[0] + "\n";
    } else if domains != [] {
      JoinConcat(domains[1..]);
      assert domains[0] + "\n" + Join(domains[1..], "\n") + "\n"
        == domains[0] + "\n" + (Join(domains[1..], "\n") + "\n");
    }
  }

  /** A printed list is one name to a line, each line ended by a newline alone. */
  lemma PrintLines(domains: seq<string>)
    requires forall d <- domains :: '\n' !in d
    ensures Print(domains) == Concat(domains)
    ensures Split(Print(domains), '\n') == domains + [""]
  {
    JoinConcat(domains);
    SplitLines(domains, "");
    assert Concat(domains) + "" == Concat(domains);
  }

  lemma TrimRightDone(s: string)
    requires s != "" && !IsSpace(s[|s| - 1])
    ensures TrimRight(s) == s
  {
  }

  lemma NameUntrimmed(domain: string)
    requires IsName(domain)
    ensures TrimLeft(domain) == domain
  {
  }

  lemma TrimWithName(p: string, domain: string)
    requires IsName(domain)
    ensures Trim(p + domain) == TrimLeft(p) + domain
  {
    hide TrimLeft, TrimRight, IsSpace;
    var q := TrimLeft(p);
    TrimLeftAppend(p, domain);
    NameUntrimmed(domain);
    assert q == [] ==> q + domain == domain;
    assert (q + domain)[|q + domain| - 1] == domain[|domain| - 1];
    TrimRightDone(q + domain);
  }

  lemma {:induction false} TrimRightKeepsFront(q: string)
    requires q != [] && !IsSpace(q[0])
    ensures TrimRight(q) != [] && TrimRight(q)[0] == q[0]
  {
    if IsSpace(q[|q| - 1]) {
      assert q[..|q| - 1][0] == q[0];
      TrimRightKeepsFront(q[..|q| - 1]);
    }
  }

  lemma TrimFront(p: string)
    ensures TrimLeft(p) == [] <==> Trim(p) == ""
    ensures HasPrefix(Trim(p), "#") <==> HasPrefix(TrimLeft(p), "#")
  {
    TrimLeftEnds(p);
    hide TrimLeft;
    if TrimLeft(p) != [] {
      TrimRightKeepsFront(TrimLeft(p));
    }
  }

  lemma LengthsDiffer(head: seq<string>, a: seq<string>, b: seq<string>, d: string)
    requires |a| <= |b|
    ensures head + a != head + b + [d]
  {
    assert |head + a| < |head + b + [d]|;
  }

  /** Appending a name as a line adds it to the list exactly when the text has no unterminated last line with
      anything in it; otherwise the name runs into that line. */
  lemma AppendAddsExactly(text: string, domain: string)
    requires IsName(domain)
    ensures Listed(text + domain + "\n") == Listed(text) + [domain] <==> Trim(LastLine(text)) == ""
  {
    var p := LastLine(text);
    ListedByLines(text);
    ListedAppended(text, domain);
    TrimWithName(p, domain);
    TrimFront(p);
    EntryOfLine(p);
    EntryOfLine(p + domain);
    if TrimLeft(p) == [] {
      assert [] + domain == domain;
    } else {
      assert HasPrefix(TrimLeft(p) + domain, "#") <==> HasPrefix(TrimLeft(p), "#");
      LengthsDiffer(Head(text), Entries([p + domain]), Entries([p]), domain);
    }
  }

  // ----- file and setting in step -----

  predicate Terminated(text: string) {
    text == "" || text[|text| - 1] == '\n'
  }

  lemma {:induction false} GlueLast(a: seq<string>, b: seq<string>)
    requires a != [] && |b| > 1
    ensures Glue(a, b) != [] && Glue(a, b)[|Glue(a, b)| - 1] == b[|b| - 1]
  {
    if |a| > 1 {
      GlueLast(a[1..], b);
    }
  }

  lemma {:induction false} TerminatedLastLine(text: string)
    requires Terminated(text)
    ensures LastLine(text) == ""
  {
    if text != "" {
      var front := text[..|text| - 1];
      assert text == front + "\n";
      SplitAppend(front, "\n");
      SplitCons("", "", '\n');
      assert "" + "\n" + "" == "\n";
      assert Split("\n", '\n') == ["", ""];
      GlueLast(Split(front, '\n'), ["", ""]);
    }
  }

  /** The file is made of complete lines and the setting says what the file lists. */
  predicate InStep(s: State) {
    Terminated(s.file) && s.setting == Render(Listed(s.file))
  }

  datatype Op = Add(domain: string) | Remove(domain: string) | Update(domain: string)

  /** An operation, and whether postconf succeeds in it. */
  datatype Step = Step(op: Op, ok: bool)

  function Apply(s: State, op: Op, ok: bool): State {
    match op
    case Add(d) => Added(s, d, ok)
    case Remove(d) => Removed(s, d, ok)
    case Update(d) => Updated(s, d, ok)
  }

  /** The same operations on a plain list. */
  function Next(domains: seq<string>, op: Op): seq<string> {
    if op.Remove? then Without(domains, op.domain)
    else if op.domain in domains then domains
    else domains + [op.domain]
  }

  predicate Changes(domains: seq<string>, op: Op) {
    op.domain in domains <==> op.Remove?
  }

  lemma {:induction false} WithoutAbsent(domains: seq<string>, domain: string)
    requires domain !in domains
    ensures Without(domains, domain) == domains
    ensures Without(domains + [domain], domain) == domains
  {
    if domains != [] {
      assert (domains + [domain])[1..] == domains[1..] + [domain];
      WithoutAbsent(domains[1..], domain);
    }
  }

  // What every operation does to the list, whether or not postconf succeeds
  lemma FileFollows(s: State, op: Op, ok: bool)
    requires Terminated(s.file) && IsName(op.domain)
    ensures var t := Apply(s, op, ok); Terminated(t.file) && Listed(t.file) == Next(Listed(s.file), op)
  {
    var domains := Listed(s.file);
    ListedAreNames(s.file);
    SameReading(s.file);
    match op {
      case Add(d) =>
        TerminatedLastLine(s.file);
        AppendAddsExactly(s.file, d);
      case Remove(d) =>
        if d in domains {
          WithoutIsPart(domains, d);
          ListedPrint(Without(domains, d));
        } else {
          WithoutAbsent(domains, d);
        }
      case Update(d) =>
        if d !in domains {
          ListedPrint(domains + [d]);
        }
    }
  }

  /** When postconf succeeds, file and setting stay in step and follow the plain list. */
  lemma StepRefines(s: State, op: Op)
    requires InStep(s) && IsName(op.domain)
    ensures var t := Apply(s, op, true); InStep(t) && Listed(t.file) == Next(Listed(s.file), op)
  {
    FileFollows(s, op, true);
    SameReading(s.file);
    if op.Remove? && op.domain !in Listed(s.file) {
      WithoutAbsent(Listed(s.file), op.domain);
    }
  }

  function Run(s: State, steps: seq<Step>): State
    decreases |steps|
  {
    if steps == [] then s else Run(Apply(s, steps[0].op, steps[0].ok), steps[1..])
  }

  function Lists(domains: seq<string>, steps: seq<Step>): seq<string>
    decreases |steps|
  {
    if steps == [] then domains else Lists(Next(domains, steps[0].op), steps[1..])
  }

  /** The list the setting was last written for. */
  function Shown(domains: seq<string>, shown: seq<string>, steps: seq<Step>): seq<string>
    decreases |steps|
  {
    if steps == [] then shown else
    var next := Next(domains, steps[0].op);
    Shown(next, if steps[0].ok && Changes(domains, steps[0].op) then next else shown, steps[1..])
  }

  lemma StepFollows(s: State, step: Step)
    requires Terminated(s.file) && IsName(step.op.domain)
    ensures var domains, t := Listed(s.file), Apply(s, step.op, step.ok);
      && Terminated(t.file) && Listed(t.file) == Next(domains, step.op)
      && (step.ok && Changes(domains, step.op) ==> t.setting == Render(Next(domains, step.op)))
      && (!step.ok || !Changes(domains, step.op) ==> t.setting == s.setting)
  {
    FileFollows(s, step.op, step.ok);
    SameReading(s.file);
  }

  /** Whatever postconf does: the file always follows the plain list, and the setting names the list as it was after
      the last operation that changed it and had postconf succeed. */
  lemma {:induction false} RunFollows(s: State, shown: seq<string>, steps: seq<Step>)
    requires Terminated(s.file) && s.setting == Render(shown)
    requires forall step <- steps :: IsName(step.op.domain)
    ensures var t := Run(s, steps);
      && Terminated(t.file) && Listed(t.file) == Lists(Listed(s.file), steps)
      && t.setting == Render(Shown(Listed(s.file), shown, steps))
    decreases |steps|
  {
    hide Listed, Render, IsName, Terminated, Next, Apply, Changes;
    if steps != [] {
      var domains := Listed(s.file);
      StepFollows(s, steps[0]);
      var next := Next(domains, steps[0].op);
      RunFollows(Apply(s, steps[0].op, steps[0].ok),
        if steps[0].ok && Changes(domains, steps[0].op) then next else shown, steps[1..]);
    }
  }

  lemma {:induction false} ShownWhenTaken(domains: seq<string>, steps: seq<Step>)
    requires forall step <- steps :: step.ok
    ensures Shown(domains, domains, steps) == Lists(domains, steps)
    decreases |steps|
  {
    if steps != [] {
      if steps[0].op.domain !in domains {
        WithoutAbsent(domains, steps[0].op.domain);
      }
      ShownWhenTaken(Next(domains, steps[0].op), steps[1..]);
    }
  }

  /** Over every sequence of additions, removals and installer updates in which postconf succeeds the text file, read
      back, is the plain list the same operations give, and the setting is that list (localhost when it is empty). */
  lemma RunRefines(s: State, steps: seq<Step>)
    requires InStep(s) && forall step <- steps :: step.ok && IsName(step.op.domain)
    ensures InStep(Run(s, steps)) && Listed(Run(s, steps).file) == Lists(Listed(s.file), steps)
  {
    RunFollows(s, Listed(s.file), steps);
    ShownWhenTaken(Listed(s.file), steps);
  }

  // ----- the text of the file -----

  lemma {:induction false} WithoutAppend(a: seq<string>, b: seq<string>, domain: string)
    ensures Without(a + b, domain) == Without(a, domain) + Without(b, domain)
  {
    if a == [] {
      assert a + b == b;
    } else {
      assert (a + b)[1..] == a[1..] + b;
      WithoutAppend(a[1..], b, domain);
      Reassociate(if a[0] != domain then [a[0]] else [], Without(a[1..], domain), Without(b, domain));
    }
  }

  /** A name is taken out from where it stands, and the others keep their places. */
  lemma WithoutBetween(a: seq<string>, domain: string, b: seq<string>)
    requires domain !in a && domain !in b
    ensures Without(a + [domain] + b, domain) == a + b
  {
    WithoutAppend(a + [domain], b, domain);
    WithoutAbsent(a, domain);
    WithoutAbsent(b, domain);
  }

  /** The file is the printed list: no comments, no blank lines, nothing but the names. */
  predicate Canonical(s: State) {
    s.file == Print(Listed(s.file))
  }

  lemma {:induction false} ConcatMore(lines: seq<string>, line: string)
    ensures Concat(lines + [line]) == Concat(lines) + line + "\n"
  {
    if lines == [] {
      assert [line][1..] == [] && line + "\n" + "" == line + "\n" && "" + line == line;
    } else {
      assert (lines + [line])[1..] == lines[1..] + [line];
      ConcatMore(lines[1..], line);
      assert lines[0] + "\n" + (Concat(lines[1..]) + line + "\n") == lines[0] + "\n" + Concat(lines[1..]) + line + "\n";
    }
  }

  lemma PrintMore(domains: seq<string>, domain: string)
    requires (forall d <- domains :: '\n' !in d) && '\n' !in domain
    ensures Print(domains + [domain]) == Print(domains) + domain + "\n"
  {
    JoinConcat(domains);
    JoinConcat(domains + [domain]);
    ConcatMore(domains, domain);
  }

  lemma PrintedIsTerminated(domains: seq<string>)
    ensures Terminated(Print(domains))
  {
  }

  /** Every operation keeps it so, whatever postconf does. */
  lemma StaysCanonical(s: State, op: Op, ok: bool)
    requires Canonical(s) && IsName(op.domain)
    ensures Canonical(Apply(s, op, ok))
  {
    var domains := Listed(s.file);
    PrintedIsTerminated(domains);
    FileFollows(s, op, ok);
    ListedAreNames(s.file);
    SameReading(s.file);
    if Changes(domains, op) {
      PrintMore(domains, op.domain);
    } else {
      if op.Remove? {
        WithoutAbsent(domains, op.domain);
      }
    }
    hide Listed, Print, IsName;
  }

  /** So from a new installation on the file is, to the letter, the names of the plain list, one to a line, after any
      sequence of operations. */
  lemma {:induction false} FileText(s: State, steps: seq<Step>)
    requires Canonical(s) && forall step <- steps :: IsName(step.op.domain)
    ensures Run(s, steps).file == Print(Lists(Listed(s.file), steps))
    decreases |steps|
  {
    hide Listed, Print, IsName, Next, Apply, Terminated;
    if steps != [] {
      PrintedIsTerminated(Listed(s.file));
      StaysCanonical(s, steps[0].op, steps[0].ok);
      FileFollows(s, steps[0].op, steps[0].ok);
      FileText(Apply(s, steps[0].op, steps[0].ok), steps[1..]);
    }
  }

  /** The setting is the names with a single space between them. */
  lemma SettingText(domains: seq<string>)
    requires forall d <- domains :: ' ' !in d
    ensures Split(Render(domains), ' ') == if domains == [] then ["localhost"] else domains
  {
    if domains == [] {
      assert ' ' !in "localhost";
      SplitCons("localhost", [], ' ');
    } else {
      SplitJoin(domains, ' ');
    }
  }

  // ----- when postconf may fail -----

  /** What Postfix serves for a list. */
  function Served(domains: seq<string>): seq<string> {
    if domains == [] then ["localhost"] else domains
  }

  predicate Words(domains: seq<string>) {
    forall d <- domains :: IsWord(d)
  }

  lemma RenderIsServed(a: seq<string>, b: seq<string>)
    requires Words(a) && Words(b)
    ensures Render(a) == Render(b) <==> Served(a) == Served(b)
  {
    assert IsWord("localhost");
    assert Render([]) == Join(["localhost"], " ");
    FieldsJoin(Served(a));
    FieldsJoin(Served(b));
  }

  lemma {:induction false} WordsStay(domains: seq<string>, shown: seq<string>, steps: seq<Step>)
    requires Words(domains) && Words(shown) && forall step <- steps :: IsWord(step.op.domain)
    ensures Words(Lists(domains, steps)) && Words(Shown(domains, shown, steps))
    decreases |steps|
  {
    hide IsWord;
    if steps != [] {
      WithoutIsPart(domains, steps[0].op.domain);
      assert Words(Next(domains, steps[0].op));
      WordsStay(Next(domains, steps[0].op),
        if steps[0].ok && Changes(domains, steps[0].op) then Next(domains, steps[0].op) else shown, steps[1..]);
    }
  }

  /** Over every run in which postconf may fail at any point: file and setting end in step exactly when the list at
      the end is served like the one after the last operation that changed it with postconf succeeding. */
  lemma InStepAfterExactly(s: State, steps: seq<Step>)
    requires InStep(s) && Words(Listed(s.file))
    requires forall step <- steps :: IsName(step.op.domain) && IsWord(step.op.domain)
    ensures var domains := Listed(s.file);
      InStep(Run(s, steps)) <==> Served(Shown(domains, domains, steps)) == Served(Lists(domains, steps))
  {
    hide IsWord, IsName;
    var domains := Listed(s.file);
    RunFollows(s, domains, steps);
    WordsStay(domains, domains, steps);
    RenderIsServed(Shown(domains, domains, steps), Lists(domains, steps));
  }

  /** From any state of complete lines, one operation with postconf succeeding ends in step exactly when the two were
      in step before or the operation changes the list. */
  lemma RepairExactly(s: State, op: Op)
    requires Terminated(s.file) && IsName(op.domain)
    ensures InStep(Apply(s, op, true)) <==> InStep(s) || Changes(Listed(s.file), op)
  {
    StepFollows(s, Step(op, true));
    SameReading(s.file);
  }

  /** Doing the same again changes neither place, so it repairs nothing. */
  lemma AgainDoesNothing(s: State, op: Op, ok: bool, again: bool)
    requires Terminated(s.file) && IsName(op.domain)
    ensures var t := Apply(s, op, ok); !Changes(Listed(t.file), op) && Apply(t, op, again) == t
  {
    FileFollows(s, op, ok);
    WithoutIsPart(Listed(s.file), op.domain);
    SameReading(Apply(s, op, ok).file);
  }

  lemma InstalledInStep(primary: string)
    requires IsName(primary)
    ensures InStep(State(primary + "\n", primary)) && Listed(primary + "\n") == [primary]
    ensures Canonical(State(primary + "\n", primary))
  {
    ListedPrint([primary]);
  }

  ghost predicate Distinct(domains: seq<string>) {
    forall i, j :: 0 <= i < j < |domains| ==> domains[i] != domains[j]
  }

  lemma {:induction false} WithoutDistinct(domains: seq<string>, domain: string)
    requires Distinct(domains)
    ensures Distinct(Without(domains, domain))
  {
    if domains != [] {
      WithoutDistinct(domains[1..], domain);
      WithoutIsPart(domains[1..], domain);
      var rest := Without(domains[1..], domain);
      assert forall k :: 0 <= k < |rest| ==> rest[k] in rest;
      assert domains[0] !in domains[1..];
    }
  }

  /** No sequence of operations makes a duplicate where there was none. */
  lemma {:induction false} NoDuplicates(domains: seq<string>, steps: seq<Step>)
    requires Distinct(domains)
    ensures Distinct(Lists(domains, steps))
    decreases |steps|
  {
    if steps != [] {
      WithoutDistinct(domains, steps[0].op.domain);
      NoDuplicates(Next(domains, steps[0].op), steps[1..]);
    }
  }

  /** Adding twice is adding once, and adding then removing a new name restores the list and the setting. */
  lemma AddAndUndo(s: State, domain: string)
    requires InStep(s) && IsName(domain)
    ensures var once := Added(s, domain, true);
      && Added(once, domain, true) == once
      && (domain !in Listed(s.file) ==>
           var back := Removed(once, domain, true); Listed(back.file) == Listed(s.file) && back.setting == s.setting)
  {
    var once := Added(s, domain, true);
    StepRefines(s, Add(domain));
    StepRefines(once, Remove(domain));
    if domain !in Listed(s.file) {
      WithoutAbsent(Listed(s.file), domain);
    }
  }

  lemma JoinLonger(domains: seq<string>, domain: string)
    requires domains != []
    ensures Join(domains + [domain], " ") == Join(domains, " ") + " " + domain
  {
    if |domains| > 1 {
      JoinLonger(domains[1..], domain);
      assert (domains + [domain])[1..] == domains[1..] + [domain];
      assert Join(domains + [domain], " ") == domains[0] + " " + (Join(domains[1..], " ") + " " + domain);
    } else {
      assert (domains + [domain])[1..] == [domain];
    }
  }

  /** When postconf may fail, an addition leaves the two in step exactly when postconf succeeded or was not needed. A
      second try does not repair it, because the name is then already in the file. */
  lemma AddInStepExactly(s: State, domain: string, ok: bool)
    requires InStep(s) && IsName(domain)
    ensures var t := Added(s, domain, ok);
      && (InStep(t) <==> ok || domain in Listed(s.file) || (Listed(s.file) == [] && domain == "localhost"))
      && forall again :: Added(t, domain, again) == t
  {
    var domains := Listed(s.file);
    FileFollows(s, Add(domain), ok);
    if domain !in domains && !ok {
      if domains != [] {
        JoinLonger(domains, domain);
        assert |Join(domains, " ") + " " + domain| > |Join(domains, " ")|;
      }
    }
  }

  /** Postfix, reading its setting word by word, sees the list. */
  lemma SettingIsList(s: State)
    requires InStep(s) && Words(Listed(s.file))
    ensures Fields(s.setting) == Served(Listed(s.file))
  {
    hide Listed, Fields, Terminated;
    assert IsWord("localhost");
    FieldsJoin(Served(Listed(s.file)));
  }

  /** The name that runs into an unterminated line is lost, and so is the one before it. */
  lemma UnterminatedLineSwallows(before: string, domain: string)
    requires IsName(before) && IsName(domain)
    ensures Listed(before) == [before] && Listed(before + domain + "\n") == [before + domain]
  {
    SplitCons(before, [], '\n');
    ListedByLines(before);
    ListedAppended(before, domain);
    NameIsEntry(before);
    assert IsName(before + domain);
    NameIsEntry(before + domain);
    EntryOfLine(before);
    EntryOfLine(before + domain);
    EntriesEmpty();
    assert [before][..0] == [];
  }
}

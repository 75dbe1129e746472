/** Parsing undoes printing; when a field is saved twice. */
module HeadersProofs {
  import opened Text
  import opened Headers

  lemma {:induction false} LineEndAppend(line: string, rest: string)
    requires line != [] && LineEnd(line) == |line| - 1
    ensures LineEnd(line + rest) == |line| - 1
  {
    if |line| > 1 {
      assert (line + rest)[1..] == line[1..] + rest;
      LineEndAppend(line[1..], rest);
    }
  }

  lemma {:induction false} LineEndOf(front: string)
    requires '\n' !in front
    ensures LineEnd(front + "\n") == |front|
  {
    if front != [] {
      assert (front + "\n")[1..] == front[1..] + "\n";
      LineEndOf(front[1..]);
    } else {
      assert front + "\n" == "\n";
    }
  }

  lemma LinesCons(line: string, more: string)
    requires line != [] && LineEnd(line) == |line| - 1
    ensures Lines(line + more) == [line] + Lines(more)
  {
    LineEndAppend(line, more);
    assert (line + more)[..|line|] == line && (line + more)[|line|..] == more;
  }

  // Complete lines are read back one by one.
  lemma {:induction false} LinesOf(lines: seq<string>, rest: string)
    requires forall l <- lines :: l != [] && LineEnd(l) == |l| - 1
    ensures Lines(Concat(lines) + rest) == lines + Lines(rest)
  {
    if lines == [] {
      assert Concat(lines) + rest == rest && lines + Lines(rest) == Lines(rest);
    } else {
      var line, more := lines[0], Concat(lines[1..]) + rest;
      Reassociate(line, Concat(lines[1..]), rest);
      assert lines == [line] + lines[1..];
      Reassociate([line], lines[1..], Lines(rest));
      LinesCons(line, more);
      LinesOf(lines[1..], rest);
    }
  }

  lemma {:induction false} ColonOf(name: string, rest: string)
    requires ':' !in name
    ensures Colon(name + ":" + rest) == |name|
  {
    if name == [] {
      assert name + ":" + rest == ":" + rest;
    } else {
      assert (name + ":" + rest)[1..] == name[1..] + ":" + rest;
      ColonOf(name[1..], rest);
    }
  }

  lemma {:induction false} TrimLeftNewline(s: string)
    ensures TrimLeft(s + "\n") == if TrimLeft(s) == [] then [] else TrimLeft(s) + "\n"
  {
    if s == [] {
      assert s + "\n" == "\n" && TrimLeft("\n"[1..]) == [];
    } else if IsSpace(s[0]) {
      assert (s + "\n")[1..] == s[1..] + "\n";
      TrimLeftNewline(s[1..]);
    }
  }

  lemma {:induction false} TrimNewline(s: string)
    ensures Trim(s + "\n") == Trim(s)
  {
    TrimLeftNewline(s);
    var t := TrimLeft(s);
    if t != [] {
      assert (t + "\n")[..|t|] == t;
    }
  }

  lemma NoColonInSpaces(s: string)
    requires AllSpaces(s)
    ensures ':' !in s
  {
  }

  // A line cut at its colon
  lemma CutAtColon(front: string, back: string)
    requires ':' !in front && front != ""
    ensures var line := front + ":" + back;
      HasName(line) && Name(line) == Trim(front) && FirstValue(line) == Trim(back)
  {
    hide Trim;
    ColonOf(front, back);
    var line := front + ":" + back;
    assert line[..|front|] == front && line[|front| + 1..] == back;
  }

  // A line that starts with something else than white space
  lemma StartsWithText(line: string)
    requires line != "" && !IsSpace(line[0])
    ensures !IsBlank(line) && !IsContinuation(line)
  {
  }

  // The first line of a printed field, as the parser sees it
  lemma FirstLine(p: Printed)
    requires WellFormed(p)
    ensures var line := PrintedLines(p)[0];
      && line != [] && LineEnd(line) == |line| - 1
      && !IsBlank(line) && !IsContinuation(line)
      && HasName(line) && Name(line) == p.name && FirstValue(line) == Trim(p.first)
  {
    var front := p.name + p.pad;
    var line := front + ":" + p.first + "\n";
    assert line == front + ":" + (p.first + "\n");
    assert line[0] == p.name[0];
    NoColonInSpaces(p.pad);
    assert [] + p.name + p.pad == front && ':' !in front && '\n' !in front + ":" + p.first;
    TrimPadded([], p.name, p.pad);
    hide Trim, IsSpace, HasName, Name, FirstValue, IsBlank, IsContinuation;
    StartsWithText(line);
    CutAtColon(front, p.first + "\n");
    TrimNewline(p.first);
    LineEndOf(front + ":" + p.first);
  }

  // Continuation lines are appended as they stand.
  lemma {:induction false} SavedContinuations(more: seq<string>, rest: seq<string>, key: string, value: string)
    requires forall l <- more :: IsContinuation(l)
    ensures Saved(more + rest, key, value) == Saved(rest, key, value + Concat(more))
  {
    if more == [] {
      assert more + rest == rest && value + Concat(more) == value;
    } else {
      assert (more + rest)[1..] == more[1..] + rest;
      SavedContinuations(more[1..], rest, key, value + more[0]);
      assert value + more[0] + Concat(more[1..]) == value + Concat(more);
    }
  }

  lemma SavedAtBlank(rest: seq<string>, key: string, value: string)
    requires rest != [] && IsBlank(rest[0])
    ensures Saved(rest, key, value) == Flush(key, value)
  {
  }

  lemma FlushMeant(p: Printed)
    requires WellFormed(p)
    ensures Flush(p.name, Trim(p.first) + Concat(p.more)) == [Meant(p)]
  {
  }

  lemma SavedNamed(line: string, more: seq<string>, tail: seq<string>, key: string, value: string)
    requires !IsBlank(line) && !IsContinuation(line) && HasName(line) && forall l <- more :: IsContinuation(l)
    ensures Saved([line] + more + tail, key, value) ==
      Flush(key, value) + Saved(tail, Name(line), FirstValue(line) + Concat(more))
  {
    hide IsBlank, IsContinuation, HasName, Name, FirstValue;
    assert [line] + more + tail == [line] + (more + tail);
    assert ([line] + (more + tail))[1..] == more + tail;
    SavedContinuations(more, tail, Name(line), FirstValue(line));
  }

  lemma SavedOne(p: Printed, tail: seq<string>, key: string, value: string)
    requires WellFormed(p)
    ensures Saved(PrintedLines(p) + tail, key, value) ==
      Flush(key, value) + Saved(tail, p.name, Trim(p.first) + Concat(p.more))
  {
    FirstLine(p);
    hide Saved, Flush, Trim, Concat, HasName, Name, FirstValue;
    SavedNamed(PrintedLines(p)[0], p.more, tail, key, value);
  }

  lemma {:induction false} SavedFields(ps: seq<Printed>, rest: seq<string>, key: string, value: string)
    requires forall p <- ps :: WellFormed(p)
    requires rest != [] && IsBlank(rest[0])
    ensures Saved(AllLines(ps) + rest, key, value) == Flush(key, value) + AllMeant(ps)
  {
    hide WellFormed, PrintedLines, Saved, Meant;
    if ps == [] {
      SavedAtBlank(rest, key, value);
      assert AllLines(ps) + rest == rest && Flush(key, value) + [] == Flush(key, value);
    } else {
      var p, tail := ps[0], AllLines(ps[1..]) + rest;
      SavedFields(ps[1..], rest, p.name, Trim(p.first) + Concat(p.more));
      SavedOne(p, tail, key, value);
      Reassociate(PrintedLines(p), AllLines(ps[1..]), rest);
      Reassociate(Flush(key, value), [Meant(p)], AllMeant(ps[1..]));
      FlushMeant(p);
    }
  }

  lemma {:induction false} AllLinesComplete(ps: seq<Printed>)
    requires forall p <- ps :: WellFormed(p)
    ensures forall l <- AllLines(ps) :: l != [] && LineEnd(l) == |l| - 1
  {
    if ps != [] {
      FirstLine(ps[0]);
      AllLinesComplete(ps[1..]);
    }
  }

  lemma LineEndAppendBlank(blank: string)
    requires IsBlank(blank)
    ensures LineEnd(blank) == |blank| - 1
  {
    LineEndOf(blank[..|blank| - 1]);
  }

  /** What the parser reads are the complete lines; a rest without a newline is not read. */
  lemma RestIsNotRead(lines: seq<string>, rest: string)
    requires (forall l <- lines :: l != [] && LineEnd(l) == |l| - 1) && '\n' !in rest
    ensures Lines(Concat(lines) + rest) == lines
  {
    LinesOf(lines, rest);
    assert LineEnd(rest) == |rest|;
    assert lines + [] == lines;
  }

  /** Parsing undoes printing: a message made of well-formed fields, a blank line and anything after it parses to the
      values of each name in their original order, and to nothing else. */
  lemma ParsePrint(ps: seq<Printed>, blank: string, body: string, name: string)
    requires (forall p <- ps :: WellFormed(p)) && (blank == "\n" || blank == "\r\n")
    ensures var h := Collect(map[], Saved(Lines(Concat(AllLines(ps)) + blank + body), "", ""));
      && Get(h, name) == Values(AllMeant(ps), name)
      && (name in h <==> Values(AllMeant(ps), name) != [])
  {
    hide WellFormed, Saved, Lines;
    AllLinesComplete(ps);
    LineEndAppendBlank(blank);
    assert Concat(AllLines(ps)) + blank + body == Concat(AllLines(ps)) + (blank + body);
    LinesOf(AllLines(ps), blank + body);
    LinesOf([blank], body);
    assert Concat([blank]) == blank;
    SavedFields(ps, [blank] + Lines(body), "", "");
    assert [] + AllMeant(ps) == AllMeant(ps);
    CollectValues(map[], AllMeant(ps), name);
    assert [] + Values(AllMeant(ps), name) == Values(AllMeant(ps), name);
  }

  // ----- when a field is saved twice, or lost -----

  // The continuation lines right at the front
  function Tail(lines: seq<string>): string {
    if lines != [] && IsContinuation(lines[0]) then lines[0] + Tail(lines[1..]) else ""
  }

  /** One field for every named line before the blank line, with the continuations right behind it. */
  function Gathered(lines: seq<string>): seq<Field> {
    if lines == [] || IsBlank(lines[0]) then []
    else
      (if !IsContinuation(lines[0]) && HasName(lines[0])
       then Flush(Name(lines[0]), FirstValue(lines[0]) + Tail(lines[1..])) else [])
      + Gathered(lines[1..])
  }

  /** Lines before the blank line that are neither continuations nor named, with a field being gathered. */
  function Strays(lines: seq<string>, gathering: bool): nat {
    if lines == [] || IsBlank(lines[0]) then 0
    else if IsContinuation(lines[0]) then Strays(lines[1..], gathering)
    else if HasName(lines[0]) then Strays(lines[1..], Name(lines[0]) != "")
    else (if gathering then 1 else 0) + Strays(lines[1..], gathering)
  }

  /** The input ends without a blank line while a field is being gathered. */
  predicate EndsOpen(lines: seq<string>, gathering: bool) {
    if lines == [] then gathering
    else !IsBlank(lines[0]) &&
         EndsOpen(lines[1..],
                  if IsContinuation(lines[0]) || !HasName(lines[0]) then gathering else Name(lines[0]) != "")
  }

  // What the parser should save from here on, with `key` and `value` being gathered
  function Owed(lines: seq<string>, key: string, value: string): seq<Field> {
    Flush(key, value + Tail(lines)) + Gathered(lines)
  }

  lemma TailAtBlank(lines: seq<string>)
    requires lines != [] && (IsBlank(lines[0]) || !IsContinuation(lines[0]))
    ensures Tail(lines) == ""
  {
  }

  lemma OwedStep(lines: seq<string>, key: string, value: string)
    requires lines != [] && !IsBlank(lines[0])
    ensures var (line, rest) := (lines[0], lines[1..]);
      Owed(lines, key, value) ==
      if IsContinuation(line) then Owed(rest, key, value + line)
      else if HasName(line) then Flush(key, value) + Owed(rest, Name(line), FirstValue(line))
      else Flush(key, value) + Gathered(rest)
  {
    var line, rest := lines[0], lines[1..];
    hide Name, FirstValue;
    if IsContinuation(line) {
      assert value + (line + Tail(rest)) == value + line + Tail(rest);
      assert [] + Gathered(rest) == Gathered(rest);
    } else {
      assert value + "" == value && [] + Gathered(rest) == Gathered(rest);
    }
  }

  lemma GatheredNothing(lines: seq<string>)
    requires lines == [] || IsBlank(lines[0])
    ensures Gathered(lines) == []
  {
  }

  // Without strays the parser saves what it owes, but for the field still open at the end of the input.
  lemma {:induction false} SavedIsOwed(lines: seq<string>, key: string, value: string)
    requires Strays(lines, key != "") == 0
    ensures var owed := Owed(lines, key, value);
      if EndsOpen(lines, key != "") then owed != [] && Saved(lines, key, value) == owed[..|owed| - 1]
      else Saved(lines, key, value) == owed
  {
    hide Name, FirstValue, Gathered, Tail;
    if lines == [] {
      GatheredNothing(lines);
      assert value + "" == value;
    } else if IsBlank(lines[0]) {
      GatheredNothing(lines);
      TailAtBlank(lines);
      assert value + "" == value && Flush(key, value) + [] == Flush(key, value);
    } else {
      var line, rest := lines[0], lines[1..];
      OwedStep(lines, key, value);
      if IsContinuation(line) {
        SavedIsOwed(rest, key, value + line);
      } else if HasName(line) {
        var owed := Owed(rest, Name(line), FirstValue(line));
        SavedIsOwed(rest, Name(line), FirstValue(line));
        hide Owed, Saved;
        if owed != [] {
          var before := Flush(key, value);
          assert (before + owed)[..|before + owed| - 1] == before + owed[..|owed| - 1];
        }
      } else {
        SavedIsOwed(rest, key, value);
        assert key != "" ==> Strays(lines, true) > 0;
        assert [] + Gathered(rest) == Gathered(rest);
      }
    }
  }

  // A stray saves a field too many, an open end one too few.
  lemma {:induction false} SavedCount(lines: seq<string>, key: string, value: string)
    ensures |Saved(lines, key, value)| + (if EndsOpen(lines, key != "") then 1 else 0)
      == |Gathered(lines)| + Strays(lines, key != "") + |Flush(key, value)|
  {
    hide Name, FirstValue, Tail;
    if lines != [] && !IsBlank(lines[0]) {
      var line := lines[0];
      if IsContinuation(line) {
        SavedCount(lines[1..], key, value + line);
      } else if HasName(line) {
        SavedCount(lines[1..], Name(line), FirstValue(line));
      } else {
        SavedCount(lines[1..], key, value);
      }
    }
  }

  /** The first stray line is the only one, and the field it saves, continued by what comes right behind the stray line,
      is repeated by every field named later, if there is any. */
  predicate Evened(lines: seq<string>, key: string, value: string)
    decreases |lines|
  {
    if lines == [] || IsBlank(lines[0]) then false
    else if IsContinuation(lines[0]) then Evened(lines[1..], key, value + lines[0])
    else if HasName(lines[0]) then Evened(lines[1..], Name(lines[0]), FirstValue(lines[0]))
    else if key == "" then Evened(lines[1..], key, value)
    else Strays(lines[1..], true) == 0 && forall f <- Gathered(lines[1..]) :: f == Field(key, value + Tail(lines[1..]))
  }

  lemma SamePrefix(p: seq<Field>, a: seq<Field>, b: seq<Field>)
    ensures p + a == p + b <==> a == b
  {
    assert (p + a)[|p|..] == a && (p + b)[|p|..] == b;
  }

  lemma {:induction false} Repeated(f: Field, fields: seq<Field>)
    ensures ([f] + fields)[..|fields|] == fields <==> forall g <- fields :: g == f
  {
    if fields != [] {
      var first, rest := fields[0], fields[1..];
      assert ([f] + fields)[..|fields|] == [f] + ([first] + rest)[..|rest|] && fields == [first] + rest;
      if first == f {
        Repeated(f, rest);
        SamePrefix([f], ([f] + rest)[..|rest|], rest);
        assert forall g :: g in fields <==> g == first || g in rest;
      } else {
        assert ([f] + fields)[..|fields|][0] == f && first in fields;
      }
    }
  }

  // What is saved from the stray line on
  lemma AfterStray(rest: seq<string>, key: string, value: string)
    requires key != ""
    ensures Saved(rest, key, value) == Gathered(rest) <==>
      EndsOpen(rest, true) && Strays(rest, true) == 0 &&
      forall f <- Gathered(rest) :: f == Field(key, value + Tail(rest))
  {
    SavedCount(rest, key, value);
    if EndsOpen(rest, true) && Strays(rest, true) == 0 {
      SavedIsOwed(rest, key, value);
      Repeated(Field(key, value + Tail(rest)), Gathered(rest));
    }
  }

  lemma {:induction false} SavedExactly(lines: seq<string>, key: string, value: string)
    ensures Saved(lines, key, value) == Owed(lines, key, value)
      <==> if EndsOpen(lines, key != "") then Evened(lines, key, value) else Strays(lines, key != "") == 0
  {
    hide Name, FirstValue, Gathered, Tail;
    if lines == [] || IsBlank(lines[0]) {
      SavedIsOwed(lines, key, value);
      SavedCount(lines, key, value);
      GatheredNothing(lines);
    } else {
      var line, rest := lines[0], lines[1..];
      OwedStep(lines, key, value);
      if IsContinuation(line) {
        SavedExactly(rest, key, value + line);
      } else if HasName(line) {
        SavedExactly(rest, Name(line), FirstValue(line));
        SamePrefix(Flush(key, value), Saved(rest, Name(line), FirstValue(line)),
                   Owed(rest, Name(line), FirstValue(line)));
      } else {
        SamePrefix(Flush(key, value), Saved(rest, key, value), Gathered(rest));
        if key == "" {
          SavedExactly(rest, key, value);
          assert [] + Gathered(rest) == Gathered(rest);
        } else {
          AfterStray(rest, key, value);
        }
      }
    }
  }

  /** The parser saves exactly one field for every named line, with its continuations and in order, if and only if no
      stray line follows a named one in a block that is closed by a blank line or has no field open at its end. A field
      still open at the end is lost; a block open at the end comes out right only where the loss evens out the one field
      a single stray line saved too many. */
  lemma SavedOnceExactly(lines: seq<string>)
    ensures Saved(lines, "", "") == Gathered(lines)
      <==> if EndsOpen(lines, false) then Evened(lines, "", "") else Strays(lines, false) == 0
    ensures EndsOpen(lines, false) && Strays(lines, false) == 0 ==>
      Gathered(lines) != [] && Saved(lines, "", "") == Gathered(lines)[..|Gathered(lines)| - 1]
    ensures Saved(lines, "", "") == Gathered(lines) ==>
      Strays(lines, false) == if EndsOpen(lines, false) then 1 else 0
  {
    SavedCount(lines, "", "");
    SavedExactly(lines, "", "");
    assert [] + Gathered(lines) == Gathered(lines);
    if Strays(lines, false) == 0 {
      SavedIsOwed(lines, "", "");
    }
  }

  /** Not blank, no space or tab in front, and no colon, or one with nothing before it. */
  predicate IsStray(line: string) {
    && line != "\n" && line != "\r\n" && (line == "" || (line[0] != ' ' && line[0] != '\t'))
    && (':' !in line || line[0] == ':')
  }

  lemma StrayMeans(line: string)
    ensures IsStray(line) <==> !IsBlank(line) && !IsContinuation(line) && !HasName(line)
  {
    if line != "" && line[0] == ':' {
      assert Colon(line) == 0;
    }
    assert Colon(line) == |line| ==> line[..Colon(line)] == line;
  }

  lemma {:induction false} OnlyContinuations(lines: seq<string>)
    requires forall l <- lines :: IsContinuation(l)
    ensures Gathered(lines) == [] && Strays(lines, true) == 0 && EndsOpen(lines, true)
  {
    if lines != [] {
      OnlyContinuations(lines[1..]);
    }
  }

  lemma {:induction false} EvenedAtTheEnd(front: seq<string>, stray: string, more: seq<string>, key: string,
                                          value: string)
    requires IsStray(stray) && EndsOpen(front, key != "") && Strays(front, key != "") == 0
    requires forall l <- more :: IsContinuation(l)
    ensures EndsOpen(front + [stray] + more, key != "") && Evened(front + [stray] + more, key, value)
  {
    var lines := front + [stray] + more;
    StrayMeans(stray);
    if front == [] {
      assert lines == [stray] + more && lines[1..] == more;
      OnlyContinuations(more);
    } else {
      assert lines[1..] == front[1..] + [stray] + more;
      if IsContinuation(front[0]) {
        EvenedAtTheEnd(front[1..], stray, more, key, value + front[0]);
      } else if HasName(front[0]) {
        EvenedAtTheEnd(front[1..], stray, more, Name(front[0]), FirstValue(front[0]));
      } else {
        EvenedAtTheEnd(front[1..], stray, more, key, value);
      }
    }
  }

  /** A stray line at the open end, behind the last named line, evens out whatever the lines before it are: every field
      is saved once, as it stood before the stray line. */
  lemma StrayAtTheEnd(front: seq<string>, stray: string, more: seq<string>)
    requires IsStray(stray) && EndsOpen(front, false) && Strays(front, false) == 0
    requires forall l <- more :: IsContinuation(l)
    ensures Saved(front + [stray] + more, "", "") == Gathered(front + [stray] + more)
  {
    EvenedAtTheEnd(front, stray, more, "", "");
    SavedOnceExactly(front + [stray] + more);
  }

  // A stray line at an open end: the one field is saved there, and nowhere else.
  lemma StrayAtOpenEnd(p: Printed)
    requires WellFormed(p) && p.more == []
    ensures Saved(PrintedLines(p) + ["b\n"], "", "") == [Meant(p)]
  {
    SavedOne(p, ["b\n"], "", "");
    assert ["b\n"][1..] == [] && "b\n"[1..] == "\n" && "\n"[1..] == "";
    FlushMeant(p);
  }

  // A stray line, then the blank line: the field being gathered is saved at both.
  lemma StrayThenBlank(key: string, value: string)
    ensures Saved(["b\n", "\n"], key, value) == Flush(key, value) + Flush(key, value)
  {
    assert ["b\n", "\n"][1..] == ["\n"];
    assert "b\n"[1..] == "\n" && "\n"[1..] == "";
    SavedAtBlank(["\n"], key, value);
  }

  /** The shortest such block: whatever its one field is, it is saved twice. */
  lemma StrayLineRepeats(p: Printed)
    requires WellFormed(p) && p.more == []
    ensures Saved(PrintedLines(p) + ["b\n", "\n"], "", "") == [Meant(p), Meant(p)]
  {
    SavedOne(p, ["b\n", "\n"], "", "");
    StrayThenBlank(p.name, Trim(p.first) + Concat(p.more));
    FlushMeant(p);
  }
}

/** The header parser (internal/mail/parser.go): lines of a message unfolded into named values. */
module Headers {
  import opened Text

  type Header = map<string, seq<string>>

  /** The complete lines of a text, each with its newline; an unterminated rest is not read. */
  function Lines(text: string): seq<string>
    decreases |text|
  {
    var n := LineEnd(text);
    if n == |text| then [] else [text[..n + 1]] + Lines(text[n + 1..])
  }

  predicate IsBlank(line: string) {
    line == "\r\n" || line == "\n"
  }

  predicate IsContinuation(line: string) {
    line != [] && (line[0] == ' ' || line[0] == '\t')
  }

  function Colon(line: string): (n: nat)
    ensures n <= |line| && ':' !in line[..n]
    ensures n < |line| ==> line[n] == ':'
  {
    if line == [] || line[0] == ':' then 0 else 1 + Colon(line[1..])
  }

  predicate HasName(line: string) {
    0 < Colon(line) < |line|
  }

  function Name(line: string): string {
    Trim(line[..Colon(line)])
  }

  function FirstValue(line: string): string
    requires HasName(line)
  {
    Trim(line[Colon(line) + 1..])
  }

  datatype Field = Field(name: string, value: string)

  function Put(h: Header, f: Field): Header {
    h[f.name := (if f.name in h then h[f.name] else []) + [f.value]]
  }

  // A field is saved only under a name.
  function Flush(key: string, value: string): seq<Field> {
    if key != "" then [Field(key, value)] else []
  }

  /** The fields the parser saves, in order, from the given lines on, with `key` and `value` being gathered. At the
      end of the input without a blank line the field being gathered is lost. */
  function Saved(lines: seq<string>, key: string, value: string): seq<Field> {
    if lines == [] then []
    else
      var line := lines[0];
      if IsBlank(line) then Flush(key, value)
      else if IsContinuation(line) then Saved(lines[1..], key, value + line)
      else if HasName(line) then Flush(key, value) + Saved(lines[1..], Name(line), FirstValue(line))
      else Flush(key, value) + Saved(lines[1..], key, value)
  }

  function Collect(h: Header, fields: seq<Field>): Header
    decreases |fields|
  {
    if fields == [] then h else Collect(Put(h, fields[0]), fields[1..])
  }

  // The next line, or the end of what can be read
  lemma LinesStep(text: string, h: Header, key: string, value: string)
    ensures var n := LineEnd(text);
      if n == |text| then Collect(h, Saved(Lines(text), key, value)) == h
      else Lines(text) == [text[..n + 1]] + Lines(text[n + 1..])
  {
  }

  lemma CollectFlush(h: Header, key: string, value: string, rest: seq<Field>)
    ensures Collect(h, Flush(key, value) + rest) ==
      if key != "" then Collect(Put(h, Field(key, value)), rest) else Collect(h, rest)
  {
    if key != "" {
      assert ([Field(key, value)] + rest)[1..] == rest;
    } else {
      assert [] + rest == rest;
    }
  }

  // The fields saved from one line on
  lemma SavedStep(h: Header, line: string, more: seq<string>, key: string, value: string)
    ensures var (saved, flushed) :=
        (Collect(h, Saved([line] + more, key, value)), if key != "" then Put(h, Field(key, value)) else h);
      if IsBlank(line) then saved == flushed
      else if IsContinuation(line) then saved == Collect(h, Saved(more, key, value + line))
      else if HasName(line) then saved == Collect(flushed, Saved(more, Name(line), FirstValue(line)))
      else saved == Collect(flushed, Saved(more, key, value))
  {
    assert ([line] + more)[1..] == more;
    CollectFlush(h, key, value, []);
    assert Flush(key, value) + [] == Flush(key, value);
    if !IsBlank(line) && !IsContinuation(line) {
      CollectFlush(h, key, value,
                   if HasName(line) then Saved(more, Name(line), FirstValue(line)) else Saved(more, key, value));
    }
  }

  method ParseHeaders(text: string) returns (headers: Header)
    ensures headers == Collect(map[], Saved(Lines(text), "", ""))
  {
    headers := map[];
    var currentKey, currentValue, rest := "", "", text;
    ghost var goal := Collect(map[], Saved(Lines(text), "", ""));
    hide Lines, Saved, Collect, Trim;
    while true
      invariant Collect(headers, Saved(Lines(rest), currentKey, currentValue)) == goal
      decreases |rest|
    {
      var n := LineEnd(rest);
      LinesStep(rest, headers, currentKey, currentValue);
      if n == |rest| {
        break;
      }
      var line := rest[..n + 1];
      SavedStep(headers, line, Lines(rest[n + 1..]), currentKey, currentValue);
      rest := rest[n + 1..];
      if IsBlank(line) {
        if currentKey != "" {
          headers := Put(headers, Field(currentKey, currentValue));
        }
        break;
      }
      if IsContinuation(line) {
        currentValue := currentValue + line;
        continue;
      }
      if currentKey != "" {
        headers := Put(headers, Field(currentKey, currentValue));
      }
      var colon := Colon(line);
      if 0 < colon < |line| {
        currentKey := Trim(line[..colon]);
        currentValue := Trim(line[colon + 1..]);
      }
    }
  }

  // ----- nothing lost, nothing mixed up -----

  /** The values saved under one name, in order. */
  function Values(fields: seq<Field>, name: string): seq<string> {
    if fields == [] then []
    else (if fields[0].name == name then [fields[0].value] else []) + Values(fields[1..], name)
  }

  function Get(h: Header, name: string): seq<string> {
    if name in h then h[name] else []
  }

  lemma GetPut(h: Header, f: Field, name: string)
    ensures Get(Put(h, f), name) == Get(h, name) + if f.name == name then [f.value] else []
    ensures name in Put(h, f) <==> name in h || f.name == name
  {
    assert Get(h, name) + [] == Get(h, name);
  }

  lemma {:induction false} CollectValues(h: Header, fields: seq<Field>, name: string)
    ensures Get(Collect(h, fields), name) == Get(h, name) + Values(fields, name)
    ensures name in Collect(h, fields) <==> name in h || Values(fields, name) != []
    decreases |fields|
  {
    hide Get, Put;
    if fields != [] {
      var f := fields[0];
      CollectValues(Put(h, f), fields[1..], name);
      GetPut(h, f, name);
      Reassociate(Get(h, name), if f.name == name then [f.value] else [], Values(fields[1..], name));
    } else {
      assert Get(h, name) + [] == Get(h, name);
    }
  }

  /** A field as a message carries it: its name, white space up to the colon, the rest of its first line, then its
      continuation lines. */
  datatype Printed = Printed(name: string, pad: string, first: string, more: seq<string>)

  /** A name without a colon or white space at its ends; continuation lines that start with a space or a tab. */
  predicate WellFormed(p: Printed) {
    && p.name != "" && !IsSpace(p.name[0]) && !IsSpace(p.name[|p.name| - 1]) && ':' !in p.name && '\n' !in p.name
    && AllSpaces(p.pad) && '\n' !in p.pad && '\n' !in p.first
    && forall l <- p.more :: l != "" && (l[0] == ' ' || l[0] == '\t') && LineEnd(l) == |l| - 1
  }

  function Concat(lines: seq<string>): string {
    if lines == [] then "" else lines[0] + Concat(lines[1..])
  }

  function PrintedLines(p: Printed): seq<string> {
    [p.name + p.pad + ":" + p.first + "\n"] + p.more
  }

  function AllLines(ps: seq<Printed>): seq<string> {
    if ps == [] then [] else PrintedLines(ps[0]) + AllLines(ps[1..])
  }

  /** The field a reader should get: the trimmed first line followed by the continuations as they stand. */
  function Meant(p: Printed): Field {
    Field(p.name, Trim(p.first) + Concat(p.more))
  }

  function AllMeant(ps: seq<Printed>): seq<Field> {
    if ps == [] then [] else [Meant(ps[0])] + AllMeant(ps[1..])
  }
}

/** The few operations of Go's `strings` package the program relies on, with the laws the other modules need. */
module Text {

  datatype Option<+T> = None | Some(value: T)

  predicate IsSpace(c: char) {
    || c == ' ' || '\t' <= c <= '\r' || c == '\U{85}' || c == '\U{A0}' || c == '\U{1680}'
    || '\U{2000}' <= c <= '\U{200A}' || c == '\U{2028}' || c == '\U{2029}' || c == '\U{202F}'
    || c == '\U{205F}' || c == '\U{3000}'
  }

  function TrimLeft(s: string): string {
    if s != [] && IsSpace(s[0]) then TrimLeft(s[1..]) else s
  }

  function TrimRight(s: string): string {
    if s != [] && IsSpace(s[|s| - 1]) then TrimRight(s[..|s| - 1]) else s
  }

  function Trim(s: string): string {
    TrimRight(TrimLeft(s))
  }

  function LowerChar(c: char): char {
    if 'A' <= c <= 'Z' then c - 'A' + 'a' else c
  }

  /** Folds ASCII letters. */
  function ToLower(s: string): (t: string)
    ensures |t| == |s|
  {
    if s == [] then [] else [LowerChar(s[0])] + ToLower(s[1..])
  }

  /** How far the first newline is away, or the end. */
  function LineEnd(text: string): (n: nat)
    ensures n <= |text| && '\n' !in text[..n]
    ensures n < |text| ==> text[n] == '\n'
  {
    if text == [] || text[0] == '\n' then 0 else 1 + LineEnd(text[1..])
  }

  predicate HasPrefix(s: string, p: string) {
    p <= s
  }

  predicate HasSuffix(s: string, p: string) {
    |p| <= |s| && s[|s| - |p|..] == p
  }

  /** Always at least one part. */
  function Split(s: string, sep: char): (parts: seq<string>)
    ensures parts != []
  {
    if s == [] then [[]]
    else
      var rest := Split(s[1..], sep);
      if s[0] == sep then [[]] + rest else [[s[0]] + rest[0]] + rest[1..]
  }

  function Join(parts: seq<string>, sep: string): string {
    if parts == [] then []
    else if |parts| == 1 then parts[0]
    else parts[0] + sep + Join(parts[1..], sep)
  }

  function WordLength(s: string): (n: nat)
    ensures n <= |s|
    ensures s != [] && !IsSpace(s[0]) ==> n > 0
  {
    if s == [] || IsSpace(s[0]) then 0 else 1 + WordLength(s[1..])
  }

  /** The words of s between runs of white space. */
  function Fields(s: string): seq<string> {
    if s == [] then []
    else if IsSpace(s[0]) then Fields(s[1..])
    else [s[..WordLength(s)]] + Fields(s[WordLength(s)..])
  }

  // ----- laws -----

  lemma Reassociate<T>(a: seq<T>, b: seq<T>, c: seq<T>)
    ensures a + b + c == a + (b + c)
  {
  }

  lemma PrefixMeans(s: string, p: string)
    ensures HasPrefix(s, p) <==> exists t :: s == p + t
    ensures HasSuffix(s, p) <==> exists t :: s == t + p
  {
    if HasPrefix(s, p) {
      assert s == p + s[|p|..];
    }
    if HasSuffix(s, p) {
      assert s == s[..|s| - |p|] + p;
    }
  }

  /** White space, by code point. */
  lemma SpaceCodes(c: char)
    ensures var n := c as int;
      IsSpace(c) <==>
        || n == 32 || (9 <= n <= 13) || n == 133 || n == 160 || n == 5760 || (8192 <= n <= 8202)
        || n == 8232 || n == 8233 || n == 8239 || n == 8287 || n == 12288
  {
  }

  predicate AllSpaces(s: string) {
    forall c <- s :: IsSpace(c)
  }

  lemma {:induction false} TrimLeftPad(pad: string, s: string)
    requires AllSpaces(pad)
    ensures TrimLeft(pad + s) == TrimLeft(s)
  {
    if pad == [] {
      assert pad + s == s;
    } else {
      assert (pad + s)[1..] == pad[1..] + s;
      TrimLeftPad(pad[1..], s);
    }
  }

  lemma {:induction false} TrimRightPad(s: string, pad: string)
    requires AllSpaces(pad)
    ensures TrimRight(s + pad) == TrimRight(s)
  {
    if pad == [] {
      assert s + pad == s;
    } else {
      var n := |pad| - 1;
      assert (s + pad)[..|s + pad| - 1] == s + pad[..n] && (s + pad)[|s + pad| - 1] == pad[n];
      TrimRightPad(s, pad[..n]);
    }
  }

  /** Trimming takes off the white space at both ends and nothing else. */
  lemma TrimPadded(left: string, s: string, right: string)
    requires AllSpaces(left) && AllSpaces(right)
    requires s == [] || (!IsSpace(s[0]) && !IsSpace(s[|s| - 1]))
    ensures Trim(left + s + right) == s
  {
    hide IsSpace;
    assert left + s + right == left + (s + right);
    TrimLeftPad(left, s + right);
    if s == [] {
      assert s + right == right && right + [] == right;
      TrimLeftPad(right, []);
    } else {
      assert (s + right)[0] == s[0];
      TrimRightPad(s, right);
    }
  }

  lemma {:induction false} JoinSplit(s: string, sep: char)
    ensures Join(Split(s, sep), [sep]) == s
  {
    if s != [] {
      JoinSplit(s[1..], sep);
      var rest := Split(s[1..], sep);
      assert s == [s[0]] + s[1..];
      if s[0] == sep {
        assert ([[]] + rest)[1..] == rest;
      } else if |rest| > 1 {
        var parts := [[s[0]] + rest[0]] + rest[1..];
        assert parts[1..] == rest[1..];
        assert parts[0] + [sep] + Join(rest[1..], [sep]) == [s[0]] + (rest[0] + [sep] + Join(rest[1..], [sep]));
      }
    }
  }

  lemma {:induction false} SplitPrefix(p: string, s: string, sep: char)
    requires sep !in p
    ensures Split(p + s, sep) == [p + Split(s, sep)[0]] + Split(s, sep)[1..]
  {
    if p == [] {
      assert p + s == s && p + Split(s, sep)[0] == Split(s, sep)[0];
    } else {
      assert (p + s)[1..] == p[1..] + s;
      SplitPrefix(p[1..], s, sep);
      assert [p[0]] + (p[1..] + Split(s, sep)[0]) == p + Split(s, sep)[0];
    }
  }

  lemma {:induction false} SplitCons(p: string, s: string, sep: char)
    requires sep !in p
    ensures Split(p + [sep] + s, sep) == [p] + Split(s, sep)
    ensures Split(p, sep) == [p]
  {
    SplitPrefix(p, [sep] + s, sep);
    assert p + [sep] + s == p + ([sep] + s);
    assert ([sep] + s)[1..] == s;
    SplitPrefix(p, [], sep);
    assert p + [] == p;
  }

  lemma {:induction false} SplitJoin(parts: seq<string>, sep: char)
    requires parts != [] && forall p <- parts :: sep !in p
    ensures Split(Join(parts, [sep]), sep) == parts
  {
    var first, rest := parts[0], parts[1..];
    assert parts == [first] + rest;
    if rest == [] {
      SplitCons(first, [], sep);
    } else {
      SplitJoin(rest, sep);
      SplitCons(first, Join(rest, [sep]), sep);
    }
    hide Split;
  }

  lemma {:induction false} SplitPartsClean(s: string, sep: char)
    ensures forall p <- Split(s, sep) :: sep !in p
  {
    if s != [] {
      SplitPartsClean(s[1..], sep);
    }
  }

  predicate IsWord(w: string) {
    w != [] && forall c <- w :: !IsSpace(c)
  }

  lemma {:induction false} WordThen(w: string, s: string)
    requires (forall c <- w :: !IsSpace(c)) && (s == [] || IsSpace(s[0]))
    ensures WordLength(w + s) == |w|
  {
    if w != [] {
      assert (w + s)[1..] == w[1..] + s;
      WordThen(w[1..], s);
    } else {
      assert w + s == s;
    }
  }

  lemma {:induction false} FieldsOfWord(w: string, s: string)
    requires IsWord(w) && (s == [] || IsSpace(s[0]))
    ensures Fields(w + s) == [w] + Fields(s)
  {
    WordThen(w, s);
    assert (w + s)[..|w|] == w && (w + s)[|w|..] == s;
  }

  lemma {:induction false} WordIsClean(s: string)
    ensures forall c <- s[..WordLength(s)] :: !IsSpace(c)
    ensures var rest := s[WordLength(s)..]; rest == [] || IsSpace(rest[0])
  {
    if s != [] && !IsSpace(s[0]) {
      WordIsClean(s[1..]);
    }
  }

  lemma {:induction false} FieldsAreWords(s: string)
    ensures forall w <- Fields(s) :: IsWord(w)
    decreases |s|
  {
    if s != [] {
      if IsSpace(s[0]) {
        FieldsAreWords(s[1..]);
      } else {
        WordIsClean(s);
        FieldsAreWords(s[WordLength(s)..]);
      }
    }
  }

  // Every character but the separators is in some part.
  lemma {:induction false} SplitCovers(s: string, sep: char, c: char)
    requires c in s && c != sep
    ensures exists p <- Split(s, sep) :: c in p
  {
    var rest := Split(s[1..], sep);
    if c == s[0] {
      assert c in Split(s, sep)[0];
    } else {
      SplitCovers(s[1..], sep, c);
      var p :| p in rest && c in p;
      if p == rest[0] && s[0] != sep {
        assert c in Split(s, sep)[0];
      } else {
        assert p in Split(s, sep);
      }
    }
  }

  lemma {:induction false} FieldsJoin(words: seq<string>)
    requires forall w <- words :: IsWord(w)
    ensures Fields(Join(words, " ")) == words
  {
    if |words| == 1 {
      FieldsOfWord(words[0], []);
      assert words[0] + [] == words[0];
    } else if words != [] {
      FieldsJoin(words[1..]);
      var rest := " " + Join(words[1..], " ");
      FieldsOfWord(words[0], rest);
      assert words[0] + " " + Join(words[1..], " ") == words[0] + rest;
      assert rest[1..] == Join(words[1..], " ");
    }
  }
}

/**
 * The Python `str` built-ins the scripts rely on, written out as functions:
 * `split()` on whitespace, `split(sep)`, `sep.join(...)`, `strip()`,
 * `splitlines()`, `startswith`, the `in` substring test, the `<` ordering
 * used by `list.sort()`, and `sorted(set(...))`.
 */
module PyStr {
  import opened Collections

  /** The characters `str.isspace()` accepts; `split()`, `strip()` and the regex class `\s` use the same set. */
  predicate IsSpace(c: char)
  {
    || ('\t' <= c <= '\r')
    || ('\U{1c}' <= c <= ' ')
    || c == '\U{85}' || c == '\U{a0}' || c == '\U{1680}'
    || ('\U{2000}' <= c <= '\U{200a}')
    || c == '\U{2028}' || c == '\U{2029}' || c == '\U{202f}' || c == '\U{205f}' || c == '\U{3000}'
  }

  /** A string `split()` can return as one field: non-empty, without whitespace. */
  predicate IsWord(w: string)
  {
    w != [] && forall i :: 0 <= i < |w| ==> !IsSpace(w[i])
  }

  /** `s.startswith(p)`. */
  predicate StartsWith(s: string, p: string)
  {
    p <= s
  }

  /** `sub in s`. */
  predicate Contains(s: string, sub: string)
  {
    sub <= s || (s != [] && Contains(s[1..], sub))
  }

  lemma {:induction false} ContainsAt(s: string, sub: string, k: nat)
    requires k + |sub| <= |s| && s[k..k + |sub|] == sub
    ensures Contains(s, sub)
  {
    if k > 0 {
      assert s[1..][k - 1..k - 1 + |sub|] == sub;
      ContainsAt(s[1..], sub, k - 1);
    }
  }

  // ---------------------------------------------------------------- split()

  /** The number of leading characters of `s` that are not whitespace. */
  function WordLength(s: string): (n: nat)
    ensures n <= |s|
    ensures n < |s| ==> IsSpace(s[n])
  {
    if s == [] || IsSpace(s[0]) then 0 else 1 + WordLength(s[1..])
  }

  /** The leading characters counted hold no whitespace. */
  lemma {:induction false} WordLengthNoSpace(s: string)
    ensures forall i :: 0 <= i < WordLength(s) ==> !IsSpace(s[i])
  {
    if s != [] && !IsSpace(s[0]) {
      WordLengthNoSpace(s[1..]);
    }
  }

  /** `s.split()`: the maximal runs of non-whitespace characters, in order. */
  function Words(s: string): (ws: seq<string>)
    decreases |s|
  {
    if s == [] then []
    else if IsSpace(s[0]) then Words(s[1..])
    else
      var n := WordLength(s);
      [s[..n]] + Words(s[n..])
  }

  /** Every word is non-empty and free of whitespace. */
  lemma {:induction false} WordsAreWords(s: string)
    ensures forall i :: 0 <= i < |Words(s)| ==> IsWord(Words(s)[i])
    decreases |s|
  {
    if s != [] {
      if IsSpace(s[0]) {
        WordsAreWords(s[1..]);
      } else {
        var n := WordLength(s);
        WordLengthNoSpace(s);
        WordsAreWords(s[n..]);
      }
    }
  }

  /** `sep.join(parts)`. */
  function Join(parts: seq<string>, sep: string): string
  {
    if parts == [] then []
    else if |parts| == 1 then parts[0]
    else parts[0] + sep + Join(parts[1..], sep)
  }

  lemma {:induction false} WordLengthOfWord(w: string, t: string)
    requires IsWord(w) && (t == [] || IsSpace(t[0]))
    ensures WordLength(w + t) == |w|
  {
    if |w| > 1 {
      assert (w + t)[1..] == w[1..] + t;
      WordLengthOfWord(w[1..], t);
    } else {
      assert (w + t)[1..] == t;
    }
  }

  /** `split()` undoes joining words with single spaces. */
  lemma {:induction false} WordsOfJoin(ws: seq<string>)
    requires forall i :: 0 <= i < |ws| ==> IsWord(ws[i])
    ensures Words(Join(ws, " ")) == ws
  {
    if ws == [] {
    } else if |ws| == 1 {
      var w := ws[0];
      WordLengthOfWord(w, []);
      assert w + [] == w;
      assert w[|w|..] == [];
    } else {
      var w, rest := ws[0], Join(ws[1..], " ");
      var s := w + " " + rest;
      assert s == w + (" " + rest);
      WordLengthOfWord(w, " " + rest);
      assert s[..|w|] == w;
      assert s[|w|..] == " " + rest;
      assert (" " + rest)[1..] == rest;
      WordsOfJoin(ws[1..]);
    }
  }

  // ------------------------------------------------------------- split(sep)

  /**
   * `s.split(sep)` for a non-empty separator: cut at every occurrence of
   * `sep`, scanning from the left, so the result always has at least one part.
   */
  function Split(s: string, sep: string): (parts: seq<string>)
    requires sep != []
    ensures |parts| >= 1
    decreases |s|
  {
    if |s| < |sep| then [s]
    else if s[..|sep|] == sep then [[]] + Split(s[|sep|..], sep)
    else
      var rest := Split(s[1..], sep);
      [[s[0]] + rest[0]] + rest[1..]
  }

  /** A prefix without the separator's first character stays in the first part. */
  lemma {:induction false} SplitPrefix(a: string, rest: string, sep: string)
    requires sep != [] && sep[0] !in a
    ensures Split(a + rest, sep) == [a + Split(rest, sep)[0]] + Split(rest, sep)[1..]
  {
    var s := a + rest;
    if a == [] {
      assert s == rest;
      assert a + Split(rest, sep)[0] == Split(rest, sep)[0];
      assert Split(rest, sep) == [Split(rest, sep)[0]] + Split(rest, sep)[1..];
    } else if |s| < |sep| {
      assert Split(rest, sep) == [rest];
    } else {
      assert s[0] == a[0];
      assert s[..|sep|] != sep;
      assert s[1..] == a[1..] + rest;
      SplitPrefix(a[1..], rest, sep);
      assert [a[0]] + (a[1..] + Split(rest, sep)[0]) == a + Split(rest, sep)[0];
    }
  }

  lemma JoinCons(a: string, parts: seq<string>, sep: string)
    requires parts != []
    ensures Join([a + parts[0]] + parts[1..], sep) == a + Join(parts, sep)
  {
    var ps := [a + parts[0]] + parts[1..];
    assert ps[1..] == parts[1..];
  }

  /** Joining the parts with the separator gives back the string. */
  lemma {:induction false} JoinSplit(s: string, sep: string)
    requires sep != []
    ensures Join(Split(s, sep), sep) == s
    decreases |s|
  {
    if |s| < |sep| {
    } else if s[..|sep|] == sep {
      var t := s[|sep|..];
      JoinSplit(t, sep);
      var ps := [[]] + Split(t, sep);
      assert ps[1..] == Split(t, sep);
      assert s == sep + t;
    } else {
      var rest := Split(s[1..], sep);
      JoinSplit(s[1..], sep);
      JoinCons([s[0]], rest, sep);
      assert s == [s[0]] + s[1..];
    }
  }

  /** No part of the split holds the separator. */
  lemma {:induction false} SplitPartsAvoidSep(s: string, sep: string)
    requires sep != []
    ensures forall i :: 0 <= i < |Split(s, sep)| ==> !Contains(Split(s, sep)[i], sep)
    decreases |s|
  {
    if |s| < |sep| {
      NotContainsShort(s, sep);
    } else if s[..|sep|] == sep {
      SplitPartsAvoidSep(s[|sep|..], sep);
      assert !Contains([], sep);
    } else {
      var rest := Split(s[1..], sep);
      SplitPartsAvoidSep(s[1..], sep);
      var first := [s[0]] + rest[0];
      JoinSplit(s[1..], sep);
      PrefixOfJoin(rest, sep);
      assert first <= s;
      assert !(sep <= first);
      assert first[1..] == rest[0];
      assert !Contains(first, sep);
      var parts := [first] + rest[1..];
      forall i | 0 <= i < |parts| ensures !Contains(parts[i], sep) {
        if i > 0 { assert parts[i] == rest[i]; }
      }
    }
  }

  lemma {:induction false} NotContainsShort(s: string, sep: string)
    requires |s| < |sep|
    ensures !Contains(s, sep)
  {
    if s != [] { NotContainsShort(s[1..], sep); }
  }

  lemma PrefixOfJoin(parts: seq<string>, sep: string)
    requires parts != []
    ensures parts[0] <= Join(parts, sep)
  {
  }

  // ------------------------------------------------------------------ strip()

  /** `s.lstrip()`: the suffix left after dropping leading whitespace. */
  function LStrip(s: string): (r: string)
    ensures |r| <= |s| && r == s[|s| - |r|..]
    ensures r != [] ==> !IsSpace(r[0])
  {
    if s != [] && IsSpace(s[0]) then LStrip(s[1..]) else s
  }

  /** What `lstrip()` drops is whitespace. */
  lemma {:induction false} LStripDropsSpace(s: string)
    ensures forall i :: 0 <= i < |s| - |LStrip(s)| ==> IsSpace(s[i])
  {
    if s != [] && IsSpace(s[0]) {
      LStripDropsSpace(s[1..]);
    }
  }

  /** Leading whitespace before a non-whitespace character is what `lstrip()` drops. */
  lemma {:induction false} LStripIndent(indent: string, tail: string)
    requires forall i :: 0 <= i < |indent| ==> IsSpace(indent[i])
    requires tail != [] && !IsSpace(tail[0])
    ensures LStrip(indent + tail) == tail
  {
    if indent == [] {
      assert indent + tail == tail;
    } else {
      var s := indent + tail;
      assert s[0] == indent[0];
      assert s[1..] == indent[1..] + tail;
      LStripIndent(indent[1..], tail);
    }
  }

  /** `s.rstrip()`: the prefix left after dropping trailing whitespace. */
  function RStrip(s: string): (r: string)
    ensures |r| <= |s| && r == s[..|r|]
    ensures r != [] ==> !IsSpace(r[|r| - 1])
  {
    if s != [] && IsSpace(s[|s| - 1]) then RStrip(s[..|s| - 1]) else s
  }

  /** What `rstrip()` drops is whitespace. */
  lemma {:induction false} RStripDropsSpace(s: string)
    ensures forall i :: |RStrip(s)| <= i < |s| ==> IsSpace(s[i])
  {
    if s != [] && IsSpace(s[|s| - 1]) {
      RStripDropsSpace(s[..|s| - 1]);
    }
  }

  /** `s.strip()`. */
  function Strip(s: string): string
  {
    RStrip(LStrip(s))
  }

  /** Stripping leaves nothing exactly when the string is all whitespace. */
  lemma StripEmpty(s: string)
    ensures Strip(s) == [] <==> forall i :: 0 <= i < |s| ==> IsSpace(s[i])
  {
    var l := LStrip(s);
    var k := |s| - |l|;
    LStripDropsSpace(s);
    RStripDropsSpace(l);
    assert l != [] ==> l[0] == s[k];
  }

  // -------------------------------------------------------------- splitlines()

  /** The characters `str.splitlines()` treats as line boundaries. */
  predicate IsLineBreak(c: char)
  {
    c == '\n' || c == '\r' || c == '\U{0b}' || c == '\U{0c}' || c == '\U{1c}' || c == '\U{1d}' || c == '\U{1e}'
    || c == '\U{85}' || c == '\U{2028}' || c == '\U{2029}'
  }

  function LineLength(s: string): (n: nat)
    ensures n <= |s|
    ensures n < |s| ==> IsLineBreak(s[n])
  {
    if s == [] || IsLineBreak(s[0]) then 0 else 1 + LineLength(s[1..])
  }

  /** The characters counted hold no line boundary. */
  lemma {:induction false} LineLengthNoBreak(s: string)
    ensures forall i :: 0 <= i < LineLength(s) ==> !IsLineBreak(s[i])
  {
    if s != [] && !IsLineBreak(s[0]) {
      LineLengthNoBreak(s[1..]);
    }
  }

  /**
   * `s.splitlines()`: the lines without their terminators; `\r\n` ends one
   * line, and a final terminator does not start an extra empty line.
   */
  function SplitLines(s: string): seq<string>
    decreases |s|
  {
    if s == [] then []
    else
      var n := LineLength(s);
      if n == |s| then [s]
      else
        var next := if s[n] == '\r' && n + 1 < |s| && s[n + 1] == '\n' then n + 2 else n + 1;
        [s[..n]] + SplitLines(s[next..])
  }

  /** No line `splitlines()` returns holds a line boundary. */
  lemma {:induction false} SplitLinesHaveNoBreaks(s: string)
    ensures forall i, j :: 0 <= i < |SplitLines(s)| && 0 <= j < |SplitLines(s)[i]| ==> !IsLineBreak(SplitLines(s)[i][j])
    decreases |s|
  {
    if s != [] {
      var n := LineLength(s);
      LineLengthNoBreak(s);
      if n < |s| {
        var next := if s[n] == '\r' && n + 1 < |s| && s[n + 1] == '\n' then n + 2 else n + 1;
        SplitLinesHaveNoBreaks(s[next..]);
      }
    }
  }

  /** Text written as lines each ending in `\n`, as `nm` prints them. */
  function Terminated(lines: seq<string>): string
  {
    if lines == [] then [] else lines[0] + "\n" + Terminated(lines[1..])
  }

  lemma {:induction false} LineLengthOfLine(l: string, t: string)
    requires forall j :: 0 <= j < |l| ==> !IsLineBreak(l[j])
    requires t != [] && IsLineBreak(t[0])
    ensures LineLength(l + t) == |l|
  {
    if l != [] {
      assert (l + t)[1..] == l[1..] + t;
      LineLengthOfLine(l[1..], t);
    }
  }

  /** `splitlines()` gives back the lines of `\n`-terminated text. */
  lemma {:induction false} SplitLinesOfTerminated(lines: seq<string>)
    requires forall i, j :: 0 <= i < |lines| && 0 <= j < |lines[i]| ==> !IsLineBreak(lines[i][j])
    ensures SplitLines(Terminated(lines)) == lines
  {
    if lines != [] {
      var l, rest := lines[0], Terminated(lines[1..]);
      var s := l + ("\n" + rest);
      assert Terminated(lines) == s;
      LineLengthOfLine(l, "\n" + rest);
      assert s[|l|] == '\n';
      assert s[..|l|] == l;
      assert s[|l| + 1..] == rest;
      SplitLinesOfTerminated(lines[1..]);
    }
  }

  // ----------------------------------------------------- ordering and sorting

  /** Python's `a < b` on strings: lexicographic by code point, a proper prefix first. */
  predicate Less(a: string, b: string)
  {
    if a == [] then b != []
    else if b == [] then false
    else if a[0] != b[0] then a[0] < b[0]
    else Less(a[1..], b[1..])
  }

  lemma {:induction false} LessIrreflexive(a: string)
    ensures !Less(a, a)
  {
    if a != [] { LessIrreflexive(a[1..]); }
  }

  lemma {:induction false} LessTransitive(a: string, b: string, c: string)
    requires Less(a, b) && Less(b, c)
    ensures Less(a, c)
  {
    if a != [] && b != [] && c != [] && a[0] == b[0] && b[0] == c[0] {
      LessTransitive(a[1..], b[1..], c[1..]);
    }
  }

  lemma {:induction false} LessTotal(a: string, b: string)
    requires a != b
    ensures Less(a, b) || Less(b, a)
  {
    if a != [] && b != [] && a[0] == b[0] {
      assert a == [a[0]] + a[1..] && b == [b[0]] + b[1..];
      LessTotal(a[1..], b[1..]);
    }
  }

  lemma LessAsymmetric(a: string, b: string)
    requires Less(a, b)
    ensures !Less(b, a)
  {
    if Less(b, a) {
      LessTransitive(a, b, a);
      LessIrreflexive(a);
    }
  }

  /** Ascending without repetitions, as `sorted(set(...))` returns. */
  predicate StrictlySorted(s: seq<string>)
  {
    forall i, j :: 0 <= i < j < |s| ==> Less(s[i], s[j])
  }

  /** `l` is the sorted list of the strings in `set`. */
  predicate SortedListOf(l: seq<string>, elems: set<string>)
  {
    StrictlySorted(l) && Elems(l) == elems
  }

  /** A set has only one sorted list. */
  lemma {:induction false} SortedListUnique(a: seq<string>, b: seq<string>, elems: set<string>)
    requires SortedListOf(a, elems) && SortedListOf(b, elems)
    ensures a == b
    decreases |a|
  {
    if a != [] && b != [] {
      assert a[0] in Elems(b) && b[0] in Elems(a);
      if a[0] != b[0] {
        var i :| 0 <= i < |b| && b[i] == a[0];
        var j :| 0 <= j < |a| && a[j] == b[0];
        assert Less(b[0], a[0]) && Less(a[0], b[0]);
        LessAsymmetric(a[0], b[0]);
      }
      forall x | x in a[1..] ensures x != a[0] {
        var k :| 1 <= k < |a| && a[k] == x;
        assert Less(a[0], a[k]);
        LessIrreflexive(a[0]);
      }
      forall x | x in b[1..] ensures x != b[0] {
        var k :| 1 <= k < |b| && b[k] == x;
        assert Less(b[0], b[k]);
        LessIrreflexive(b[0]);
      }
      assert Elems(a) == {a[0]} + Elems(a[1..]);
      assert Elems(b) == {b[0]} + Elems(b[1..]);
      assert Elems(a[1..]) == elems - {a[0]};
      assert Elems(b[1..]) == elems - {b[0]};
      SortedListUnique(a[1..], b[1..], elems - {a[0]});
      assert a == [a[0]] + a[1..] && b == [b[0]] + b[1..];
    } else {
      ElemsEmpty(a);
      ElemsEmpty(b);
    }
  }

  /** The least string of a non-empty set. */
  method Least(elems: set<string>) returns (m: string)
    requires elems != {}
    ensures m in elems && forall y :: y in elems && y != m ==> Less(m, y)
  {
    m :| m in elems;
    var rest := elems - {m};
    while rest != {}
      invariant m in elems && rest <= elems && m !in rest
      invariant forall y :: y in elems - rest && y != m ==> Less(m, y)
      decreases rest
    {
      var y :| y in rest;
      if Less(y, m) {
        forall z | z in elems - rest && z != y ensures Less(y, z) {
          if z != m { LessTransitive(y, m, z); }
        }
        m := y;
      } else {
        LessTotal(m, y);
      }
      rest := rest - {y};
    }
  }

  /** `l = list(elems); l.sort()`. */
  method SortedList(elems: set<string>) returns (l: seq<string>)
    ensures SortedListOf(l, elems)
  {
    l := [];
    var rest := elems;
    while rest != {}
      invariant rest <= elems && Elems(l) == elems - rest
      invariant StrictlySorted(l)
      invariant forall i, y :: 0 <= i < |l| && y in rest ==> Less(l[i], y)
      decreases rest
    {
      var m := Least(rest);
      forall i, y | 0 <= i < |l| && y in rest - {m} ensures Less(l[i], y) {
        LessTransitive(l[i], m, y);
      }
      assert Elems(l + [m]) == Elems(l) + {m};
      l := l + [m];
      rest := rest - {m};
    }
  }
}

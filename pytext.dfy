/** The handful of Python `str` operations the editor's text routines are built
    from, written out with the semantics CPython gives them: `isspace`,
    `strip`/`lstrip`/`rstrip`, `split(sep)`, `sep.join`, `splitlines`,
    `replace`, `count`, `int()` on a decimal literal and `str()` of an int. */
module PyText {
  import opened Outcomes

  // ---------------------------------------------------------------------
  // Character classes

  /** `c.isspace()`: the characters CPython treats as whitespace (the same
      test `\s` uses in a `str` regular expression). */
  predicate IsSpace(c: char) {
    ('\t' <= c <= '\r') || ('\U{1C}' <= c <= '\U{1F}') || c == ' ' ||
    c == '\U{85}' || c == '\U{A0}' || c == '\U{1680}' ||
    ('\U{2000}' <= c <= '\U{200A}') || c == '\U{2028}' || c == '\U{2029}' ||
    c == '\U{202F}' || c == '\U{205F}' || c == '\U{3000}'
  }

  /** The line boundaries `str.splitlines` breaks at (`\r\n` counts as one). */
  predicate IsLineBreak(c: char) {
    c == '\n' || c == '\r' || c == '\U{0B}' || c == '\U{0C}' ||
    ('\U{1C}' <= c <= '\U{1E}') || c == '\U{85}' || c == '\U{2028}' || c == '\U{2029}'
  }

  predicate IsDigit(c: char) { '0' <= c <= '9' }

  predicate AllSpace(s: string) {
    forall i :: 0 <= i < |s| ==> IsSpace(s[i])
  }

  /** `not s.strip()`: the string holds whitespace only. */
  predicate IsBlank(s: string) {
    AllSpace(s)
  }

  // ---------------------------------------------------------------------
  // Stripping

  /** `s.lstrip()`: the suffix left after removing all leading whitespace
      (`LStripShape` states what it is). */
  function LStrip(s: string): (r: string)
    ensures |r| <= |s|
  {
    if s != [] && IsSpace(s[0]) then LStrip(s[1..]) else s
  }

  /** `s.rstrip()`: the prefix left after removing all trailing whitespace
      (`RStripShape` states what it is). */
  function RStrip(s: string): (r: string)
    ensures |r| <= |s|
  {
    if s != [] && IsSpace(s[|s| - 1]) then RStrip(s[..|s| - 1]) else s
  }

  /** `lstrip` removes a blank prefix, and exactly the longest one: what is
      left is empty or starts with a non-space. */
  lemma {:induction false} LStripShape(s: string)
    ensures LStrip(s) == s[|s| - |LStrip(s)|..]
    ensures AllSpace(s[..|s| - |LStrip(s)|])
    ensures LStrip(s) == [] || !IsSpace(LStrip(s)[0])
  {
    if s != [] && IsSpace(s[0]) {
      LStripShape(s[1..]);
      var k := |s| - |LStrip(s)|;
      assert s[1..][..k - 1] == s[1..k];
      assert forall i :: 1 <= i < k ==> s[i] == s[1..k][i - 1];
    }
  }

  /** `rstrip` removes a blank suffix, and exactly the longest one. */
  lemma {:induction false} RStripShape(s: string)
    ensures RStrip(s) == s[..|RStrip(s)|]
    ensures AllSpace(s[|RStrip(s)|..])
    ensures RStrip(s) == [] || !IsSpace(RStrip(s)[|RStrip(s)| - 1])
  {
    if s != [] && IsSpace(s[|s| - 1]) {
      var t := s[..|s| - 1];
      RStripShape(t);
      var k := |RStrip(s)|;
      assert t[..k] == s[..k];
      assert forall i :: k <= i < |s| - 1 ==> s[i] == t[k..][i - k];
    }
  }

  /** `s.strip()`. */
  function Strip(s: string): string {
    RStrip(LStrip(s))
  }

  /** `s.lstrip(chars)`: remove leading characters that belong to `cs`. */
  function LStripChars(s: string, cs: set<char>): (r: string)
    ensures |r| <= |s|
  {
    if s != [] && s[0] in cs then LStripChars(s[1..], cs) else s
  }

  /** `lstrip(chars)` removes the longest prefix made of `cs`. */
  lemma {:induction false} LStripCharsShape(s: string, cs: set<char>)
    ensures LStripChars(s, cs) == s[|s| - |LStripChars(s, cs)|..]
    ensures forall i :: 0 <= i < |s| - |LStripChars(s, cs)| ==> s[i] in cs
    ensures LStripChars(s, cs) == [] || LStripChars(s, cs)[0] !in cs
  {
    if s != [] && s[0] in cs {
      LStripCharsShape(s[1..], cs);
      var k := |s| - |LStripChars(s, cs)|;
      assert forall i :: 1 <= i < k ==> s[i] == s[1..][i - 1];
    }
  }

  lemma LStripOfUnpadded(s: string)
    requires s == [] || !IsSpace(s[0])
    ensures LStrip(s) == s
  {
  }

  lemma RStripOfUnpadded(s: string)
    requires s == [] || !IsSpace(s[|s| - 1])
    ensures RStrip(s) == s
  {
  }

  /** Stripping a string that starts and ends with a non-space changes nothing. */
  lemma StripOfUnpadded(s: string)
    requires s == [] || (!IsSpace(s[0]) && !IsSpace(s[|s| - 1]))
    ensures Strip(s) == s
  {
    LStripOfUnpadded(s);
    RStripOfUnpadded(s);
  }

  /** The stripped string is empty exactly when the input is blank. */
  lemma StripEmptyIffBlank(s: string)
    ensures Strip(s) == [] <==> IsBlank(s)
  {
    var l := LStrip(s);
    LStripShape(s);
    RStripShape(l);
    assert s == s[..|s| - |l|] + l;
    if l != [] {
      assert l[0] == s[|s| - |l|];
      assert RStrip(l) != [] by { assert l[0..] == l; }
    }
  }

  /** Whitespace in front of a string does not survive `lstrip`. */
  lemma {:induction false} LStripPaddedLeft(w: string, s: string)
    requires AllSpace(w)
    ensures LStrip(w + s) == LStrip(s)
  {
    if w != [] {
      assert (w + s)[1..] == w[1..] + s;
      LStripPaddedLeft(w[1..], s);
    } else {
      assert w + s == s;
    }
  }

  /** Whitespace behind a string does not survive `rstrip`. */
  lemma {:induction false} RStripPaddedRight(s: string, w: string)
    requires AllSpace(w)
    ensures RStrip(s + w) == RStrip(s)
  {
    if w != [] {
      assert (s + w)[..|s + w| - 1] == s + w[..|w| - 1];
      RStripPaddedRight(s, w[..|w| - 1]);
    } else {
      assert s + w == s;
    }
  }

  /** A string is `a + t + b` with blank borders and `t` unpadded exactly
      when its `strip()` is `t`. */
  lemma StripIsCore(a: string, t: string, b: string)
    requires AllSpace(a) && AllSpace(b)
    requires t == [] || (!IsSpace(t[0]) && !IsSpace(t[|t| - 1]))
    ensures Strip(a + t + b) == t
  {
    assert a + t + b == a + (t + b);
    LStripPaddedLeft(a, t + b);
    if t == [] {
      assert a + t + b == a + b;
      assert AllSpace(a + b);
      StripEmptyIffBlank(a + b);
    } else {
      LStripOfUnpadded(t + b);
      RStripPaddedRight(t, b);
      RStripOfUnpadded(t);
    }
  }

  /** `strip` cuts a blank prefix and a blank suffix, and what is left is
      unpadded. */
  lemma StripShape(s: string)
    ensures var a := |s| - |LStrip(s)|;
      && a + |Strip(s)| <= |s| && Strip(s) == s[a..a + |Strip(s)|]
      && AllSpace(s[..a]) && AllSpace(s[a + |Strip(s)|..])
    ensures Strip(s) == [] || (!IsSpace(Strip(s)[0]) && !IsSpace(Strip(s)[|Strip(s)| - 1]))
  {
    StripBorders(s);
    StripUnpadded(s);
  }

  lemma StripBorders(s: string)
    ensures var a := |s| - |LStrip(s)|;
      && a + |Strip(s)| <= |s| && Strip(s) == s[a..a + |Strip(s)|]
      && AllSpace(s[..a]) && AllSpace(s[a + |Strip(s)|..])
  {
    LStripShape(s);
    RStripShape(LStrip(s));
    NestedBorders(s, LStrip(s), Strip(s));
  }

  /** A prefix of a suffix of `s` is a slice of `s`, with blank borders when
      both cuts removed only whitespace. */
  lemma NestedBorders(s: string, l: string, r: string)
    requires |l| <= |s| && l == s[|s| - |l|..] && AllSpace(s[..|s| - |l|])
    requires |r| <= |l| && r == l[..|r|] && AllSpace(l[|r|..])
    ensures var a := |s| - |l|;
      && a + |r| <= |s| && r == s[a..a + |r|]
      && AllSpace(s[..a]) && AllSpace(s[a + |r|..])
  {
    var a := |s| - |l|;
    SuffixSlices(s, a, |r|);
    assert l[|r|..] == s[a + |r|..];
  }

  lemma StripUnpadded(s: string)
    ensures Strip(s) == [] || (!IsSpace(Strip(s)[0]) && !IsSpace(Strip(s)[|Strip(s)| - 1]))
  {
    var l := LStrip(s);
    LStripShape(s);
    RStripShape(l);
    var r := RStrip(l);
    if r != [] {
      assert r[0] == l[0];
    }
  }

  /** Slicing a suffix is slicing the string itself. */
  lemma SuffixSlices(s: string, a: nat, j: nat)
    requires a + j <= |s|
    ensures s[a..][..j] == s[a..a + j]
    ensures s[a..][j..] == s[a + j..]
  {
  }

  // ---------------------------------------------------------------------
  // The text without its whitespace

  /** The non-whitespace characters of `s`, in order. */
  function NonSpace(s: string): string {
    if s == [] then [] else (if IsSpace(s[0]) then [] else [s[0]]) + NonSpace(s[1..])
  }

  lemma {:induction false} NonSpaceAppend(a: string, b: string)
    ensures NonSpace(a + b) == NonSpace(a) + NonSpace(b)
  {
    if a != [] {
      assert (a + b)[1..] == a[1..] + b;
      NonSpaceAppend(a[1..], b);
    } else {
      assert a + b == b;
    }
  }

  lemma {:induction false} NonSpaceOfBlank(w: string)
    requires AllSpace(w)
    ensures NonSpace(w) == []
  {
    if w != [] {
      NonSpaceOfBlank(w[1..]);
    }
  }

  /** `strip` removes whitespace only. */
  lemma NonSpaceStrip(s: string)
    ensures NonSpace(Strip(s)) == NonSpace(s)
  {
    NonSpaceLStrip(s);
    NonSpaceRStrip(LStrip(s));
  }

  lemma NonSpaceLStrip(s: string)
    ensures NonSpace(LStrip(s)) == NonSpace(s)
  {
    LStripShape(s);
    var k := |s| - |LStrip(s)|;
    assert s == s[..k] + LStrip(s);
    NonSpaceAppend(s[..k], LStrip(s));
    NonSpaceOfBlank(s[..k]);
  }

  lemma NonSpaceRStrip(s: string)
    ensures NonSpace(RStrip(s)) == NonSpace(s)
  {
    RStripShape(s);
    var k := |RStrip(s)|;
    assert s == RStrip(s) + s[k..];
    NonSpaceAppend(RStrip(s), s[k..]);
    NonSpaceOfBlank(s[k..]);
  }

  // ---------------------------------------------------------------------
  // Splitting and joining

  /** `sep.join(parts)`. */
  function Join(sep: string, parts: seq<string>): string {
    if parts == [] then []
    else if |parts| == 1 then parts[0]
    else parts[0] + sep + Join(sep, parts[1..])
  }

  /** `s.split(sep)` for a non-empty separator: cut at every leftmost,
      non-overlapping occurrence of `sep`; always at least one piece. */
  function Split(s: string, sep: string): (r: seq<string>)
    requires |sep| > 0
    ensures |r| >= 1
    decreases |s|
  {
    if |s| < |sep| then [s]
    else if s[..|sep|] == sep then [[]] + Split(s[|sep|..], sep)
    else
      var rest := Split(s[1..], sep);
      [[s[0]] + rest[0]] + rest[1..]
  }

  lemma JoinConsHead(sep: string, c: seq<char>, x: string, rest: seq<string>)
    ensures Join(sep, [c + x] + rest) == c + Join(sep, [x] + rest)
  {
    if rest != [] {
      assert ([c + x] + rest)[1..] == rest;
      assert ([x] + rest)[1..] == rest;
    }
  }

  /** Joining one more part adds the separator and the part at the end. */
  lemma {:induction false} JoinSnoc(sep: string, xs: seq<string>, x: string)
    ensures Join(sep, xs + [x]) == if xs == [] then x else Join(sep, xs) + sep + x
    decreases |xs|
  {
    if |xs| == 1 {
      assert (xs + [x])[1..] == [x];
    } else if |xs| >= 2 {
      JoinSnoc(sep, xs[1..], x);
      assert (xs + [x])[1..] == xs[1..] + [x];
    }
  }

  /** Extending the last part of a join extends the joined string. */
  lemma JoinExtendLast(sep: string, xs: seq<string>, a: string, b: string)
    ensures Join(sep, xs + [a + b]) == Join(sep, xs + [a]) + b
  {
    JoinSnoc(sep, xs, a + b);
    JoinSnoc(sep, xs, a);
    if xs != [] {
      ConcatAssoc(Join(sep, xs) + sep, a, b);
    }
  }

  lemma ConcatAssoc(j: string, a: string, b: string)
    ensures j + (a + b) == (j + a) + b
  {
  }

  /** The whitespace-free content of the parts, one after the other. */
  function NonSpaceAll(xs: seq<string>): string {
    if xs == [] then [] else NonSpaceAll(xs[..|xs| - 1]) + NonSpace(xs[|xs| - 1])
  }

  lemma NonSpaceAllSnoc(xs: seq<string>, x: string)
    ensures NonSpaceAll(xs + [x]) == NonSpaceAll(xs) + NonSpace(x)
  {
    assert (xs + [x])[..|xs|] == xs;
  }

  /** Joining with a blank separator adds whitespace only. */
  lemma {:induction false} NonSpaceJoin(sep: string, xs: seq<string>)
    requires AllSpace(sep)
    ensures NonSpace(Join(sep, xs)) == NonSpaceAll(xs)
    decreases |xs|
  {
    if xs != [] {
      var init := xs[..|xs| - 1];
      var x := xs[|xs| - 1];
      assert xs == init + [x];
      NonSpaceJoin(sep, init);
      JoinSnoc(sep, init, x);
      NonSpaceAllSnoc(init, x);
      NonSpaceOfBlank(sep);
      if init != [] {
        NonSpaceAppend(Join(sep, init) + sep, x);
        NonSpaceAppend(Join(sep, init), sep);
      }
    }
  }

  /** Joining the pieces of `s.split(sep)` with `sep` gives back `s`. */
  lemma {:induction false} JoinSplit(s: string, sep: string)
    requires |sep| > 0
    ensures Join(sep, Split(s, sep)) == s
    decreases |s|
  {
    if |s| < |sep| {
    } else if s[..|sep|] == sep {
      var rest := Split(s[|sep|..], sep);
      assert Split(s, sep) == [[]] + rest;
      JoinSplit(s[|sep|..], sep);
      JoinConsEmpty(sep, rest);
      assert s == sep + s[|sep|..];
    } else {
      var rest := Split(s[1..], sep);
      assert Split(s, sep) == [[s[0]] + rest[0]] + rest[1..];
      JoinSplit(s[1..], sep);
      assert rest == [rest[0]] + rest[1..];
      JoinConsHead(sep, [s[0]], rest[0], rest[1..]);
      assert s == [s[0]] + s[1..];
    }
  }

  lemma JoinConsEmpty(sep: string, rest: seq<string>)
    requires rest != []
    ensures Join(sep, [[]] + rest) == sep + Join(sep, rest)
  {
    assert ([[]] + rest)[1..] == rest;
  }

  /** A string without the (single character) separator splits into itself. */
  lemma {:induction false} SplitWithout(s: string, c: char)
    requires c !in s
    ensures Split(s, [c]) == [s]
    decreases |s|
  {
    if |s| >= 1 {
      assert s[..1] != [c] by { assert s[..1][0] == s[0]; }
      SplitWithout(s[1..], c);
      assert [s[0]] + s[1..] == s;
    }
  }

  /** Splitting at the first separator when the text before it has none. */
  lemma {:induction false} SplitAtFirst(a: string, c: char, b: string)
    requires c !in a
    ensures Split(a + [c] + b, [c]) == [a] + Split(b, [c])
    decreases |a|
  {
    var s := a + [c] + b;
    if a == [] {
      assert s[..1] == [c];
      assert s[1..] == b;
    } else {
      assert s[..1] == [a[0]];
      assert s[1..] == a[1..] + [c] + b;
      SplitAtFirst(a[1..], c, b);
      assert [a[0]] + a[1..] == a;
    }
  }

  /** The pieces of a split on one character never contain that character,
      and there is one cut per occurrence. */
  lemma {:induction false} SplitPiecesFree(s: string, c: char)
    ensures forall k :: 0 <= k < |Split(s, [c])| ==> c !in Split(s, [c])[k]
    ensures c in s ==> |Split(s, [c])| >= 2
    decreases |s|
  {
    if |s| >= 1 {
      SplitPiecesFree(s[1..], c);
      var rest := Split(s[1..], [c]);
      if s[..1] == [c] {
        assert s[0] == c by { assert s[..1][0] == s[0]; }
      } else {
        assert s[..1] == [s[0]];
        forall k | 0 <= k < |Split(s, [c])| ensures c !in Split(s, [c])[k] {
          if k == 0 {
            assert Split(s, [c])[0] == [s[0]] + rest[0];
          } else {
            assert Split(s, [c])[k] == rest[k];
          }
        }
        if c in s {
          assert c in s[1..] by {
            var j :| 0 <= j < |s| && s[j] == c;
            assert s[1..][j - 1] == c;
          }
        }
      }
    }
  }

  /** Splitting at a separator character the pieces do not hold gives
      the pieces back. */
  lemma {:induction false} SplitJoin(xs: seq<string>, c: char)
    requires xs != []
    requires forall k :: 0 <= k < |xs| ==> c !in xs[k]
    ensures Split(Join([c], xs), [c]) == xs
  {
    if |xs| == 1 {
      SplitWithout(xs[0], c);
    } else {
      SplitJoin(xs[1..], c);
      SplitAtFirst(xs[0], c, Join([c], xs[1..]));
      assert [xs[0]] + xs[1..] == xs;
    }
  }

  /** A character missing from a string is missing from its suffixes. */
  lemma NotInSuffix(s: string, i: int, c: char)
    requires 0 <= i <= |s| && c !in s
    ensures c !in s[i..]
  {
  }

  /** `s.startswith(p)`. */
  predicate StartsWith(s: string, p: string) {
    |p| <= |s| && s[..|p|] == p
  }

  /** `s * n` for a count `n >= 0`. */
  function Repeat(s: string, n: nat): (r: string)
    ensures |r| == n * |s|
  {
    if n == 0 then [] else s + Repeat(s, n - 1)
  }

  /** `s.splitlines()`: lines without their terminators; `\r\n` is one break,
      and a break at the very end adds no empty last line. */
  function SplitLines(s: string): seq<string>
    decreases |s|
  {
    if s == [] then []
    else
      var i := FirstBreak(s);
      if i == |s| then [s]
      else
        var next := if s[i] == '\r' && i + 1 < |s| && s[i + 1] == '\n' then i + 2 else i + 1;
        [s[..i]] + SplitLines(s[next..])
  }

  /** Index of the first line break of `s`, or `|s|` when there is none. */
  function FirstBreak(s: string): (i: nat)
    ensures i <= |s| && (i < |s| ==> IsLineBreak(s[i]))
    ensures forall j :: 0 <= j < i ==> !IsLineBreak(s[j])
  {
    if s == [] || IsLineBreak(s[0]) then 0 else 1 + FirstBreak(s[1..])
  }

  /** A line without a line-break character. */
  predicate NoLineBreak(line: string) {
    forall j :: 0 <= j < |line| ==> !IsLineBreak(line[j])
  }

  /** No line `splitlines` returns contains a line break. */
  lemma {:induction false} SplitLinesBreakFree(s: string)
    ensures forall k :: 0 <= k < |SplitLines(s)| ==> NoLineBreak(SplitLines(s)[k])
    decreases |s|
  {
    if s != [] {
      var i := FirstBreak(s);
      var lines := SplitLines(s);
      assert NoLineBreak(s[..i]);
      if i < |s| {
        var next := if s[i] == '\r' && i + 1 < |s| && s[i + 1] == '\n' then i + 2 else i + 1;
        var rest := SplitLines(s[next..]);
        SplitLinesBreakFree(s[next..]);
        assert lines == [s[..i]] + rest;
        ConsBreakFree(s[..i], rest);
      } else {
        assert s[..i] == s;
        assert lines == [s];
      }
    }
  }

  lemma ConsBreakFree(head: string, rest: seq<string>)
    requires NoLineBreak(head) && forall k :: 0 <= k < |rest| ==> NoLineBreak(rest[k])
    ensures forall k :: 0 <= k < |[head] + rest| ==> NoLineBreak(([head] + rest)[k])
  {
    forall k | 0 <= k < |[head] + rest| ensures NoLineBreak(([head] + rest)[k]) {
      if k > 0 {
        assert ([head] + rest)[k] == rest[k - 1];
      }
    }
  }

  // ---------------------------------------------------------------------
  // Replacing and counting

  /** `s.replace(target, repl)`: every leftmost, non-overlapping occurrence. */
  function Replace(s: string, target: string, repl: string): string
    requires |target| > 0
    decreases |s|
  {
    if |s| < |target| then s
    else if s[..|target|] == target then repl + Replace(s[|target|..], target, repl)
    else [s[0]] + Replace(s[1..], target, repl)
  }

  /** `s.count(sub)`: the number of leftmost, non-overlapping occurrences. */
  function Count(s: string, sub: string): nat
    requires |sub| > 0
    decreases |s|
  {
    if |s| < |sub| then 0
    else if s[..|sub|] == sub then 1 + Count(s[|sub|..], sub)
    else Count(s[1..], sub)
  }

  /** Counting one character distributes over concatenation. */
  lemma {:induction false} CountCharAppend(a: string, b: string, c: char)
    ensures Count(a + b, [c]) == Count(a, [c]) + Count(b, [c])
    decreases |a|
  {
    if a == [] {
      assert a + b == b;
    } else {
      CountCharAppend(a[1..], b, c);
      assert (a + b)[..1] == a[..1];
      assert (a + b)[1..] == a[1..] + b;
    }
  }

  /** A character is counted zero times exactly when it does not occur. */
  lemma {:induction false} CountCharAbsent(s: string, c: char)
    ensures Count(s, [c]) == 0 <==> c !in s
    decreases |s|
  {
    if |s| >= 1 {
      CountCharAbsent(s[1..], c);
      assert s[..1] == [s[0]];
      assert s == [s[0]] + s[1..];
    }
  }

  /** `s` has no character `a` directly followed by `b`. */
  predicate NoPair(s: string, a: char, b: char) {
    forall i :: 0 <= i < |s| - 1 ==> !(s[i] == a && s[i + 1] == b)
  }

  // ---------------------------------------------------------------------
  // Integers

  function DigitChar(d: nat): char
    requires d < 10
  {
    ('0' as int + d) as char
  }

  function DigitValue(c: char): nat
    requires IsDigit(c)
  {
    (c as int - '0' as int) as nat
  }

  /** `str(n)` for n >= 0. */
  function NatToStr(n: nat): (r: string)
    ensures |r| >= 1 && forall i :: 0 <= i < |r| ==> IsDigit(r[i])
  {
    if n < 10 then [DigitChar(n)] else NatToStr(n / 10) + [DigitChar(n % 10)]
  }

  /** `str(n)`. */
  function IntToStr(n: int): (r: string)
    ensures |r| >= 1
  {
    if n < 0 then "-" + NatToStr(-n) else NatToStr(n)
  }

  /** A Python integer literal body: ASCII digits with single underscores
      between digits (`1_000`), as `int()` accepts them. */
  predicate IsDigitGroup(b: string) {
    && |b| > 0 && IsDigit(b[0]) && IsDigit(b[|b| - 1])
    && (forall i :: 0 <= i < |b| ==> IsDigit(b[i]) || b[i] == '_')
    && (forall i, j :: 0 <= i < |b| && 0 <= j < |b| && j == i + 1 ==> b[i] != '_' || b[j] != '_')
  }

  /** Value of a digit group, the underscores being ignored. */
  function GroupValue(b: string): nat
    requires forall i :: 0 <= i < |b| ==> IsDigit(b[i]) || b[i] == '_'
  {
    if b == [] then 0
    else if b[|b| - 1] == '_' then GroupValue(b[..|b| - 1])
    else 10 * GroupValue(b[..|b| - 1]) + DigitValue(b[|b| - 1])
  }

  /** The whitespace `int()` skips around its digits. It is the `isspace`
      set without U+001C..U+001F: `int()` treats characters below U+007F
      as ASCII, where only `\t`..`\r` and the space are whitespace, so
      those four separators stay in the text and make it invalid. */
  predicate IsIntSpace(c: char) {
    IsSpace(c) && !('\U{1C}' <= c <= '\U{1F}')
  }

  /** The text `int()` reads: `s` without its leading and trailing
      `int()` whitespace. */
  function IntTrim(s: string): (r: string)
    ensures |r| <= |s|
    ensures r == [] || (!IsIntSpace(r[0]) && !IsIntSpace(r[|r| - 1]))
    decreases |s|
  {
    if s != [] && IsIntSpace(s[0]) then IntTrim(s[1..])
    else if s != [] && IsIntSpace(s[|s| - 1]) then IntTrim(s[..|s| - 1])
    else s
  }

  /** `int(s)` on a string: surrounding `int()` whitespace, an optional
      sign, then a digit group; anything else is a `ValueError` (here
      `None`). */
  function ParseInt(s: string): Option<int> {
    var t := IntTrim(s);
    if t == [] then None
    else
      var negative := t[0] == '-';
      var body := if t[0] == '-' || t[0] == '+' then t[1..] else t;
      if IsDigitGroup(body) then
        Some(if negative then -(GroupValue(body) as int) else GroupValue(body) as int)
      else None
  }

  lemma {:induction false} NatToStrValue(n: nat)
    ensures GroupValue(NatToStr(n)) == n
  {
    if n >= 10 {
      NatToStrValue(n / 10);
      var r := NatToStr(n);
      assert r[..|r| - 1] == NatToStr(n / 10);
      DigitCharValue(n % 10);
    } else {
      DigitCharValue(n);
    }
  }

  lemma DigitCharValue(d: nat)
    requires d < 10
    ensures IsDigit(DigitChar(d)) && DigitValue(DigitChar(d)) == d
  {
  }

  lemma NatToStrIsGroup(n: nat)
    ensures IsDigitGroup(NatToStr(n))
  {
    var d := NatToStr(n);
    assert forall i :: 0 <= i < |d| ==> d[i] != '_';
  }

  /** `int()` of an unpadded, unsigned digit group is its value. */
  lemma ParseIntOfGroup(d: string)
    requires IsDigitGroup(d)
    ensures ParseInt(d) == Some(GroupValue(d) as int)
  {
    assert IntTrim(d) == d;
    assert d[0] != '-' && d[0] != '+';
  }

  /** `int()` of a minus sign and a digit group is the negated value. */
  lemma ParseIntOfNegGroup(d: string)
    requires IsDigitGroup(d)
    ensures ParseInt("-" + d) == Some(-(GroupValue(d) as int))
  {
    var nd := "-" + d;
    assert nd[|nd| - 1] == d[|d| - 1];
    assert IntTrim(nd) == nd;
    assert nd[0] == '-';
    assert nd[1..] == d;
  }

  /** `int(str(n)) == n`. */
  lemma ParseIntOfIntToStr(n: int)
    ensures ParseInt(IntToStr(n)) == Some(n)
  {
    var m: nat := if n < 0 then -n else n;
    NatToStrValue(m);
    NatToStrIsGroup(m);
    if n < 0 {
      ParseIntOfNegGroup(NatToStr(m));
    } else {
      ParseIntOfGroup(NatToStr(m));
    }
  }

  /** `int()` and `strip()` disagree on the file separator U+001C:
      `"\x1c3".strip()` is `"3"`, but `int("\x1c3")` raises. */
  lemma IntKeepsSeparators()
    ensures Strip("\U{1C}3") == "3"
    ensures ParseInt("\U{1C}3") == None
    ensures ParseInt("\U{85}3") == Some(3)
  {
    var s := "\U{1C}3";
    assert LStrip(s) == LStrip(s[1..]) && s[1..] == "3";
    assert IntTrim(s) == s;
    assert !IsDigitGroup(s);
    var u := "\U{85}3";
    assert IntTrim(u) == IntTrim(u[1..]) && u[1..] == "3";
    assert IsDigitGroup("3") && GroupValue("3") == 3;
  }

  /** `str(n)` never holds whitespace, a `.` or a letter. */
  lemma IntToStrChars(n: int)
    ensures forall i :: 0 <= i < |IntToStr(n)| ==> IsDigit(IntToStr(n)[i]) || IntToStr(n)[i] == '-'
    ensures forall i :: 0 < i < |IntToStr(n)| ==> IsDigit(IntToStr(n)[i])
    ensures IsDigit(IntToStr(n)[|IntToStr(n)| - 1])
  {
  }

  // ---------------------------------------------------------------------
  // Case

  /** `s.lower()` restricted to ASCII letters. */
  function AsciiLower(s: string): (r: string)
    ensures |r| == |s|
    ensures forall i :: 0 <= i < |s| ==> r[i] == (if 'A' <= s[i] <= 'Z' then (s[i] as int + 32) as char else s[i])
  {
    if s == [] then [] else
      [if 'A' <= s[0] <= 'Z' then (s[0] as int + 32) as char else s[0]] + AsciiLower(s[1..])
  }
}

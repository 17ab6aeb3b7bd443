/** The pieces of Python's `str` that the engine relies on: `isspace`,
    `strip`, `lower`, `split`, `replace`, `join` and the substring test `in`.
    Characters are Unicode scalar values, as in Python 3. */
module Text {

  /** `str.isspace` for one character: the characters Python treats as
      whitespace in `strip()` and `split()`. */
  predicate IsSpace(c: char) {
    || c == ' '
    || ('\t' <= c <= '\r')
    || ('\U{1C}' <= c <= '\U{1F}')
    || c == '\U{85}' || c == '\U{A0}' || c == '\U{1680}'
    || ('\U{2000}' <= c <= '\U{200A}')
    || c == '\U{2028}' || c == '\U{2029}' || c == '\U{202F}' || c == '\U{205F}'
    || c == '\U{3000}'
  }

  /** An ASCII decimal digit (the `\d` of the resume patterns, ASCII part). */
  predicate IsDigit(c: char) {
    '0' <= c <= '9'
  }

  /** `str.lower` on one character, for the ASCII letters. */
  function LowerChar(c: char): (d: char)
    ensures IsSpace(d) == IsSpace(c)
    ensures !('A' <= d <= 'Z')
    ensures !('A' <= c <= 'Z') ==> d == c
  {
    if 'A' <= c <= 'Z' then (c as int + 32) as char else c
  }

  /** `s.lower()`. */
  function Lower(s: string): string
  {
    seq(|s|, i requires 0 <= i < |s| => LowerChar(s[i]))
  }

  /** `s` has no upper-case ASCII letter, so lowering leaves it alone. */
  predicate IsLower(s: string) {
    forall i :: 0 <= i < |s| ==> !('A' <= s[i] <= 'Z')
  }

  lemma LowerIsLower(s: string)
    ensures IsLower(Lower(s))
    ensures IsLower(s) ==> Lower(s) == s
  {
  }

  lemma LowerAppend(a: string, b: string)
    ensures Lower(a + b) == Lower(a) + Lower(b)
  {
  }

  /** `s.lstrip()`. */
  function TrimLeft(s: string): string
  {
    if s != [] && IsSpace(s[0]) then TrimLeft(s[1..]) else s
  }

  /** `lstrip` removes a prefix made only of whitespace and nothing more:
      what is left is a suffix that does not start with whitespace. */
  lemma TrimLeftSpec(s: string)
    ensures |TrimLeft(s)| <= |s| && TrimLeft(s) == s[|s| - |TrimLeft(s)|..]
    ensures TrimLeft(s) == [] || !IsSpace(TrimLeft(s)[0])
    ensures forall i :: 0 <= i < |s| - |TrimLeft(s)| ==> IsSpace(s[i])
  {
    TrimLeftSuffix(s);
    TrimLeftHead(s);
    TrimLeftCut(s);
  }

  lemma {:induction false} TrimLeftSuffix(s: string)
    ensures |TrimLeft(s)| <= |s| && TrimLeft(s) == s[|s| - |TrimLeft(s)|..]
  {
    if s != [] && IsSpace(s[0]) {
      TrimLeftSuffix(s[1..]);
    }
  }

  lemma {:induction false} TrimLeftHead(s: string)
    ensures TrimLeft(s) == [] || !IsSpace(TrimLeft(s)[0])
  {
    if s != [] && IsSpace(s[0]) {
      TrimLeftHead(s[1..]);
    }
  }

  lemma {:induction false} TrimLeftCut(s: string)
    ensures forall i :: 0 <= i < |s| - |TrimLeft(s)| ==> IsSpace(s[i])
  {
    if s != [] && IsSpace(s[0]) {
      var rest := s[1..];
      TrimLeftCut(rest);
      forall i | 0 <= i < |s| - |TrimLeft(s)|
        ensures IsSpace(s[i])
      {
        if i > 0 {
          assert s[i] == rest[i - 1];
        }
      }
    }
  }

  /** `s.rstrip()`. */
  function TrimRight(s: string): string
  {
    if s != [] && IsSpace(s[|s| - 1]) then TrimRight(s[..|s| - 1]) else s
  }

  /** `rstrip` removes a suffix made only of whitespace and nothing more:
      what is left is a prefix that does not end with whitespace. */
  lemma TrimRightSpec(s: string)
    ensures |TrimRight(s)| <= |s| && TrimRight(s) == s[..|TrimRight(s)|]
    ensures TrimRight(s) == [] || !IsSpace(TrimRight(s)[|TrimRight(s)| - 1])
    ensures forall i :: |TrimRight(s)| <= i < |s| ==> IsSpace(s[i])
  {
    TrimRightPrefix(s);
    TrimRightLast(s);
    TrimRightCut(s);
  }

  lemma {:induction false} TrimRightPrefix(s: string)
    ensures |TrimRight(s)| <= |s| && TrimRight(s) == s[..|TrimRight(s)|]
  {
    if s != [] && IsSpace(s[|s| - 1]) {
      var rest := s[..|s| - 1];
      TrimRightPrefix(rest);
      assert rest[..|TrimRight(rest)|] == s[..|TrimRight(rest)|];
    }
  }

  lemma {:induction false} TrimRightLast(s: string)
    ensures TrimRight(s) == [] || !IsSpace(TrimRight(s)[|TrimRight(s)| - 1])
  {
    if s != [] && IsSpace(s[|s| - 1]) {
      TrimRightLast(s[..|s| - 1]);
    }
  }

  lemma {:induction false} TrimRightCut(s: string)
    ensures forall i :: |TrimRight(s)| <= i < |s| ==> IsSpace(s[i])
  {
    if s != [] && IsSpace(s[|s| - 1]) {
      var rest := s[..|s| - 1];
      TrimRightCut(rest);
      TrimRightPrefix(rest);
      forall i | |TrimRight(s)| <= i < |s|
        ensures IsSpace(s[i])
      {
        if i < |s| - 1 {
          assert s[i] == rest[i];
        }
      }
    }
  }

  /** `s.strip()`: the longest infix of `s` that neither starts nor ends
      with whitespace, everything cut off being whitespace. */
  function Strip(s: string): (r: string)
  {
    TrimRight(TrimLeft(s))
  }

  /** A string with no whitespace at either end. */
  predicate IsStripped(s: string) {
    s == [] || (!IsSpace(s[0]) && !IsSpace(s[|s| - 1]))
  }

  lemma {:induction false} TrimLeftStripped(s: string)
    requires s == [] || !IsSpace(s[0])
    ensures TrimLeft(s) == s
  {
  }

  lemma {:induction false} TrimRightStripped(s: string)
    requires s == [] || !IsSpace(s[|s| - 1])
    ensures TrimRight(s) == s
  {
  }

  /** The result of `strip()` has no whitespace at either end, and an input
      without any is left as it is: `strip` is idempotent. */
  lemma StripFixesStripped(s: string)
    ensures IsStripped(Strip(s))
    ensures IsStripped(s) ==> Strip(s) == s
    ensures Strip(Strip(s)) == Strip(s)
  {
    var l := TrimLeft(s);
    var r := TrimRight(l);
    TrimLeftSpec(s);
    TrimRightSpec(l);
    if r != [] {
      assert r[0] == l[0];
    }
    if IsStripped(s) {
      TrimLeftStripped(s);
      TrimRightStripped(s);
    }
    if r != [] {
      TrimLeftStripped(r);
      TrimRightStripped(r);
    }
  }

  /** Lower-casing changes no character's whitespace-ness, so it commutes
      with `lstrip`. */
  lemma {:induction false} TrimLeftLower(s: string)
    ensures TrimLeft(Lower(s)) == Lower(TrimLeft(s))
    decreases |s|
  {
    if s != [] && IsSpace(s[0]) {
      assert Lower(s)[1..] == Lower(s[1..]);
      TrimLeftLower(s[1..]);
    }
  }

  lemma {:induction false} TrimRightLower(s: string)
    ensures TrimRight(Lower(s)) == Lower(TrimRight(s))
    decreases |s|
  {
    if s != [] && IsSpace(s[|s| - 1]) {
      assert Lower(s)[..|s| - 1] == Lower(s[..|s| - 1]);
      TrimRightLower(s[..|s| - 1]);
    }
  }

  /** `s.strip().lower() == s.lower().strip()`. */
  lemma StripLower(s: string)
    ensures Strip(Lower(s)) == Lower(Strip(s))
  {
    TrimLeftLower(s);
    TrimRightLower(TrimLeft(s));
  }

  /** `p` occurs in `s` starting at position `i`. */
  predicate OccursAt(s: string, p: string, i: nat) {
    i + |p| <= |s| && s[i..i + |p|] == p
  }

  /** `p in s` for strings: `p` occurs in `s` at some position. */
  predicate Contains(s: string, p: string) {
    exists i: nat | i <= |s| :: OccursAt(s, p, i)
  }

  /** `s.split(sep)` for a one-character separator: the pieces between
      successive separators; always at least one piece. */
  function SplitOn(s: string, sep: char): (pieces: seq<string>)
    ensures |pieces| >= 1
    ensures forall k :: 0 <= k < |pieces| ==> sep !in pieces[k]
  {
    if s == [] then [[]]
    else
      var rest := SplitOn(s[1..], sep);
      if s[0] == sep then [[]] + rest
      else [[s[0]] + rest[0]] + rest[1..]
  }

  /** `sep.join(xs)`. */
  function Join(sep: string, xs: seq<string>): (r: string)
  {
    if xs == [] then []
    else if |xs| == 1 then xs[0]
    else xs[0] + sep + Join(sep, xs[1..])
  }

  /** Splitting on a character and joining the pieces back with it gives
      the original string back. */
  lemma {:induction false} JoinSplitOn(s: string, sep: char)
    ensures Join([sep], SplitOn(s, sep)) == s
  {
    if s != [] {
      var rest := SplitOn(s[1..], sep);
      JoinSplitOn(s[1..], sep);
      if s[0] == sep {
        assert SplitOn(s, sep)[1..] == rest;
      } else if |rest| == 1 {
      } else {
        var pieces := SplitOn(s, sep);
        assert pieces[1..] == rest[1..];
        assert Join([sep], rest) == rest[0] + [sep] + Join([sep], rest[1..]);
      }
    }
  }

  /** The number of leading characters of `s` that are not whitespace. */
  function WordLength(s: string): (n: nat)
    ensures n <= |s|
    ensures forall i :: 0 <= i < n ==> !IsSpace(s[i])
    ensures n == |s| || IsSpace(s[n])
  {
    if s == [] || IsSpace(s[0]) then 0 else 1 + WordLength(s[1..])
  }

  /** Every character of `w` is whitespace. */
  predicate AllSpace(w: string) {
    forall i :: 0 <= i < |w| ==> IsSpace(w[i])
  }

  /** No character of `w` is whitespace. */
  predicate NoSpace(w: string) {
    forall i :: 0 <= i < |w| ==> !IsSpace(w[i])
  }

  /** `s.split()` with no argument: the maximal runs of non-whitespace. */
  function SplitWords(s: string): (words: seq<string>)
    ensures forall k :: 0 <= k < |words| ==> words[k] != [] && NoSpace(words[k])
    ensures s == [] ==> words == []
    decreases |s|
  {
    var t := TrimLeft(s);
    TrimLeftSpec(s);
    if t == [] then []
    else
      var n := WordLength(t);
      [t[..n]] + SplitWords(t[n..])
  }

  /** `gaps[0] + words[0] + gaps[1] + ... + words[n - 1] + gaps[n]`. */
  function Interleave(gaps: seq<string>, words: seq<string>): string
    requires |gaps| == |words| + 1
    decreases |words|
  {
    if words == [] then gaps[0] else gaps[0] + words[0] + Interleave(gaps[1..], words[1..])
  }

  /** `s` is the words in order with whitespace around them: non-empty,
      whitespace-free words, and at least one whitespace character between
      two neighbouring words. */
  predicate IsLayout(s: string, gaps: seq<string>, words: seq<string>) {
    && |gaps| == |words| + 1
    && (forall i :: 0 <= i < |gaps| ==> AllSpace(gaps[i]))
    && (forall i :: 0 < i < |words| ==> gaps[i] != [])
    && (forall k :: 0 <= k < |words| ==> words[k] != [] && NoSpace(words[k]))
    && s == Interleave(gaps, words)
  }

  /** Leading whitespace does not change what `lstrip` leaves. */
  lemma {:induction false} TrimLeftSpaces(g: string, u: string)
    requires AllSpace(g)
    ensures TrimLeft(g + u) == TrimLeft(u)
    decreases |g|
  {
    if g == [] {
      assert g + u == u;
    } else {
      assert (g + u)[1..] == g[1..] + u;
      TrimLeftSpaces(g[1..], u);
    }
  }

  /** A word followed by whitespace or by nothing is measured exactly. */
  lemma {:induction false} WordLengthOf(w: string, r: string)
    requires NoSpace(w) && (r == [] || IsSpace(r[0]))
    ensures WordLength(w + r) == |w|
    decreases |w|
  {
    if w == [] {
      assert w + r == r;
    } else {
      assert (w + r)[1..] == w[1..] + r;
      WordLengthOf(w[1..], r);
    }
  }

  /** A word with whitespace before it extends a layout of text that is
      empty or starts with whitespace. */
  lemma LayoutCons(lead: string, w: string, rest: string, g: seq<string>, ws: seq<string>)
    requires AllSpace(lead) && w != [] && NoSpace(w)
    requires rest == [] || IsSpace(rest[0])
    requires IsLayout(rest, g, ws)
    ensures IsLayout(lead + w + rest, [lead] + g, [w] + ws)
  {
    var gaps := [lead] + g;
    assert gaps[1..] == g;
    assert ([w] + ws)[1..] == ws;
  }

  /** `lstrip` cuts the text into a white-space prefix and what it leaves. */
  lemma TrimLeftSplit(s: string)
    ensures |TrimLeft(s)| <= |s|
    ensures s == s[..|s| - |TrimLeft(s)|] + TrimLeft(s)
    ensures AllSpace(s[..|s| - |TrimLeft(s)|])
    ensures TrimLeft(s) == [] || !IsSpace(TrimLeft(s)[0])
  {
    TrimLeftSpec(s);
  }

  /** White space alone is the layout of no words. */
  lemma LayoutOfSpaces(s: string)
    requires AllSpace(s)
    ensures IsLayout(s, [s], [])
  {
  }

  /** Cutting `t` in two does not change `a + t`. */
  lemma ThreePieces(a: string, t: string, n: nat)
    requires n <= |t|
    ensures a + t == a + t[..n] + t[n..]
  {
    assert t == t[..n] + t[n..];
  }

  /** Text with a word in it: leading white space, the first word, and the
      rest, which is empty or starts with white space. */
  lemma WordPieces(s: string)
    requires TrimLeft(s) != []
    ensures var t := TrimLeft(s); var n := WordLength(t);
      && |t| <= |s| && 0 < n <= |t|
      && s == s[..|s| - |t|] + t[..n] + t[n..]
      && AllSpace(s[..|s| - |t|]) && NoSpace(t[..n])
      && (t[n..] == [] || IsSpace(t[n..][0]))
  {
    var t := TrimLeft(s);
    TrimLeftSplit(s);
    ThreePieces(s[..|s| - |t|], t, WordLength(t));
  }

  /** ... and `split()` takes that word first. */
  lemma SplitWordsCons(s: string)
    requires TrimLeft(s) != []
    ensures SplitWords(s) == [TrimLeft(s)[..WordLength(TrimLeft(s))]] + SplitWords(TrimLeft(s)[WordLength(TrimLeft(s))..])
  {
  }

  /** `split()` splits: the text is its words with whitespace around them. */
  lemma {:induction false} SplitWordsLayout(s: string)
    ensures exists gaps :: IsLayout(s, gaps, SplitWords(s))
    decreases |s|
  {
    var t := TrimLeft(s);
    if t == [] {
      TrimLeftSplit(s);
      assert SplitWords(s) == [];
      assert s[..|s| - |t|] == s;
      LayoutOfSpaces(s);
    } else {
      WordPieces(s);
      SplitWordsCons(s);
      var n := WordLength(t);
      var lead, w, rest := s[..|s| - |t|], t[..n], t[n..];
      SplitWordsLayout(rest);
      var g :| IsLayout(rest, g, SplitWords(rest));
      LayoutCons(lead, w, rest, g, SplitWords(rest));
    }
  }

  /** ... and it splits in only one way: any such layout of the text has
      exactly the words of `split()`. */
  lemma {:induction false} LayoutIsSplit(s: string, gaps: seq<string>, words: seq<string>)
    requires IsLayout(s, gaps, words)
    ensures words == SplitWords(s)
    decreases |words|
  {
    if words == [] {
      TrimLeftSpaces(s, []);
      assert s + [] == s;
    } else {
      var w := words[0];
      var rest := Interleave(gaps[1..], words[1..]);
      assert s == gaps[0] + (w + rest);
      TrimLeftSpaces(gaps[0], w + rest);
      assert TrimLeft(w + rest) == w + rest;
      if |words| > 1 {
        assert rest == gaps[1] + words[1] + Interleave(gaps[2..], words[2..]);
        assert rest[0] == gaps[1][0];
      } else {
        assert rest == gaps[1];
      }
      WordLengthOf(w, rest);
      assert (w + rest)[..|w|] == w && (w + rest)[|w|..] == rest;
      assert IsLayout(rest, gaps[1..], words[1..]);
      LayoutIsSplit(rest, gaps[1..], words[1..]);
      assert words == [w] + words[1..];
    }
  }

  /** `s.replace(old, new)` for a non-empty pattern: every occurrence, found
      left to right without overlap, is replaced. */
  function Replace(s: string, pat: string, rep: string): (r: string)
    requires pat != []
    decreases |s|
  {
    if |s| < |pat| then s
    else if s[..|pat|] == pat then rep + Replace(s[|pat|..], pat, rep)
    else [s[0]] + Replace(s[1..], pat, rep)
  }

  /** A string without the pattern's first character is left alone. */
  lemma {:induction false} ReplaceAbsent(s: string, pat: string, rep: string)
    requires pat != [] && pat[0] !in s
    ensures Replace(s, pat, rep) == s
    decreases |s|
  {
    if |s| >= |pat| {
      assert s[..|pat|][0] == s[0];
      ReplaceAbsent(s[1..], pat, rep);
      assert s == [s[0]] + s[1..];
    }
  }

  /** A first character that cannot start the pattern is copied. */
  lemma ReplaceSkip(s: string, pat: string, rep: string)
    requires pat != [] && s != [] && s[0] != pat[0]
    ensures Replace(s, pat, rep) == [s[0]] + Replace(s[1..], pat, rep)
  {
    if |s| < |pat| {
      assert s == [s[0]] + s[1..];
    } else {
      assert s[..|pat|][0] == s[0];
    }
  }

  /** Text free of the pattern's first character, then the pattern: the
      text is kept and the pattern replaced. */
  lemma {:induction false} ReplaceAfter(a: string, pat: string, rep: string, b: string)
    requires pat != [] && pat[0] !in a
    ensures Replace(a + pat + b, pat, rep) == a + rep + Replace(b, pat, rep)
    decreases |a|
  {
    var s := a + pat + b;
    if a == [] {
      assert s[..|pat|] == pat && s[|pat|..] == b by {
        assert s == pat + b;
      }
    } else {
      ReplaceAfter(a[1..], pat, rep, b);
      assert s[0] == a[0] && s[1..] == a[1..] + pat + b;
      ReplaceSkip(s, pat, rep);
      assert a == [a[0]] + a[1..];
    }
  }

  /** Text free of the pattern's first character is copied in front of
      whatever follows it. */
  lemma {:induction false} ReplaceKeep(a: string, pat: string, rep: string, b: string)
    requires pat != [] && pat[0] !in a
    ensures Replace(a + b, pat, rep) == a + Replace(b, pat, rep)
    decreases |a|
  {
    if a != [] {
      var s := a + b;
      assert s[0] == a[0] && s[1..] == a[1..] + b;
      ReplaceSkip(s, pat, rep);
      ReplaceKeep(a[1..], pat, rep, b);
      assert a == [a[0]] + a[1..];
    } else {
      assert a + b == b;
    }
  }

  /** A pattern with a character the text lacks does not occur in it. */
  lemma MissingChar(s: string, p: string, j: nat)
    requires j < |p| && p[j] !in s
    ensures !Contains(s, p)
  {
  }
}

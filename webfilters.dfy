/** The two string helpers of the web layer: the `escapejs` template filter,
    which makes a value safe inside a JavaScript string literal, and the
    upload check on file names. */
module WebFilters {
  import opened Wrappers
  import opened Text

  // ---------------------------------------------------------------------
  // escapejs

  /** The escape of one character: backslash, both quotes, newline,
      carriage return and tab get a backslash escape; every other character
      stands for itself. */
  function EscapeChar(c: char): string {
    if c == '\\' then "\\\\"
    else if c == '"' then "\\\""
    else if c == '\'' then "\\'"
    else if c == '\n' then "\\n"
    else if c == '\r' then "\\r"
    else if c == '\t' then "\\t"
    else [c]
  }

  /** The escape of every character, one after the other. */
  function EscapeChars(s: string): string
  {
    if s == [] then [] else EscapeChar(s[0]) + EscapeChars(s[1..])
  }

  /** The escaped text in one left-to-right pass: `</` becomes `<\/` (so
      that the value cannot close a script element), and every other
      character is escaped on its own. */
  function EscapeRef(s: string): string
  {
    if s == [] then []
    else if |s| >= 2 && s[0] == '<' && s[1] == '/' then "<\\/" + EscapeRef(s[2..])
    else EscapeChar(s[0]) + EscapeRef(s[1..])
  }

  /** `escapejs_filter`: `None` gives `''`; otherwise the seven replacements
      are applied one after the other, backslashes first. */
  method EscapeJsFilter(value: Option<string>) returns (r: string)
    ensures value.None? ==> r == ""
    ensures value.Some? ==> r == EscapeRef(value.value)
  {
    if value.None? {
      return "";
    }
    var s := value.value;
    s := Replace(s, "\\", "\\\\");
    s := Replace(s, "\"", "\\\"");
    s := Replace(s, "'", "\\'");
    s := Replace(s, "\n", "\\n");
    s := Replace(s, "\r", "\\r");
    s := Replace(s, "\t", "\\t");
    s := Replace(s, "</", "<\\/");
    ChainIsSinglePass(value.value);
    r := s;
  }

  /** What one character becomes when `c` is replaced by `rep`. */
  function Sub(x: char, c: char, rep: string): string {
    if x == c then rep else [x]
  }

  /** Replacing one character by a string, everywhere. */
  function MapChar(s: string, c: char, rep: string): string
  {
    if s == [] then [] else Sub(s[0], c, rep) + MapChar(s[1..], c, rep)
  }

  /** `str.replace` with a one-character pattern replaces characters one
      at a time. */
  lemma {:induction false} ReplaceOneChar(s: string, c: char, rep: string)
    ensures Replace(s, [c], rep) == MapChar(s, c, rep)
  {
    if s != [] {
      ReplaceOneChar(s[1..], c, rep);
      assert s[..1] == [s[0]];
    }
  }

  lemma {:induction false} MapCharAppend(a: string, b: string, c: char, rep: string)
    ensures MapChar(a + b, c, rep) == MapChar(a, c, rep) + MapChar(b, c, rep)
  {
    if a == [] {
      assert a + b == b;
    } else {
      assert (a + b)[0] == a[0];
      assert (a + b)[1..] == a[1..] + b;
      MapCharAppend(a[1..], b, c, rep);
    }
  }

  /** A string without the character is left alone. */
  lemma {:induction false} MapCharAbsent(s: string, c: char, rep: string)
    requires c !in s
    ensures MapChar(s, c, rep) == s
  {
    if s != [] {
      MapCharAbsent(s[1..], c, rep);
      assert s == [s[0]] + s[1..];
    }
  }

  /** One replacement stage applied to a string that is either exactly the
      character or free of it. */
  lemma Stage(s: string, c: char, rep: string)
    requires s == [c] || c !in s
    ensures MapChar(s, c, rep) == if s == [c] then rep else s
  {
    if s == [c] {
      assert s[1..] == [];
    } else {
      MapCharAbsent(s, c, rep);
    }
  }

  /** The six one-character replacements of the filter, in order. */
  function CharStages(s: string): string {
    MapChar(MapChar(MapChar(MapChar(MapChar(MapChar(s,
      '\\', "\\\\"), '"', "\\\""), '\'', "\\'"), '\n', "\\n"), '\r', "\\r"), '\t', "\\t")
  }

  lemma CharStagesAppend(a: string, b: string)
    ensures CharStages(a + b) == CharStages(a) + CharStages(b)
  {
    var s1 := MapChar(a, '\\', "\\\\");
    var t1 := MapChar(b, '\\', "\\\\");
    MapCharAppend(a, b, '\\', "\\\\");
    var s2 := MapChar(s1, '"', "\\\"");
    var t2 := MapChar(t1, '"', "\\\"");
    MapCharAppend(s1, t1, '"', "\\\"");
    var s3 := MapChar(s2, '\'', "\\'");
    var t3 := MapChar(t2, '\'', "\\'");
    MapCharAppend(s2, t2, '\'', "\\'");
    var s4 := MapChar(s3, '\n', "\\n");
    var t4 := MapChar(t3, '\n', "\\n");
    MapCharAppend(s3, t3, '\n', "\\n");
    var s5 := MapChar(s4, '\r', "\\r");
    var t5 := MapChar(t4, '\r', "\\r");
    MapCharAppend(s4, t4, '\r', "\\r");
    MapCharAppend(s5, t5, '\t', "\\t");
  }

  /** On a single character the six stages give its escape: a backslash an
      earlier stage adds is never touched by a later one. */
  lemma CharStagesOne(c: char)
    ensures CharStages([c]) == EscapeChar(c)
  {
    var s1 := MapChar([c], '\\', "\\\\");
    Stage([c], '\\', "\\\\");
    var s2 := MapChar(s1, '"', "\\\"");
    Stage(s1, '"', "\\\"");
    var s3 := MapChar(s2, '\'', "\\'");
    Stage(s2, '\'', "\\'");
    var s4 := MapChar(s3, '\n', "\\n");
    Stage(s3, '\n', "\\n");
    var s5 := MapChar(s4, '\r', "\\r");
    Stage(s4, '\r', "\\r");
    Stage(s5, '\t', "\\t");
  }

  /** The six one-character replacements escape every character on its
      own. */
  lemma {:induction false} CharStagesEscape(s: string)
    ensures CharStages(s) == EscapeChars(s)
  {
    if s != [] {
      assert s == [s[0]] + s[1..];
      CharStagesAppend([s[0]], s[1..]);
      CharStagesOne(s[0]);
      CharStagesEscape(s[1..]);
    }
  }

  /** The chain of replacements is the one-pass escape. */
  lemma ChainIsSinglePass(s: string)
    ensures Replace(Replace(Replace(Replace(Replace(Replace(Replace(s,
      "\\", "\\\\"), "\"", "\\\""), "'", "\\'"), "\n", "\\n"), "\r", "\\r"), "\t", "\\t"),
      "</", "<\\/") == EscapeRef(s)
  {
    var s1 := Replace(s, "\\", "\\\\");
    ReplaceOneChar(s, '\\', "\\\\");
    var s2 := Replace(s1, "\"", "\\\"");
    ReplaceOneChar(s1, '"', "\\\"");
    var s3 := Replace(s2, "'", "\\'");
    ReplaceOneChar(s2, '\'', "\\'");
    var s4 := Replace(s3, "\n", "\\n");
    ReplaceOneChar(s3, '\n', "\\n");
    var s5 := Replace(s4, "\r", "\\r");
    ReplaceOneChar(s4, '\r', "\\r");
    var s6 := Replace(s5, "\t", "\\t");
    ReplaceOneChar(s5, '\t', "\\t");
    assert s6 == CharStages(s);
    CharStagesEscape(s);
    ClosingTagPass(s);
  }

  /** The escape of a character starts with `<` or `/` only when the
      character is that one. */
  lemma EscapeCharHead(c: char)
    ensures EscapeChar(c) != []
    ensures EscapeChar(c)[0] == '<' <==> c == '<'
    ensures EscapeChar(c)[0] == '/' <==> c == '/'
    ensures c != '<' ==> '<' !in EscapeChar(c)
  {
  }

  /** The escapes of a value that starts with `<`. */
  lemma EscapeCharsLessThan(s: string)
    requires s != [] && s[0] == '<'
    ensures EscapeChars(s) == "<" + EscapeChars(s[1..])
  {
    assert EscapeChar(s[0]) == "<";
  }

  /** The escapes of a value start with the escape of its first character. */
  lemma EscapeCharsHead(s: string)
    requires s != []
    ensures EscapeChars(s) != [] && EscapeChars(s)[0] == EscapeChar(s[0])[0]
  {
    EscapeCharHead(s[0]);
  }

  /** The escapes of a value that starts with `/`. */
  lemma EscapeCharsSlash(s: string)
    requires s != [] && s[0] == '/'
    ensures EscapeChars(s) == "/" + EscapeChars(s[1..])
  {
    assert EscapeChar(s[0]) == "/";
  }

  /** `</` is replaced by `<\\/`. */
  lemma CloseTagReplaced(rest: string)
    ensures Replace("</" + rest, "</", "<\\/") == "<\\/" + Replace(rest, "</", "<\\/")
  {
    var e := "</" + rest;
    assert e[..2] == "</" && e[2..] == rest;
  }

  /** `</` in the value becomes `<\\/`. */
  lemma CloseTagStep(s: string)
    requires |s| >= 2 && s[0] == '<' && s[1] == '/'
    ensures Replace(EscapeChars(s), "</", "<\\/") == "<\\/" + Replace(EscapeChars(s[2..]), "</", "<\\/")
  {
    var t := s[1..];
    assert t[0] == '/' && t[1..] == s[2..];
    EscapeCharsLessThan(s);
    EscapeCharsSlash(t);
    var x := EscapeChars(s[2..]);
    assert "<" + ("/" + x) == "</" + x;
    CloseTagReplaced(x);
  }

  /** A `<` that is not followed by `/` is copied. */
  lemma LessThanKeep(rest: string)
    requires rest == [] || rest[0] != '/'
    ensures Replace("<" + rest, "</", "<\\/") == "<" + Replace(rest, "</", "<\\/")
  {
    var e := "<" + rest;
    if rest != [] {
      assert e[1] == rest[0];
      assert e[..2] != "</";
    }
    assert e[0] == '<' && e[1..] == rest;
  }

  /** A `<` of the value that is not followed by `/` is copied. */
  lemma LessThanStep(s: string)
    requires s != [] && s[0] == '<' && !(|s| >= 2 && s[1] == '/')
    ensures Replace(EscapeChars(s), "</", "<\\/") == "<" + Replace(EscapeChars(s[1..]), "</", "<\\/")
  {
    EscapeCharsLessThan(s);
    if |s| >= 2 {
      EscapeCharsHead(s[1..]);
      EscapeCharHead(s[1..][0]);
    }
    LessThanKeep(EscapeChars(s[1..]));
  }

  /** The escape of any other character is copied. */
  lemma OtherStep(s: string)
    requires s != [] && s[0] != '<'
    ensures Replace(EscapeChars(s), "</", "<\\/") == EscapeChar(s[0]) + Replace(EscapeChars(s[1..]), "</", "<\\/")
  {
    EscapeCharHead(s[0]);
    ReplaceKeep(EscapeChar(s[0]), "</", "<\\/", EscapeChars(s[1..]));
  }

  /** Replacing `</` after the per-character escapes is the one-pass
      escape. */
  lemma {:induction false} ClosingTagPass(s: string)
    ensures Replace(EscapeChars(s), "</", "<\\/") == EscapeRef(s)
  {
    if s != [] {
      if |s| >= 2 && s[0] == '<' && s[1] == '/' {
        CloseTagStep(s);
        ClosingTagPass(s[2..]);
      } else if s[0] == '<' {
        LessThanStep(s);
        ClosingTagPass(s[1..]);
      } else {
        OtherStep(s);
        ClosingTagPass(s[1..]);
      }
    }
  }

  /** The character a JavaScript string literal reads after a backslash. */
  function UnescapeChar(c: char): char {
    if c == 'n' then '\n' else if c == 'r' then '\r' else if c == 't' then '\t' else c
  }

  /** How JavaScript reads the body of a string literal, for the escapes
      the filter produces. */
  function Unescape(t: string): string
  {
    if t == [] then []
    else if t[0] == '\\' && |t| >= 2 then [UnescapeChar(t[1])] + Unescape(t[2..])
    else [t[0]] + Unescape(t[1..])
  }

  /** Reading back one escaped character. */
  lemma UnescapeUnit(x: char, tail: string)
    ensures Unescape(EscapeChar(x) + tail) == [x] + Unescape(tail)
  {
    var t := EscapeChar(x) + tail;
    if |EscapeChar(x)| == 1 {
      assert t[1..] == tail;
    } else {
      assert t[2..] == tail;
    }
  }

  /** Reading back the escaped closing-tag opener. */
  lemma UnescapeClose(tail: string)
    ensures Unescape("<\\/" + tail) == "</" + Unescape(tail)
  {
    var t := "<\\/" + tail;
    assert t[1..] == "\\/" + tail;
    assert t[1..][2..] == tail;
  }

  /** Read back as a JavaScript string literal, the escaped value is the
      original value. */
  lemma {:induction false} UnescapeEscape(s: string)
    ensures Unescape(EscapeRef(s)) == s
  {
    if s != [] {
      if |s| >= 2 && s[0] == '<' && s[1] == '/' {
        UnescapeClose(EscapeRef(s[2..]));
        UnescapeEscape(s[2..]);
        assert s == "</" + s[2..];
      } else {
        UnescapeUnit(s[0], EscapeRef(s[1..]));
        UnescapeEscape(s[1..]);
        assert s == [s[0]] + s[1..];
      }
    }
  }

  /** The escaped value has no raw line break or tab, so the string
      literal it sits in stays on one line. */
  lemma {:induction false} EscapeRefNoControl(s: string)
    ensures forall i :: 0 <= i < |EscapeRef(s)| ==>
      EscapeRef(s)[i] != '\n' && EscapeRef(s)[i] != '\r' && EscapeRef(s)[i] != '\t'
  {
    if s != [] {
      var e := EscapeRef(s);
      var head, tail;
      if |s| >= 2 && s[0] == '<' && s[1] == '/' {
        head, tail := "<\\/", EscapeRef(s[2..]);
        EscapeRefNoControl(s[2..]);
      } else {
        head, tail := EscapeChar(s[0]), EscapeRef(s[1..]);
        EscapeRefNoControl(s[1..]);
      }
      assert e == head + tail;
      forall i | 0 <= i < |e|
        ensures e[i] != '\n' && e[i] != '\r' && e[i] != '\t'
      {
        if i >= |head| {
          assert e[i] == tail[i - |head|];
        }
      }
    }
  }

  /** In the escaped value `<` is never followed by `/`, so it cannot end
      the script element around it; and it starts with `/` exactly when the
      value does. */
  lemma {:induction false} EscapeRefNoCloseTag(s: string)
    ensures forall i :: 0 <= i < |EscapeRef(s)| - 1 ==> !(EscapeRef(s)[i] == '<' && EscapeRef(s)[i + 1] == '/')
    ensures EscapeRef(s) != [] ==> (EscapeRef(s)[0] == '/' <==> s[0] == '/')
  {
    if s != [] {
      var e := EscapeRef(s);
      if |s| >= 2 && s[0] == '<' && s[1] == '/' {
        var tail := EscapeRef(s[2..]);
        EscapeRefNoCloseTag(s[2..]);
        assert e == "<\\/" + tail;
        forall i | 0 <= i < |e| - 1
          ensures !(e[i] == '<' && e[i + 1] == '/')
        {
          if i >= 3 {
            assert e[i] == tail[i - 3] && e[i + 1] == tail[i - 2];
          }
        }
      } else {
        var tail := EscapeRef(s[1..]);
        var x := EscapeChar(s[0]);
        EscapeRefNoCloseTag(s[1..]);
        EscapeCharHead(s[0]);
        assert e == x + tail;
        forall i | 0 <= i < |e| - 1
          ensures !(e[i] == '<' && e[i + 1] == '/')
        {
          if i >= |x| {
            assert e[i] == tail[i - |x|] && e[i + 1] == tail[i + 1 - |x|];
          } else if i == |x| - 1 && e[i] == '<' {
            assert s[0] == '<' && x == "<";
            assert |s| == 1 || s[1] != '/';
            assert tail == [] || tail[0] != '/';
          }
        }
      }
    }
  }

  // ---------------------------------------------------------------------
  // allowed_file

  const AllowedExtensions: set<string> := {"txt", "pdf", "png", "jpg", "jpeg", "gif", "doc", "docx"}

  /** `filename.rsplit('.', 1)[1]` for a name with a dot: what follows the
      last dot. */
  function Extension(filename: string): string
    decreases |filename|
  {
    if filename == [] || filename[|filename| - 1] == '.' then []
    else Extension(filename[..|filename| - 1]) + [filename[|filename| - 1]]
  }

  /** `allowed_file`: the name has a dot and its extension, lower-cased, is
      one of the allowed ones. */
  predicate AllowedFile(filename: string) {
    '.' in filename && Lower(Extension(filename)) in AllowedExtensions
  }

  /** The extension of a name with a dot is the dot-free text after its
      last dot. */
  lemma {:induction false} ExtensionSpec(filename: string)
    requires '.' in filename
    ensures |Extension(filename)| < |filename|
    ensures var d := |filename| - |Extension(filename)| - 1;
      filename[d] == '.' && Extension(filename) == filename[d + 1..]
    ensures '.' !in Extension(filename)
    decreases |filename|
  {
    var n := |filename|;
    if filename[n - 1] != '.' {
      var init := filename[..n - 1];
      assert '.' in init by {
        var k :| 0 <= k < n && filename[k] == '.';
        assert init[k] == '.';
      }
      ExtensionSpec(init);
      var d := |init| - |Extension(init)| - 1;
      assert init[d + 1..] + [filename[n - 1]] == filename[d + 1..];
    }
  }

  /** Lower-casing a name does not move its dots, so it lower-cases its
      extension. */
  lemma {:induction false} ExtensionLower(filename: string)
    ensures Extension(Lower(filename)) == Lower(Extension(filename))
    decreases |filename|
  {
    var n := |filename|;
    if n > 0 && filename[n - 1] != '.' {
      var init := filename[..n - 1];
      assert Lower(filename)[..n - 1] == Lower(init);
      ExtensionLower(init);
      LowerAppend(Extension(init), [filename[n - 1]]);
    }
  }

  /** The check ignores case: a name is accepted exactly when its
      lower-case form is. */
  lemma AllowedFileIgnoresCase(filename: string)
    ensures AllowedFile(Lower(filename)) <==> AllowedFile(filename)
  {
    ExtensionLower(filename);
    LowerIsLower(Extension(filename));
    var e := Lower(Extension(filename));
    assert Lower(e) == e;
    assert '.' in Lower(filename) <==> '.' in filename by {
      if '.' in filename {
        var k :| 0 <= k < |filename| && filename[k] == '.';
        assert Lower(filename)[k] == '.';
      }
      if '.' in Lower(filename) {
        var k :| 0 <= k < |filename| && Lower(filename)[k] == '.';
        assert filename[k] == '.';
      }
    }
  }

  /** A name without a dot is always refused. */
  lemma NoDotRefused(filename: string)
    requires '.' !in filename
    ensures !AllowedFile(filename)
  {
  }

  /** An upper-case extension is accepted. */
  lemma UpperCaseExtensionAccepted()
    ensures AllowedFile("cv.PDF")
  {
    assert "cv.PDF"[..5] == "cv.PD";
    assert "cv.PD"[..4] == "cv.P";
    assert "cv.P"[..3] == "cv.";
    assert Extension("cv.PDF") == "PDF";
    assert Lower("PDF") == "pdf";
  }

  /** Only the last extension counts: a PDF name with a trailing `.exe` is
      refused. */
  lemma LastExtensionDecides()
    ensures !AllowedFile("cv.pdf.exe")
  {
    assert "cv.pdf.exe"[..9] == "cv.pdf.ex";
    assert "cv.pdf.ex"[..8] == "cv.pdf.e";
    assert "cv.pdf.e"[..7] == "cv.pdf.";
    assert Extension("cv.pdf.exe") == "exe";
    assert Lower("exe") == "exe";
  }

  /** The script-closing sequence of a value is neutralised. */
  lemma ClosingScriptEscaped()
    ensures EscapeRef("a</b") == "a<\\/b"
  {
    assert "a</b"[1..] == "</b";
    assert "</b"[2..] == "b";
    assert "b"[1..] == [];
  }
}

/** The JavaScript string operations the pipeline relies on: `trim`,
    `toLowerCase` and `endsWith`. */
module Text {

  /** The characters `String.prototype.trim` removes: ECMAScript WhiteSpace
      and LineTerminator code points. */
  predicate IsJsWhitespace(c: char) {
    c == '\t' || c == '\n' || c == '\U{000B}' || c == '\U{000C}' || c == '\r' ||
    c == ' ' || c == '\U{00A0}' || c == '\U{1680}' ||
    ('\U{2000}' <= c <= '\U{200A}') ||
    c == '\U{2028}' || c == '\U{2029}' || c == '\U{202F}' || c == '\U{205F}' ||
    c == '\U{3000}' || c == '\U{FEFF}'
  }

  /** `trimStart`: whitespace removed from the front. */
  function TrimStart(s: string): string {
    if s != [] && IsJsWhitespace(s[0]) then TrimStart(s[1..]) else s
  }

  /** `trimEnd`: whitespace removed from the back. */
  function TrimEnd(s: string): string {
    if s != [] && IsJsWhitespace(s[|s| - 1]) then TrimEnd(s[..|s| - 1]) else s
  }

  /** `trim`: whitespace removed from both ends, and nothing else. */
  function Trim(s: string): (r: string)
    ensures |r| <= |s|
    ensures r != [] ==> !IsJsWhitespace(r[0]) && !IsJsWhitespace(r[|r| - 1])
    ensures s == [] || (!IsJsWhitespace(s[0]) && !IsJsWhitespace(s[|s| - 1])) ==> r == s
  {
    var t := TrimStart(s);
    TrimStartSuffix(s);
    TrimEndPrefix(t);
    TrimEnd(t)
  }

  /** `trimStart` keeps the longest suffix that does not begin with
      whitespace. */
  lemma {:induction false} TrimStartSuffix(s: string)
    ensures var r := TrimStart(s);
      && |r| <= |s| && r == s[|s| - |r|..]
      && (forall i :: 0 <= i < |s| - |r| ==> IsJsWhitespace(s[i]))
      && (r != [] ==> !IsJsWhitespace(r[0]))
  {
    if s != [] && IsJsWhitespace(s[0]) {
      var t := s[1..];
      TrimStartSuffix(t);
      var r := TrimStart(t);
      assert r == s[|s| - |r|..] by {
        assert t[|t| - |r|..] == s[|s| - |r|..];
      }
      forall i | 1 <= i < |s| - |r|
        ensures IsJsWhitespace(s[i])
      {
        assert s[i] == t[i - 1];
      }
    }
  }

  /** `trimEnd` keeps the longest prefix that does not end with whitespace. */
  lemma {:induction false} TrimEndPrefix(s: string)
    ensures var r := TrimEnd(s);
      && |r| <= |s| && r == s[..|r|]
      && (forall i :: |r| <= i < |s| ==> IsJsWhitespace(s[i]))
      && (r != [] ==> !IsJsWhitespace(r[|r| - 1]))
  {
    if s != [] && IsJsWhitespace(s[|s| - 1]) {
      TrimEndPrefix(s[..|s| - 1]);
    }
  }

  /** `!s.trim()`: the string is empty once trimmed, that is, it holds
      nothing but whitespace. */
  predicate IsBlank(s: string)
    ensures IsBlank(s) <==> forall i :: 0 <= i < |s| ==> IsJsWhitespace(s[i])
  {
    BlankIffAllWhitespace(s);
    Trim(s) == ""
  }

  /** Trimming leaves nothing exactly when every character is whitespace. */
  lemma BlankIffAllWhitespace(s: string)
    ensures Trim(s) == "" <==> forall i :: 0 <= i < |s| ==> IsJsWhitespace(s[i])
  {
    var t := TrimStart(s);
    TrimStartSuffix(s);
    TrimEndPrefix(t);
    if !forall i :: 0 <= i < |s| ==> IsJsWhitespace(s[i]) {
      var k :| 0 <= k < |s| && !IsJsWhitespace(s[k]);
      assert t != [];
      assert TrimEnd(t) != [];
    }
  }

  function LowerAscii(c: char): char {
    if 'A' <= c <= 'Z' then (c as int + 32) as char else c
  }

  /** `toLowerCase`, restricted to the ASCII letters. */
  function ToLower(s: string): (r: string)
    ensures |r| == |s|
  {
    seq(|s|, i requires 0 <= i < |s| => LowerAscii(s[i]))
  }

  /** Only the ASCII capitals change, each to its lower-case letter. */
  lemma ToLowerAsciiOnly(s: string)
    ensures forall i :: 0 <= i < |s| && 'A' <= s[i] <= 'Z' ==> ToLower(s)[i] as int == s[i] as int + 32
    ensures forall i :: 0 <= i < |s| && !('A' <= s[i] <= 'Z') ==> ToLower(s)[i] == s[i]
  {
  }

  predicate EndsWith(s: string, suffix: string) {
    |suffix| <= |s| && s[|s| - |suffix|..] == suffix
  }

  predicate StartsWith(s: string, prefix: string) {
    |prefix| <= |s| && s[..|prefix|] == prefix
  }

  lemma PrefixOfConcat(a: string, b: string)
    ensures StartsWith(a + b, a)
  {
    assert (a + b)[..|a|] == a;
  }

  lemma SuffixOfConcat(a: string, b: string)
    ensures EndsWith(a + b, b)
  {
    assert (a + b)[|a + b| - |b|..] == b;
  }

  /** `s.toLowerCase().endsWith(".svg")`, the same test as the regular
      expression `/\.svg$/i`. */
  predicate HasSvgExtension(s: string)
    ensures HasSvgExtension(s) <==>
      |s| >= 4 && s[|s| - 4] == '.' &&
      s[|s| - 3] in {'s', 'S'} && s[|s| - 2] in {'v', 'V'} && s[|s| - 1] in {'g', 'G'}
  {
    HasSvgExtensionCases(s);
    EndsWith(ToLower(s), ".svg")
  }

  /** The lower-cased suffix test looks at the last four characters only,
      each of which may be in either case. */
  lemma HasSvgExtensionCases(s: string)
    ensures EndsWith(ToLower(s), ".svg") <==>
      |s| >= 4 && s[|s| - 4] == '.' &&
      s[|s| - 3] in {'s', 'S'} && s[|s| - 2] in {'v', 'V'} && s[|s| - 1] in {'g', 'G'}
  {
    if |s| >= 4 {
      var l := ToLower(s);
      assert l[|s| - 4..] == [l[|s| - 4], l[|s| - 3], l[|s| - 2], l[|s| - 1]];
    }
  }

  /** A lower-case `.svg` suffix passes the case-insensitive test. */
  lemma LowerSuffixHasSvgExtension(s: string)
    requires EndsWith(s, ".svg")
    ensures HasSvgExtension(s)
  {
    HasSvgExtensionCases(s);
    assert s[|s| - 4..][0] == s[|s| - 4];
  }

  lemma SuffixOfSuffix(s: string, mid: string, suffix: string)
    requires EndsWith(s, mid) && EndsWith(mid, suffix)
    ensures EndsWith(s, suffix)
  {
    assert s[|s| - |suffix|..] == s[|s| - |mid|..][|mid| - |suffix|..];
  }

  lemma SuffixOfLonger(a: string, b: string, suffix: string)
    requires EndsWith(b, suffix)
    ensures EndsWith(a + b, suffix)
  {
    assert (a + b)[|a + b| - |suffix|..] == b[|b| - |suffix|..];
  }

  /** `parts.join(sep)`: no parts give the empty string, and otherwise
      the result starts with the first part and ends with the last. */
  function JoinWith(parts: seq<string>, sep: string): (r: string)
    ensures parts == [] ==> r == ""
    ensures parts != [] ==> StartsWith(r, parts[0]) && EndsWith(r, parts[|parts| - 1])
  {
    if |parts| == 0 then ""
    else if |parts| == 1 then parts[0]
    else
      var rest := JoinWith(parts[1..], sep);
      assert parts[1..][|parts[1..]| - 1] == parts[|parts| - 1];
      assert parts[0] + sep + rest == parts[0] + (sep + rest);
      PrefixOfConcat(parts[0], sep + rest);
      SuffixOfLonger(parts[0] + sep, rest, parts[|parts| - 1]);
      parts[0] + sep + rest
  }

  /** Every line followed by a line feed. */
  function Terminated(lines: seq<string>): string {
    if lines == [] then "" else lines[0] + "\n" + Terminated(lines[1..])
  }

  /** Joining with line feeds and adding one more terminates every line
      (of a non-empty list: no lines join to a lone line feed). */
  lemma {:induction false} JoinedLinesTerminated(lines: seq<string>)
    requires lines != []
    ensures JoinWith(lines, "\n") + "\n" == Terminated(lines)
  {
    if |lines| == 1 {
      assert lines[1..] == [];
    } else {
      JoinedLinesTerminated(lines[1..]);
      calc {
        JoinWith(lines, "\n") + "\n";
        lines[0] + "\n" + JoinWith(lines[1..], "\n") + "\n";
        lines[0] + "\n" + (JoinWith(lines[1..], "\n") + "\n");
        lines[0] + "\n" + Terminated(lines[1..]);
        { assert lines != []; }
        Terminated(lines);
      }
    }
  }
}

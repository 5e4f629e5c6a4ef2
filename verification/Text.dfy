/** Text operations of the Python runtime that several scripts lean on: `str.strip`,
    `str.join`, `str.splitlines`, decimal formatting and JSON string escaping
    (section 7 of RFC 8259, without the ASCII-only option).  A `char` is one code point,
    as in a Python string. */
module Text {

  function Min(a: int, b: int): int { if a <= b then a else b }

  function Max(a: int, b: int): int { if a >= b then a else b }

  // ---------------------------------------------------------------- whitespace

  predicate IsSpace(c: char) {
    || '\t' <= c <= '\r' || '\U{1c}' <= c <= ' ' || c == '\U{85}' || c == '\U{a0}'
    || c == '\U{1680}' || '\U{2000}' <= c <= '\U{200a}' || c == '\U{2028}' || c == '\U{2029}'
    || c == '\U{202f}' || c == '\U{205f}' || c == '\U{3000}'
  }

  predicate Blank(s: string) { forall c <- s :: IsSpace(c) }

  function StripLeft(s: string): string {
    if s != "" && IsSpace(s[0]) then StripLeft(s[1..]) else s
  }

  function StripRight(s: string): string {
    if s != "" && IsSpace(s[|s| - 1]) then StripRight(s[..|s| - 1]) else s
  }

  function Strip(s: string): string { StripRight(StripLeft(s)) }

  lemma {:induction false} StripLeftBlank(s: string)
    ensures Blank(s) <==> StripLeft(s) == ""
  {
    if s != "" && IsSpace(s[0]) {
      StripLeftBlank(s[1..]);
      assert s == [s[0]] + s[1..];
    } else if s != "" {
      assert s[0] in s;
    }
  }

  lemma {:induction false} StripRightBlank(s: string)
    ensures Blank(s) <==> StripRight(s) == ""
  {
    if s != "" && IsSpace(s[|s| - 1]) {
      StripRightBlank(s[..|s| - 1]);
      assert s == s[..|s| - 1] + [s[|s| - 1]];
    } else if s != "" {
      assert s[|s| - 1] in s;
    }
  }

  lemma {:induction false} StripLeftShape(s: string)
    ensures StripLeft(s) == "" || !IsSpace(StripLeft(s)[0])
  {
    if s != "" && IsSpace(s[0]) { StripLeftShape(s[1..]); }
  }

  // Stripping leaves nothing exactly when there was nothing but whitespace.
  lemma StripBlank(s: string)
    ensures Blank(s) <==> Strip(s) == ""
  {
    StripLeftBlank(s);
    StripRightBlank(StripLeft(s));
    StripLeftShape(s);
    if StripLeft(s) != "" { assert StripLeft(s)[0] in StripLeft(s); }
  }

  lemma {:induction false} StripRightShape(s: string)
    ensures StripRight(s) <= s
    ensures StripRight(s) == "" || !IsSpace(StripRight(s)[|StripRight(s)| - 1])
  {
    if s != "" && IsSpace(s[|s| - 1]) { StripRightShape(s[..|s| - 1]); }
  }

  // A text that starts and ends with something visible is left as it is.
  lemma StripVisibleEnds(s: string)
    requires s != "" && !IsSpace(s[0]) && !IsSpace(s[|s| - 1])
    ensures Strip(s) == s
  {
  }

  lemma StripVisible(s: string)
    requires |s| == 1 && !IsSpace(s[0])
    ensures Strip(s) == s && !Blank(s)
  {
    assert s[0] in s;
  }

  lemma StripIsIdempotent(s: string)
    ensures Strip(Strip(s)) == Strip(s)
  {
    StripLeftShape(s);
    StripRightShape(StripLeft(s));
  }

  // The lower case of ASCII letters.
  function Lower(s: string): string {
    seq(|s|, i requires 0 <= i < |s| => if 'A' <= s[i] <= 'Z' then (s[i] as int + 32) as char else s[i])
  }

  // ---------------------------------------------------------------- join

  function Join(parts: seq<string>, sep: string): string {
    if |parts| == 0 then ""
    else if |parts| == 1 then parts[0]
    else parts[0] + sep + Join(parts[1..], sep)
  }

  lemma {:induction false} JoinConcat(a: seq<string>, b: seq<string>, sep: string)
    requires a != [] && b != []
    ensures Join(a + b, sep) == Join(a, sep) + sep + Join(b, sep)
  {
    if |a| == 1 {
      assert (a + b)[1..] == b;
    } else {
      JoinConcat(a[1..], b, sep);
      assert (a + b)[1..] == a[1..] + b;
      assert a[0] + sep + (Join(a[1..], sep) + sep + Join(b, sep))
          == (a[0] + sep + Join(a[1..], sep)) + sep + Join(b, sep);
    }
  }

  lemma {:induction false} JoinReplaceLength(parts: seq<string>, sep: string, i: nat, x: string)
    requires i < |parts|
    ensures |Join(parts[i := x], sep)| == |Join(parts, sep)| - |parts[i]| + |x|
  {
    if |parts| > 1 {
      if i == 0 {
        assert parts[i := x][1..] == parts[1..];
      } else {
        JoinReplaceLength(parts[1..], sep, i - 1, x);
        assert parts[i := x][1..] == parts[1..][i - 1 := x];
      }
    }
  }

  // ---------------------------------------------------------------- splitlines

  predicate IsLineBreak(c: char) {
    || '\n' <= c <= '\r' || '\U{1c}' <= c <= '\U{1e}'
    || c == '\U{85}' || c == '\U{2028}' || c == '\U{2029}'
  }

  predicate OneLine(s: string) { forall c <- s :: !IsLineBreak(c) }

  // Index of the first line break, or the length when there is none.
  function FirstBreak(s: string): (n: nat)
    ensures n <= |s|
    ensures OneLine(s[..n])
    ensures n < |s| ==> IsLineBreak(s[n])
  {
    if s == "" || IsLineBreak(s[0]) then 0
    else
      var n := 1 + FirstBreak(s[1..]);
      assert s[..n] == [s[0]] + s[1..][..n - 1];
      n
  }

  // `str.splitlines()`: no empty last line, and a carriage return followed by a line feed is one break.
  function SplitLines(s: string): seq<string>
    decreases |s|
  {
    if s == "" then []
    else
      var n := FirstBreak(s);
      if n == |s| then [s]
      else if s[n] == '\r' && n + 1 < |s| && s[n + 1] == '\n' then [s[..n]] + SplitLines(s[n + 2..])
      else [s[..n]] + SplitLines(s[n + 1..])
  }

  lemma {:induction false} SplitLinesAreOneLine(s: string)
    ensures forall l <- SplitLines(s) :: OneLine(l)
    decreases |s|
  {
    if s != "" {
      var n := FirstBreak(s);
      if n < |s| {
        if s[n] == '\r' && n + 1 < |s| && s[n + 1] == '\n' {
          SplitLinesAreOneLine(s[n + 2..]);
        } else {
          SplitLinesAreOneLine(s[n + 1..]);
        }
      }
    }
  }

  // A text file made of the given lines, each ended by a line feed.
  function FileText(lines: seq<string>): string {
    if lines == [] then "" else Join(lines, "\n") + "\n"
  }

  lemma FileTextCons(lines: seq<string>)
    requires lines != []
    ensures FileText(lines) == lines[0] + "\n" + FileText(lines[1..])
  {
    if |lines| > 1 {
      assert (lines[0] + "\n" + Join(lines[1..], "\n")) + "\n"
          == lines[0] + "\n" + (Join(lines[1..], "\n") + "\n");
    } else {
      assert lines[1..] == [];
      assert lines[0] + "\n" + "" == lines[0] + "\n";
    }
  }

  lemma {:induction false} FirstBreakOfLine(line: string, rest: string)
    requires OneLine(line)
    ensures FirstBreak(line + "\n" + rest) == |line|
  {
    var t := line + "\n" + rest;
    assert t[|line|] == '\n';
    if line != "" {
      assert line[0] in line;
      FirstBreakOfLine(line[1..], rest);
      assert t[1..] == line[1..] + "\n" + rest;
    }
  }

  lemma {:induction false} SplitLinesOfLines(lines: seq<string>)
    requires forall l <- lines :: OneLine(l)
    ensures SplitLines(FileText(lines)) == lines
  {
    if lines != [] {
      var line, rest := lines[0], FileText(lines[1..]);
      FileTextCons(lines);
      FirstBreakOfLine(line, rest);
      var t := line + "\n" + rest;
      assert t[|line|] == '\n';
      assert t[|line| + 1..] == rest;
      assert t[..|line|] == line;
      SplitLinesOfLines(lines[1..]);
    }
  }

  // Writing lines and reading them back with `splitlines` is the identity exactly when
  // no line carries one of the eleven line breaks.
  lemma SplitLinesRoundTrip(lines: seq<string>)
    ensures SplitLines(FileText(lines)) == lines <==> forall l <- lines :: OneLine(l)
  {
    if forall l <- lines :: OneLine(l) {
      SplitLinesOfLines(lines);
    } else {
      SplitLinesAreOneLine(FileText(lines));
    }
  }

  // ---------------------------------------------------------------- decimals

  function Digit(d: nat): char
    requires d < 16
  {
    if d < 10 then '0' + (d as char) else 'a' + ((d - 10) as char)
  }

  function Dec(n: nat): string {
    if n < 10 then [Digit(n)] else Dec(n / 10) + [Digit(n % 10)]
  }

  function Zeros(n: nat): string { seq(n, _ => '0') }

  // The `03d` format.
  function Dec3(n: nat): string {
    if |Dec(n)| < 3 then Zeros(3 - |Dec(n)|) + Dec(n) else Dec(n)
  }

  function Pow10(k: nat): nat { if k == 0 then 1 else 10 * Pow10(k - 1) }

  lemma {:induction false} DecLength(n: nat, k: nat)
    requires k >= 1 && n < Pow10(k)
    ensures 1 <= |Dec(n)| <= k
  {
    if n >= 10 {
      assert k != 1;
      DecLength(n / 10, k - 1);
    }
  }

  // ---------------------------------------------------------------- JSON strings

  function EscapeChar(c: char): (r: string)
    ensures 1 <= |r| <= 6
  {
    if c == '"' then "\\\""
    else if c == '\\' then "\\\\"
    else if c == '\n' then "\\n"
    else if c == '\r' then "\\r"
    else if c == '\t' then "\\t"
    else if c == '\U{c}' then "\\f"
    else if c == '\U{8}' then "\\b"
    else if c < ' ' then "\\u00" + [Digit(c as int / 16), Digit(c as int % 16)]
    else [c]
  }

  function Escape(s: string): string {
    if s == "" then "" else Escape(s[..|s| - 1]) + EscapeChar(s[|s| - 1])
  }

  function HexValue(c: char): (n: nat)
    ensures n < 16
  {
    if '0' <= c <= '9' then c as int - 48
    else if 'a' <= c <= 'f' then c as int - 87
    else if 'A' <= c <= 'F' then c as int - 55
    else 0
  }

  // What a JSON reader makes of the inside of a string (section 7 of RFC 8259), below the surrogates.
  function Unescape(s: string): string {
    if s == "" then ""
    else if s[0] != '\\' then [s[0]] + Unescape(s[1..])
    else if |s| < 2 then ""
    else if s[1] == 'u' && |s| >= 6 then
      var code := ((HexValue(s[2]) * 16 + HexValue(s[3])) * 16 + HexValue(s[4])) * 16 + HexValue(s[5]);
      (if code < 0xD800 then [code as char] else "") + Unescape(s[6..])
    else
      [match s[1]
       case 'b' => '\U{8}' case 'f' => '\U{c}' case 'n' => '\n' case 'r' => '\r' case 't' => '\t' case c => c]
      + Unescape(s[2..])
  }

  lemma UnescapeOne(c: char, rest: string)
    ensures Unescape(EscapeChar(c) + rest) == [c] + Unescape(rest)
  {
    var s := EscapeChar(c) + rest;
    if c < ' ' && c !in {'\n', '\r', '\t', '\U{c}', '\U{8}'} {
      assert s[6..] == rest;
      HexOfDigit(c as int / 16);
      HexOfDigit(c as int % 16);
    } else if c in {'"', '\\', '\n', '\r', '\t', '\U{c}', '\U{8}'} {
      assert s[2..] == rest;
    } else {
      assert s[1..] == rest;
    }
  }

  lemma HexOfDigit(d: nat)
    requires d < 16
    ensures HexValue(Digit(d)) == d && Digit(d) != '\\'
  {
  }

  lemma EscapeLast(s: string, rest: string) returns (e: string)
    requires s != ""
    ensures Escape(s) == Escape(s[..|s| - 1]) + e && Unescape(e + rest) == [s[|s| - 1]] + Unescape(rest)
  {
    e := EscapeChar(s[|s| - 1]);
    UnescapeOne(s[|s| - 1], rest);
  }

  lemma Associative(a: string, b: string, c: string)
    ensures (a + b) + c == a + (b + c)
  {
  }

  // A reader of the encoding gets the text back.
  lemma {:induction false} EscapeRoundTrip(s: string, rest: string)
    ensures Unescape(Escape(s) + rest) == s + Unescape(rest)
    decreases |s|
  {
    if s != "" {
      var init, last := s[..|s| - 1], s[|s| - 1];
      var e := EscapeLast(s, rest);
      Associative(Escape(init), e, rest);
      EscapeRoundTrip(init, e + rest);
      Associative(init, [last], Unescape(rest));
      assert init + [last] == s;
    } else {
      assert Escape(s) + rest == rest && s + Unescape(rest) == Unescape(rest);
    }
  }

  function Quote(s: string): string { "\"" + Escape(s) + "\"" }

  // Every code point costs between one and six characters of the encoding.
  lemma {:induction false} EscapeGrowth(s: string, n: nat)
    requires n <= |s|
    ensures |s| - n <= |Escape(s)| - |Escape(s[..n])| <= 6 * (|s| - n)
  {
    if n < |s| {
      EscapeGrowth(s[..|s| - 1], n);
      assert s[..|s| - 1][..n] == s[..n];
    } else {
      assert s[..n] == s;
    }
  }
}

/**
 * The pieces of Ruby's String behaviour the application relies on:
 * blank?, downcase, split(/\s+/), to_i, Integer#to_s, String#inspect and
 * the line anchors ^ and $ of Ruby regular expressions.
 * Characters are Unicode code points; case mapping is ASCII only.
 */
module RubyText {
  import opened Wrappers

  // ---------------------------------------------------------------------------
  // Character classes

  /** `\s` in a Ruby regular expression, and ISSPACE in Ruby's number parser. */
  predicate IsSpace(c: char) {
    c == ' ' || c == '\t' || c == '\n' || c == '\U{B}' || c == '\U{C}' || c == '\r'
  }

  /** `[[:space:]]` as String#blank? uses it: the Unicode White_Space characters. */
  predicate IsUnicodeSpace(c: char) {
    || IsSpace(c) || c == '\U{85}' || c == '\U{A0}' || c == '\U{1680}'
    || ('\U{2000}' <= c <= '\U{200A}') || c == '\U{2028}' || c == '\U{2029}'
    || c == '\U{202F}' || c == '\U{205F}' || c == '\U{3000}'
  }

  predicate IsDigit(c: char) { '0' <= c <= '9' }

  // ---------------------------------------------------------------------------
  // blank?

  /** Object#blank? on a String or nil: nil, empty, or nothing but white space. */
  predicate Blank(q: Option<string>) {
    q.None? || forall i :: 0 <= i < |q.value| ==> IsUnicodeSpace(q.value[i])
  }

  // ---------------------------------------------------------------------------
  // downcase (ASCII)

  function LowerChar(c: char): (d: char)
    ensures IsSpace(d) == IsSpace(c) && IsUnicodeSpace(d) == IsUnicodeSpace(c)
    ensures !('A' <= d <= 'Z')
    ensures 'A' <= c <= 'Z' || d == c
  {
    if 'A' <= c <= 'Z' then (c as int + 32) as char else c
  }

  function Downcase(s: string): (r: string)
    ensures |r| == |s|
    ensures forall i :: 0 <= i < |s| ==> r[i] == LowerChar(s[i])
  {
    seq(|s|, i requires 0 <= i < |s| => LowerChar(s[i]))
  }

  lemma DowncaseIdempotent(s: string)
    ensures Downcase(Downcase(s)) == Downcase(s)
  {
  }

  /** A string without capital letters is its own downcase. */
  lemma DowncaseNoCapitals(s: string)
    requires forall i :: 0 <= i < |s| ==> !('A' <= s[i] <= 'Z')
    ensures Downcase(s) == s
  {
  }

  // ---------------------------------------------------------------------------
  // split(/\s+/)

  /** Length of the run of non-space characters that starts s. */
  function TokenLen(s: string): (n: nat)
    ensures n <= |s|
    ensures forall i :: 0 <= i < n ==> !IsSpace(s[i])
    ensures n < |s| ==> IsSpace(s[n])
  {
    if s == [] || IsSpace(s[0]) then 0 else 1 + TokenLen(s[1..])
  }

  predicate IsWord(w: string) {
    w != [] && forall i :: 0 <= i < |w| ==> !IsSpace(w[i])
  }

  /** The maximal runs of non-space characters of s, in order. */
  function Words(s: string): (ws: seq<string>)
    ensures forall k :: 0 <= k < |ws| ==> IsWord(ws[k])
    ensures forall k, i :: 0 <= k < |ws| && 0 <= i < |ws[k]| ==> ws[k][i] in s
    decreases |s|
  {
    if s == [] then []
    else if IsSpace(s[0]) then Words(s[1..])
    else
      var n := TokenLen(s);
      [s[..n]] + Words(s[n..])
  }

  /**
   * Ruby's s.split(/\s+/): the words of s, preceded by an empty field when s
   * starts with white space; trailing empty fields are dropped, so a string of
   * white space only splits into nothing.
   */
  function SplitWs(s: string): (fields: seq<string>)
    ensures |fields| >= |Words(s)|
    ensures Words(s) == [] ==> fields == []
    ensures forall k, i :: 0 <= k < |fields| && 0 <= i < |fields[k]| ==> fields[k][i] in s
    ensures s != [] && !IsSpace(s[0]) ==> fields == Words(s)
    ensures s != [] && IsSpace(s[0]) && Words(s) != [] ==> fields == [""] + Words(s)
  {
    var ws := Words(s);
    if ws != [] && IsSpace(s[0]) then [""] + ws else ws
  }

  /** Array#join: the parts with sep between each two. */
  function Join(parts: seq<string>, sep: string): string {
    if |parts| == 0 then ""
    else if |parts| == 1 then parts[0]
    else parts[0] + sep + Join(parts[1..], sep)
  }

  lemma {:induction false} TokenLenOfWord(w: string, t: string)
    requires forall i :: 0 <= i < |w| ==> !IsSpace(w[i])
    requires t == [] || IsSpace(t[0])
    ensures TokenLen(w + t) == |w|
    decreases |w|
  {
    if w != [] {
      assert (w + t)[1..] == w[1..] + t;
      TokenLenOfWord(w[1..], t);
    }
  }

  /** Splitting undoes joining: the words of "w1 w2 ... wn" are w1, ..., wn. */
  lemma {:induction false} WordsOfJoinSpaced(ws: seq<string>)
    requires forall k :: 0 <= k < |ws| ==> IsWord(ws[k])
    ensures Words(Join(ws, " ")) == ws
    ensures ws != [] ==> SplitWs(Join(ws, " ")) == ws
    decreases |ws|
  {
    if |ws| == 0 {
    } else {
      var w := ws[0];
      var rest := if |ws| == 1 then "" else " " + Join(ws[1..], " ");
      assert Join(ws, " ") == w + rest;
      TokenLenOfWord(w, rest);
      assert (w + rest)[..|w|] == w;
      assert (w + rest)[|w|..] == rest;
      if |ws| > 1 {
        WordsOfJoinSpaced(ws[1..]);
        assert rest[1..] == Join(ws[1..], " ");
        assert Words(rest) == Words(Join(ws[1..], " "));
        assert ws == [w] + ws[1..];
      }
    }
  }

  /** A string with a non-space character has at least one word. */
  lemma {:induction false} WordsNonEmpty(s: string, k: nat)
    requires k < |s| && !IsSpace(s[k])
    ensures Words(s) != []
    decreases |s|
  {
    if IsSpace(s[0]) {
      WordsNonEmpty(s[1..], k - 1);
    }
  }

  /** White space alone has no words. */
  lemma {:induction false} WordsOfSpace(s: string)
    requires forall i :: 0 <= i < |s| ==> IsSpace(s[i])
    ensures Words(s) == []
    decreases |s|
  {
    if s != [] {
      WordsOfSpace(s[1..]);
    }
  }

  /** A single word is its own only word. */
  lemma WordsOfWord(w: string)
    requires IsWord(w)
    ensures Words(w) == [w]
  {
    TokenLenOfWord(w, []);
    assert w + [] == w;
    assert w[|w|..] == [];
  }

  /** The run of non-space characters starting a + t ends inside a when a already contains a space. */
  lemma {:induction false} TokenLenPrefix(a: string, t: string)
    requires TokenLen(a) < |a| || t == [] || IsSpace(t[0])
    ensures TokenLen(a + t) == TokenLen(a)
    decreases |a|
  {
    if a == [] {
      assert a + t == t;
    } else if !IsSpace(a[0]) {
      assert (a + t)[1..] == a[1..] + t;
      TokenLenPrefix(a[1..], t);
    }
  }

  /** A white-space character separates: the words around it are the words of each side. */
  lemma {:induction false} WordsSplitAtSpace(a: string, c: char, b: string)
    requires IsSpace(c)
    ensures Words(a + [c] + b) == Words(a) + Words(b)
    decreases |a|
  {
    var s := a + [c] + b;
    if a == [] {
      assert s == [c] + b && s[1..] == b;
    } else if IsSpace(a[0]) {
      assert s[1..] == a[1..] + [c] + b;
      WordsSplitAtSpace(a[1..], c, b);
    } else {
      var n := TokenLen(a);
      TokenLenPrefix(a, [c] + b);
      assert a + ([c] + b) == s;
      assert s[..n] == a[..n];
      assert s[n..] == a[n..] + [c] + b;
      WordsSplitAtSpace(a[n..], c, b);
    }
  }

  /** A query that is not blank splits, once downcased, into at least one field. */
  lemma NotBlankHasWords(q: string)
    requires !Blank(Some(q))
    ensures Words(Downcase(q)) != [] && SplitWs(Downcase(q)) != []
  {
    var k :| 0 <= k < |q| && !IsUnicodeSpace(q[k]);
    WordsNonEmpty(Downcase(q), k);
  }

  // ---------------------------------------------------------------------------
  // String#to_i (base 10)

  function SkipSpace(s: string): (t: string)
    ensures |t| <= |s| && (t == [] || !IsSpace(t[0]))
  {
    if s != [] && IsSpace(s[0]) then SkipSpace(s[1..]) else s
  }

  /** Digits followed by further digits, each optionally preceded by a single '_'; underscores dropped. */
  function DigitTail(s: string): (ds: string)
    ensures forall i :: 0 <= i < |ds| ==> IsDigit(ds[i])
  {
    if |s| >= 1 && IsDigit(s[0]) then [s[0]] + DigitTail(s[1..])
    else if |s| >= 2 && s[0] == '_' && IsDigit(s[1]) then [s[1]] + DigitTail(s[2..])
    else []
  }

  /** The digits of the number at the start of s (none unless s starts with a digit). */
  function DigitRun(s: string): (ds: string)
    ensures forall i :: 0 <= i < |ds| ==> IsDigit(ds[i])
  {
    if s != [] && IsDigit(s[0]) then DigitTail(s) else []
  }

  function DigitValue(c: char): nat { if IsDigit(c) then c as nat - '0' as nat else 0 }

  function DigitsValue(ds: string): nat
  {
    if ds == [] then 0 else DigitsValue(ds[..|ds| - 1]) * 10 + DigitValue(ds[|ds| - 1])
  }

  /** What follows an optional sign, and whether the sign was '-'. */
  function SignOf(t: string): (bool, string)
  {
    if t != [] && t[0] == '-' then (true, t[1..])
    else if t != [] && t[0] == '+' then (false, t[1..])
    else (false, t)
  }

  /** Base 10 accepts an optional "0d" / "0D" radix prefix. */
  function StripDecimalPrefix(u: string): string
  {
    if |u| >= 2 && u[0] == '0' && (u[1] == 'd' || u[1] == 'D') then u[2..] else u
  }

  /** The digits String#to_i reads from s. */
  function ToIDigits(s: string): (ds: string)
    ensures forall i :: 0 <= i < |ds| ==> IsDigit(ds[i])
  {
    DigitRun(StripDecimalPrefix(SignOf(SkipSpace(s)).1))
  }

  /** String#to_i: leading white space, a sign, digits; anything unparsable reads as 0. */
  function ToI(s: string): int
  {
    var v: int := DigitsValue(ToIDigits(s));
    if SignOf(SkipSpace(s)).0 then -v else v
  }

  /** nil.to_i is 0. */
  function OptToI(p: Option<string>): int
  {
    if p.None? then 0 else ToI(p.value)
  }

  lemma {:induction false} DigitsValueZero(ds: string)
    requires forall i :: 0 <= i < |ds| ==> IsDigit(ds[i])
    ensures DigitsValue(ds) == 0 <==> forall i :: 0 <= i < |ds| ==> ds[i] == '0'
    decreases |ds|
  {
    if ds != [] {
      var init := ds[..|ds| - 1];
      DigitsValueZero(init);
      assert forall i :: 0 <= i < |init| ==> init[i] == ds[i];
    }
  }

  /** A blank string reads as 0: after the skipped white space nothing can start a number. */
  lemma {:induction false} BlankToIZero(s: string)
    requires forall i :: 0 <= i < |s| ==> IsUnicodeSpace(s[i])
    ensures ToIDigits(s) == [] && ToI(s) == 0
    decreases |s|
  {
    if s != [] && IsSpace(s[0]) {
      BlankToIZero(s[1..]);
    }
  }

  /** to_i is non-zero exactly when the digits it reads include a non-zero digit. */
  lemma ToINonZero(s: string)
    ensures ToI(s) != 0 <==> exists i :: 0 <= i < |ToIDigits(s)| && ToIDigits(s)[i] != '0'
  {
    DigitsValueZero(ToIDigits(s));
  }

  // ---------------------------------------------------------------------------
  // Integer#to_s

  function DigitChar(d: nat): (c: char)
    requires d < 10
    ensures IsDigit(c) && DigitValue(c) == d
  {
    ('0' as nat + d) as char
  }

  function NatToString(n: nat): (s: string)
    ensures s != [] && forall i :: 0 <= i < |s| ==> IsDigit(s[i])
    ensures |s| > 1 ==> s[0] != '0'
  {
    if n < 10 then [DigitChar(n)] else NatToString(n / 10) + [DigitChar(n % 10)]
  }

  function IntToString(n: int): string
  {
    if n < 0 then "-" + NatToString(-n) else NatToString(n)
  }

  lemma {:induction false} NatToStringValue(n: nat)
    ensures DigitsValue(NatToString(n)) == n
  {
    if n >= 10 {
      NatToStringValue(n / 10);
      var s := NatToString(n);
      assert s[..|s| - 1] == NatToString(n / 10);
    }
  }

  /** A number can end a string when what follows cannot continue it. */
  predicate EndsNumber(rest: string) {
    rest == [] || !(IsDigit(rest[0]) || rest[0] == '_')
  }

  lemma {:induction false} DigitTailOfDigits(ds: string, rest: string)
    requires forall i :: 0 <= i < |ds| ==> IsDigit(ds[i])
    requires EndsNumber(rest)
    ensures DigitTail(ds + rest) == ds
    decreases |ds|
  {
    if ds == [] {
    } else {
      assert (ds + rest)[1..] == ds[1..] + rest;
      DigitTailOfDigits(ds[1..], rest);
    }
  }

  /** to_i reads back what to_s wrote, whatever non-numeric text follows. */
  lemma ToIOfIntToString(n: int, rest: string)
    requires EndsNumber(rest)
    requires rest != [] ==> rest[0] != 'd' && rest[0] != 'D'
    ensures ToI(IntToString(n) + rest) == n
  {
    var m: nat := if n < 0 then -n else n;
    var digits := NatToString(m);
    var s := IntToString(n) + rest;
    assert SkipSpace(s) == s;
    var u := digits + rest;
    if n < 0 {
      assert s == "-" + u;
      assert s[1..] == u;
    }
    assert SignOf(s) == (n < 0, u);
    assert StripDecimalPrefix(u) == u by {
      if |u| >= 2 && u[0] == '0' {
        assert |digits| == 1;
        assert u[1] == rest[0];
      }
    }
    DigitTailOfDigits(digits, rest);
    assert DigitRun(u) == digits;
    NatToStringValue(m);
  }

  // ---------------------------------------------------------------------------
  // String#inspect

  function EscapeOne(c: char, rest: string): (e: string)
    ensures 1 <= |e| <= 2
    ensures |e| == 1 ==> e == [c] && c != '\\'
    ensures |e| == 2 ==> e[0] == '\\'
  {
    if c == '"' then "\\\""
    else if c == '\\' then "\\\\"
    else if c == '#' && rest != [] && (rest[0] == '{' || rest[0] == '$' || rest[0] == '@') then "\\#"
    else if c == '\n' then "\\n"
    else if c == '\t' then "\\t"
    else if c == '\r' then "\\r"
    else if c == '\U{C}' then "\\f"
    else if c == '\U{B}' then "\\v"
    else if c == '\U{8}' then "\\b"
    else if c == '\U{7}' then "\\a"
    else if c == '\U{1B}' then "\\e"
    else [c]
  }

  function Escape(s: string): string
  {
    if s == [] then [] else EscapeOne(s[0], s[1..]) + Escape(s[1..])
  }

  /** String#inspect: the string in double quotes with its special characters escaped. */
  function Inspect(s: string): (r: string)
    ensures |r| >= 2 && r[0] == '"' && r[|r| - 1] == '"'
  {
    "\"" + Escape(s) + "\""
  }

  /** A character that String#inspect leaves as it is. */
  predicate PlainChar(c: char)
  {
    ' ' <= c && c != '"' && c != '\\' && c != '#'
  }

  /** A string of plain characters is inspected by quoting it and nothing else. */
  lemma {:induction false} EscapePlain(s: string)
    requires forall i :: 0 <= i < |s| ==> PlainChar(s[i])
    ensures Escape(s) == s
  {
    if s != [] {
      EscapePlain(s[1..]);
      assert s == [s[0]] + s[1..];
    }
  }

  lemma InspectPlain(s: string)
    requires forall i :: 0 <= i < |s| ==> PlainChar(s[i])
    ensures Inspect(s) == "\"" + s + "\""
  {
    EscapePlain(s);
  }

  function UnescapeCode(c: char): char
  {
    match c
    case 'n' => '\n'
    case 't' => '\t'
    case 'r' => '\r'
    case 'f' => '\U{C}'
    case 'v' => '\U{B}'
    case 'b' => '\U{8}'
    case 'a' => '\U{7}'
    case 'e' => '\U{1B}'
    case _ => c
  }

  /** Reads the escapes Escape writes. */
  function Unescape(e: string): string
  {
    if e == [] then []
    else if e[0] == '\\' && |e| >= 2 then [UnescapeCode(e[1])] + Unescape(e[2..])
    else [e[0]] + Unescape(e[1..])
  }

  /** Reads back a literal written by Inspect. */
  function Uninspect(t: string): string
    requires |t| >= 2
  {
    Unescape(t[1..|t| - 1])
  }

  lemma {:induction false} UnescapeEscape(s: string)
    ensures Unescape(Escape(s)) == s
    decreases |s|
  {
    if s != [] {
      var e := EscapeOne(s[0], s[1..]);
      var tail := Escape(s[1..]);
      UnescapeEscape(s[1..]);
      if |e| == 1 {
        assert (e + tail)[1..] == tail;
      } else {
        assert (e + tail)[2..] == tail;
        assert UnescapeCode(e[1]) == s[0];
      }
      assert s == [s[0]] + s[1..];
    }
  }

  /** Inspect loses nothing: the message text names the option exactly. */
  lemma UninspectInspect(s: string)
    ensures Uninspect(Inspect(s)) == s
  {
    var r := Inspect(s);
    assert r[1..|r| - 1] == Escape(s);
    UnescapeEscape(s);
  }

  lemma InspectInjective(s: string, t: string)
    requires Inspect(s) == Inspect(t)
    ensures s == t
  {
    UninspectInspect(s);
    UninspectInspect(t);
  }

  // ---------------------------------------------------------------------------
  // Line anchors of Ruby regular expressions

  predicate StartsWith(s: string, p: string) { p <= s }

  predicate EndsWith(s: string, p: string) { |p| <= |s| && s[|s| - |p|..] == p }

  /** /^p/ matches s: p starts s or starts a line after a newline. */
  predicate MatchesAtLineStart(s: string, p: string) {
    StartsWith(s, p) || exists k :: 0 <= k < |s| && s[k] == '\n' && StartsWith(s[k + 1..], p)
  }

  /** /p$/ matches s: p ends s or ends a line before a newline. */
  predicate MatchesAtLineEnd(s: string, p: string) {
    EndsWith(s, p) || exists k :: 0 <= k < |s| && s[k] == '\n' && EndsWith(s[..k], p)
  }

  /** A position where s and p disagree shows that s does not start with p. */
  lemma DiffersAt(s: string, p: string, k: nat)
    requires k < |s| && k < |p| && s[k] != p[k]
    ensures !StartsWith(s, p)
  {
  }

  predicate SingleLine(s: string) { forall k :: 0 <= k < |s| ==> s[k] != '\n' }

  /** On a string without newlines the anchors mean start and end of string. */
  lemma SingleLineAnchors(s: string, p: string)
    requires SingleLine(s)
    ensures MatchesAtLineStart(s, p) <==> StartsWith(s, p)
    ensures MatchesAtLineEnd(s, p) <==> EndsWith(s, p)
  {
  }
}

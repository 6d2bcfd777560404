/** Literal strings (section 7.3.4.2 of ISO 32000-1): the three-pass escape against
    a one-pass one and against a reader, and the strings of a content stream. */
module PdfText {
  import opened Common
  import opened CertificatePdf
  import opened PdfReader

  // ----- the escape -----

  function EscapeChar(c: char): string {
    if c == '\\' || c == '(' || c == ')' then ['\\', c] else [c]
  }

  function EscapeOnePass(s: string): string {
    if s == [] then [] else EscapeChar(s[0]) + EscapeOnePass(s[1..])
  }

  lemma {:induction false} ReplaceDistributes(a: string, b: string, c: char, out: string)
    ensures Replace(a + b, c, out) == Replace(a, c, out) + Replace(b, c, out)
    decreases |a|
  {
    if a == [] {
      assert a + b == b;
    } else {
      ReplaceDistributes(a[1..], b, c, out);
      assert (a + b)[0] == a[0] && (a + b)[1..] == a[1..] + b;
      Regroup(if a[0] == c then out else [a[0]], Replace(a[1..], c, out), Replace(b, c, out));
    }
  }

  lemma ReplaceOne(x: char, c: char, out: string)
    ensures Replace([x], c, out) == if x == c then out else [x]
  {
    assert [x][1..] == [];
  }

  lemma ReplaceTwo(x: char, y: char, c: char, out: string)
    requires x != c
    ensures Replace([x, y], c, out) == [x] + (if y == c then out else [y])
  {
    assert [x, y] == [x] + [y];
    ReplaceDistributes([x], [y], c, out);
    ReplaceOne(x, c, out);
    ReplaceOne(y, c, out);
  }

  lemma EscapeOfOne(x: char)
    ensures EscapePdfText([x]) == EscapeChar(x)
  {
    ReplaceOne(x, '\\', "\\\\");
    if x == '\\' {
      ReplaceTwo('\\', '\\', '(', "\\(");
      ReplaceTwo('\\', '\\', ')', "\\)");
    } else {
      ReplaceOne(x, '(', "\\(");
      ReplaceOne(x, ')', "\\)");
      ReplaceTwo('\\', '(', ')', "\\)");
    }
  }

  /** Replacing backslashes first, then each parenthesis, is the one-pass escape. */
  lemma {:induction false} ThreePassesAreOne(s: string)
    ensures EscapePdfText(s) == EscapeOnePass(s)
  {
    if s != [] {
      var x, rest := [s[0]], s[1..];
      assert s == x + rest;
      ReplaceDistributes(x, rest, '\\', "\\\\");
      var x1, rest1 := Replace(x, '\\', "\\\\"), Replace(rest, '\\', "\\\\");
      ReplaceDistributes(x1, rest1, '(', "\\(");
      ReplaceDistributes(Replace(x1, '(', "\\("), Replace(rest1, '(', "\\("), ')', "\\)");
      EscapeOfOne(s[0]);
      ThreePassesAreOne(rest);
    }
  }

  // ----- the reader -----

  predicate IsOctal(c: char) {
    '0' <= c <= '7'
  }

  /** How many of the first three characters form an octal code. */
  function OctalLength(s: string): nat {
    if s == [] || !IsOctal(s[0]) then 0
    else if |s| < 2 || !IsOctal(s[1]) then 1
    else if |s| < 3 || !IsOctal(s[2]) then 2
    else 3
  }

  function OctalValue(s: string): nat
    requires forall i :: 0 <= i < |s| ==> IsOctal(s[i])
  {
    if s == [] then 0
    else
      assert IsOctal(s[|s| - 1]);
      8 * OctalValue(s[..|s| - 1]) + (s[|s| - 1] as int - '0' as int)
  }

  function LetterCode(c: char): char {
    match c
    case 'n' => '\n'
    case 'r' => '\r'
    case 't' => '\t'
    case 'b' => 8 as char
    case 'f' => 12 as char
    case _ => c
  }

  function Prepend(c: char, r: Option<(string, string)>): Option<(string, string)> {
    if r.None? then None else Some(([c] + r.value.0, r.value.1))
  }

  /** Reads a literal string whose opening parenthesis was just passed, at a nesting
      depth of inner parentheses; gives the text and what follows the closing one. */
  function ReadString(s: string, depth: nat): Option<(string, string)>
    decreases |s|
  {
    if s == [] then None
    else if s[0] == ')' then
      if depth == 0 then Some(([], s[1..])) else Prepend(')', ReadString(s[1..], depth - 1))
    else if s[0] == '(' then Prepend('(', ReadString(s[1..], depth + 1))
    else if s[0] == '\\' then
      if |s| == 1 then None
      else if IsOctal(s[1]) then
        var n := OctalLength(s[1..]);
        var code := OctalValue(s[1..1 + n]) % 256;
        Prepend(code as char, ReadString(s[1 + n..], depth))
      else if s[1] == '\r' && 2 < |s| && s[2] == '\n' then ReadString(s[3..], depth)
      else if s[1] == '\r' || s[1] == '\n' then ReadString(s[2..], depth)
      else Prepend(LetterCode(s[1]), ReadString(s[2..], depth))
    else if s[0] == '\r' then
      Prepend('\n', ReadString(if 1 < |s| && s[1] == '\n' then s[2..] else s[1..], depth))
    else Prepend(s[0], ReadString(s[1..], depth))
  }

  /** A line end inside a string, however written, reads as a line feed. */
  function NormalizeEnds(s: string): string
    decreases |s|
  {
    if s == [] then []
    else if s[0] == '\r' then ['\n'] + NormalizeEnds(if 1 < |s| && s[1] == '\n' then s[2..] else s[1..])
    else [s[0]] + NormalizeEnds(s[1..])
  }

  lemma {:induction false} NormalizeKeepsExactly(s: string)
    ensures NormalizeEnds(s) == s <==> '\r' !in s
    ensures |NormalizeEnds(s)| <= |s|
    decreases |s|
  {
    if s != [] {
      if s[0] == '\r' {
        var rest := if 1 < |s| && s[1] == '\n' then s[2..] else s[1..];
        NormalizeKeepsExactly(rest);
        assert NormalizeEnds(s)[0] != s[0];
      } else {
        NormalizeKeepsExactly(s[1..]);
        assert s == [s[0]] + s[1..];
        assert NormalizeEnds(s)[1..] == NormalizeEnds(s[1..]);
      }
    }
  }

  lemma ReadEscapedChar(c: char, t: string)
    requires c == '\\' || c == '(' || c == ')'
    ensures ReadString(EscapeChar(c) + t, 0) == Prepend(c, ReadString(t, 0))
  {
    var s := EscapeChar(c) + t;
    assert s[0] == '\\' && s[1] == c && s[2..] == t;
  }

  lemma ReadPlainChar(c: char, t: string)
    requires EscapeChar(c) == [c] && c != '\r'
    ensures ReadString([c] + t, 0) == Prepend(c, ReadString(t, 0))
  {
    assert ([c] + t)[1..] == t;
  }

  /** Reading the escaped text of s up to its closing parenthesis. */
  lemma {:induction false} EscapedReads(s: string, rest: string)
    ensures ReadString(EscapeOnePass(s) + (")" + rest), 0) == Some((NormalizeEnds(s), rest))
    decreases |s|
  {
    var close := ")" + rest;
    if s == [] {
      assert EscapeOnePass(s) + close == close;
      assert close[1..] == rest;
    } else if s[0] == '\r' {
      ReadCarriageReturn(s, rest);
      assert AfterReturn(s[1..]) == if 1 < |s| && s[1] == '\n' then s[2..] else s[1..];
      EscapedReads(AfterReturn(s[1..]), rest);
    } else {
      var t := EscapeOnePass(s[1..]) + close;
      EscapedReads(s[1..], rest);
      assert EscapeOnePass(s) + close == EscapeChar(s[0]) + t;
      if EscapeChar(s[0]) == [s[0]] {
        ReadPlainChar(s[0], t);
      } else {
        ReadEscapedChar(s[0], t);
      }
    }
  }

  /** What follows a carriage return, past a line feed belonging to it. */
  function AfterReturn(t: string): string {
    if t != [] && t[0] == '\n' then t[1..] else t
  }

  lemma ReadReturn(t: string)
    ensures ReadString(['\r'] + t, 0) == Prepend('\n', ReadString(AfterReturn(t), 0))
  {
    var s := ['\r'] + t;
    assert s[0] == '\r' && s[1..] == t;
    if t != [] {
      assert s[1] == t[0] && s[2..] == t[1..];
    }
  }

  lemma EscapeThenClose(s: string, close: string)
    requires close != [] && close[0] != '\n'
    ensures AfterReturn(EscapeOnePass(s) + close) == EscapeOnePass(AfterReturn(s)) + close
  {
    if s == [] {
      assert EscapeOnePass(s) + close == close;
    } else {
      Regroup(EscapeChar(s[0]), EscapeOnePass(s[1..]), close);
      var t := EscapeOnePass(s) + close;
      assert t[0] == EscapeChar(s[0])[0];
      if s[0] == '\n' {
        Skip(EscapeChar(s[0]), EscapeOnePass(s[1..]) + close);
      }
    }
  }

  lemma ReadCarriageReturn(s: string, rest: string)
    requires s != [] && s[0] == '\r'
    ensures ReadString(EscapeOnePass(s) + (")" + rest), 0)
         == Prepend('\n', ReadString(EscapeOnePass(AfterReturn(s[1..])) + (")" + rest), 0))
  {
    var close := ")" + rest;
    Regroup(EscapeChar(s[0]), EscapeOnePass(s[1..]), close);
    ReadReturn(EscapeOnePass(s[1..]) + close);
    EscapeThenClose(s[1..], close);
  }

  /** The reader ends at the matching parenthesis, and returns the original text if
      and only if it holds no carriage return. */
  lemma EscapeRoundTrip(s: string, rest: string)
    ensures var r := ReadString(EscapePdfText(s) + (")" + rest), 0);
      && r.Some? && r.value.1 == rest
      && (r.value.0 == s <==> '\r' !in s)
  {
    ThreePassesAreOne(s);
    EscapedReads(s, rest);
    NormalizeKeepsExactly(s);
  }

  // ----- the texts of a content stream -----

  lemma {:induction false} RestIsShorter(s: string, depth: nat)
    ensures var r := ReadString(s, depth); r.Some? ==> |r.value.1| < |s|
    decreases |s|
  {
    if s != [] {
      if s[0] == ')' {
        if depth != 0 { RestIsShorter(s[1..], depth - 1); }
      } else if s[0] == '(' {
        RestIsShorter(s[1..], depth + 1);
      } else if s[0] == '\\' {
        if 1 < |s| {
          if IsOctal(s[1]) {
            RestIsShorter(s[1 + OctalLength(s[1..])..], depth);
          } else if s[1] == '\r' && 2 < |s| && s[2] == '\n' {
            RestIsShorter(s[3..], depth);
          } else {
            RestIsShorter(s[2..], depth);
          }
        }
      } else if s[0] == '\r' {
        RestIsShorter(if 1 < |s| && s[1] == '\n' then s[2..] else s[1..], depth);
      } else {
        RestIsShorter(s[1..], depth);
      }
    }
  }

  /** All literal strings of a content stream, in order. */
  function Texts(s: string): Option<seq<string>>
    decreases |s|
  {
    if s == [] then Some([])
    else if s[0] == '(' then
      var first := ReadString(s[1..], 0);
      RestIsShorter(s[1..], 0);
      if first.None? then None
      else
        var others := Texts(first.value.1);
        if others.None? then None else Some([first.value.0] + others.value)
    else Texts(s[1..])
  }

  lemma {:induction false} TextsSkip(a: string, b: string)
    requires '(' !in a
    ensures Texts(a + b) == Texts(b)
    decreases |a|
  {
    if a == [] {
      assert a + b == b;
    } else {
      TextsSkip(a[1..], b);
      assert (a + b)[1..] == a[1..] + b;
      assert (a + b)[0] == a[0] && a[0] in a;
    }
  }

  lemma NumbersHaveNoParenthesis(n: nat)
    ensures '(' !in Decimal(n)
  {
    DecimalReads(n);
  }

  function NormalizedTexts(lines: seq<Line>): seq<string> {
    if lines == [] then [] else [NormalizeEnds(lines[0].text)] + NormalizedTexts(lines[1..])
  }

  /** One line shows exactly its own text. */
  lemma LineShowsText(l: Line, rest: string)
    requires Texts(rest).Some?
    ensures Texts(ShowLine(l) + rest) == Some([NormalizeEnds(l.text)] + Texts(rest).value)
  {
    var tail := ") Tj ET" + rest;
    var shown := EscapePdfText(l.text) + tail;
    var lead := "BT /F1 " + Decimal(l.size) + " Tf 1 0 0 1 " + Decimal(l.x) + " " + Decimal(l.y) + " Tm ";
    NumbersHaveNoParenthesis(l.size);
    NumbersHaveNoParenthesis(l.x);
    NumbersHaveNoParenthesis(l.y);
    LineRegroups(l, rest);
    TextsSkip(lead, "(" + shown);
    assert tail == ")" + (" Tj ET" + rest);
    ThreePassesAreOne(l.text);
    EscapedReads(l.text, " Tj ET" + rest);
    assert ("(" + shown)[1..] == shown;
    TextsSkip(" Tj ET", rest);
  }

  lemma LineRegroups(l: Line, rest: string)
    ensures ShowLine(l) + rest
         == ("BT /F1 " + Decimal(l.size) + " Tf 1 0 0 1 " + Decimal(l.x) + " " + Decimal(l.y) + " Tm ")
            + ("(" + (EscapePdfText(l.text) + (") Tj ET" + rest)))
  {
    var a, b, c, d := "BT /F1 ", " Tf 1 0 0 1 ", " ", " Tm ";
    var size, x, y := Decimal(l.size), Decimal(l.x), Decimal(l.y);
    var text, end := EscapePdfText(l.text), ") Tj ET";
    assert " Tm (" == d + "(";
    Regroup(text, end, rest);
    Regroup("(", text + end, rest);
    Regroup(d, "(", text + end);
    Regroup(d, "(" + (text + end), rest);
    RegroupSix(a, size, b, x, c, y, d + ("(" + (text + end)), rest);
    Regroup(a + size + b + x + c + y, d, "(" + (text + (end + rest)));
  }

  lemma RegroupSix(a: string, b: string, c: string, d: string, e: string, f: string, g: string, rest: string)
    ensures (a + (b + (c + (d + (e + (f + g)))))) + rest == (a + b + c + d + e + f) + (g + rest)
  {
    Regroup(a + b + c + d + e, f, g + rest);
    Regroup(a + b + c + d, e, f + (g + rest));
    Regroup(a + b + c, d, e + (f + (g + rest)));
    Regroup(a + b, c, d + (e + (f + (g + rest))));
    Regroup(a, b, c + (d + (e + (f + (g + rest)))));
    Regroup(f, g, rest);
    Regroup(e, f + g, rest);
    Regroup(d, e + (f + g), rest);
    Regroup(c, d + (e + (f + g)), rest);
    Regroup(b, c + (d + (e + (f + g))), rest);
    Regroup(a, b + (c + (d + (e + (f + g)))), rest);
  }

  lemma {:induction false} LinesShowTexts(lines: seq<Line>)
    ensures Texts(ShowLines(lines)) == Some(NormalizedTexts(lines))
    decreases |lines|
  {
    if lines == [] {
      TextsSkip("ET", []);
      assert "ET" + [] == "ET";
    } else {
      LinesShowTexts(lines[1..]);
      TextsSkip("\n", ShowLines(lines[1..]));
      LineShowsText(lines[0], "\n" + ShowLines(lines[1..]));
    }
  }

  lemma StreamShowsTexts(lines: seq<Line>)
    ensures Texts(ContentStream(lines)) == Some(NormalizedTexts(lines))
  {
    LinesShowTexts(lines);
    TextsSkip("BT\n/F1 18 Tf\n", ShowLines(lines));
  }
}

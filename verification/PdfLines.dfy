/** The lines of a page as a reader sees them, with sizes and positions, and the
    certificate read back end to end. */
module PdfLines {
  import opened Common
  import opened CertificatePdf
  import opened PdfReader
  import opened PdfText
  import opened PdfPage

  // ----- reading lines -----

  /** A number and, after it, a fixed text. */
  function NumberThen(s: string, text: string): Option<(nat, string)> {
    var number := TakeNumber(s);
    if number.None? then None
    else
      var rest := Expect(number.value.1, text);
      if rest.None? then None else Some((number.value.0, rest.value))
  }

  /** One line of the page: the font size, the text matrix of its position and the
      string shown, each set and used by its operator. */
  function ReadLine(s: string): Option<(Line, string)> {
    var begin := Expect(s, "BT /F1 ");
    if begin.None? then None
    else
      var size := NumberThen(begin.value, " Tf 1 0 0 1 ");
      if size.None? then None
      else
        var x := NumberThen(size.value.1, " ");
        if x.None? then None
        else
          var y := NumberThen(x.value.1, " Tm (");
          if y.None? then None
          else
            var text := ReadString(y.value.1, 0);
            if text.None? then None
            else
              var rest := Expect(text.value.1, " Tj ET\n");
              if rest.None? then None
              else Some((Line(size.value.0, x.value.0, y.value.0, text.value.0), rest.value))
  }

  function ReadLines(s: string): Option<seq<Line>>
    decreases |s|
  {
    if s == "ET" then Some([])
    else
      var first := ReadLine(s);
      if first.None? || |s| <= |first.value.1| then None
      else
        var others := ReadLines(first.value.1);
        if others.None? then None else Some([first.value.0] + others.value)
  }

  /** The lines of a content stream. */
  function ReadPageLines(content: string): Option<seq<Line>> {
    var lines := Expect(content, "BT\n/F1 18 Tf\n");
    if lines.None? then None else ReadLines(lines.value)
  }

  lemma NumberThenFinds(n: nat, text: string, rest: string)
    requires text != [] && !IsDigit(text[0])
    ensures NumberThen(Decimal(n) + (text + rest), text) == Some((n, rest))
  {
    NumberFinds(n, text + rest);
    ExpectFinds(text, rest);
  }

  /** A line as read: its text with line ends normalized. */
  function AsRead(l: Line): Line {
    l.(text := NormalizeEnds(l.text))
  }

  lemma LineParts(a: string, size: string, b: string, x: string, c: string, y: string, d: string, text: string,
                  e: string, rest: string)
    ensures (a + (size + (b + (x + (c + (y + (d + (text + e)))))))) + rest
         == a + (size + (b + (x + (c + (y + (d + (text + (e + rest))))))))
  {
    Regroup(text, e, rest);
    Regroup(d, text + e, rest);
    Regroup(y, d + (text + e), rest);
    Regroup(c, y + (d + (text + e)), rest);
    Regroup(x, c + (y + (d + (text + e))), rest);
    Regroup(b, x + (c + (y + (d + (text + e)))), rest);
    Regroup(size, b + (x + (c + (y + (d + (text + e))))), rest);
    Regroup(a, size + (b + (x + (c + (y + (d + (text + e)))))), rest);
  }

  lemma TextThenEnd(text: string, rest: string)
    ensures ReadString(EscapePdfText(text) + (") Tj ET" + ("\n" + rest)), 0)
         == Some((NormalizeEnds(text), " Tj ET\n" + rest))
  {
    ThreePassesAreOne(text);
    EscapedReads(text, " Tj ET\n" + rest);
    assert ") Tj ET" + ("\n" + rest) == ")" + (" Tj ET\n" + rest);
  }

  /** A written line reads back, size and position included. */
  lemma LineReads(l: Line, rest: string)
    ensures ReadLine(ShowLine(l) + ("\n" + rest)) == Some((AsRead(l), rest))
  {
    var shown := EscapePdfText(l.text) + (") Tj ET" + ("\n" + rest));
    var size, x, y := Decimal(l.size), Decimal(l.x), Decimal(l.y);
    LineParts("BT /F1 ", size, " Tf 1 0 0 1 ", x, " ", y, " Tm (", EscapePdfText(l.text), ") Tj ET", "\n" + rest);
    ExpectFinds("BT /F1 ", size + (" Tf 1 0 0 1 " + (x + (" " + (y + (" Tm (" + shown))))));
    NumberThenFinds(l.size, " Tf 1 0 0 1 ", x + (" " + (y + (" Tm (" + shown))));
    NumberThenFinds(l.x, " ", y + (" Tm (" + shown));
    NumberThenFinds(l.y, " Tm (", shown);
    TextThenEnd(l.text, rest);
    ExpectFinds(" Tj ET\n", rest);
  }

  function AllAsRead(lines: seq<Line>): seq<Line> {
    if lines == [] then [] else [AsRead(lines[0])] + AllAsRead(lines[1..])
  }

  lemma {:induction false} LinesRead(lines: seq<Line>)
    ensures ReadLines(ShowLines(lines)) == Some(AllAsRead(lines))
    decreases |lines|
  {
    if lines != [] {
      var rest := ShowLines(lines[1..]);
      LinesRead(lines[1..]);
      LineReads(lines[0], rest);
      WhatFollowsIsShorter(ShowLine(lines[0]), rest);
    }
  }

  lemma WhatFollowsIsShorter(line: string, rest: string)
    ensures |rest| < |line + ("\n" + rest)|
  {
  }

  /** Every content stream reads back as its lines, with sizes and positions. */
  lemma PageLinesRead(lines: seq<Line>)
    ensures ReadPageLines(ContentStream(lines)) == Some(AllAsRead(lines))
  {
    ExpectFinds("BT\n/F1 18 Tf\n", ShowLines(lines));
    LinesRead(lines);
  }

  lemma {:induction false} AllAsReadExactly(lines: seq<Line>)
    ensures |AllAsRead(lines)| == |lines|
    ensures AllAsRead(lines) == lines <==> forall l :: l in lines ==> '\r' !in l.text
    decreases |lines|
  {
    if lines != [] {
      var rest := lines[1..];
      AllAsReadExactly(rest);
      NormalizeKeepsExactly(lines[0].text);
      assert lines == [lines[0]] + rest;
      assert AllAsRead(lines)[0] == AsRead(lines[0]) && AllAsRead(lines)[1..] == AllAsRead(rest);
      assert AsRead(lines[0]) == lines[0] <==> NormalizeEnds(lines[0].text) == lines[0].text;
    }
  }

  // ----- the certificate, end to end -----

  /** What the certificate says, in the order and places it says it. */
  ghost predicate Says(lines: seq<Line>, c: Credential, recipient: string, title: string, reference: string) {
    && |lines| == 10
    && lines[0] == Line(26, 140, 730, "Certificate of Completion")
    && lines[1] == Line(14, 72, 670, "This certifies that")
    && lines[2] == Line(22, 72, 635, recipient)
    && lines[3] == Line(14, 72, 595, "has successfully completed the course")
    && lines[4] == Line(20, 72, 560, title)
    && lines[5] == Line(12, 72, 500, "Issued: " + c.issuedOn)
    && lines[6] == Line(12, 72, 478, "Credential ID: " + c.id)
    && lines[7] == Line(12, 72, 456, "Verification Ref: " + reference)
    && lines[8] == Line(12, 72, 415, "Scan target / verify payload:")
    && lines[9] == Line(10, 72, 392, "scoopdope://credentials/" + c.id + "/verify")
  }

  /** The first of the values that is present and not empty, or the fallback. */
  ghost predicate FirstGiven(value: string, choices: seq<Option<string>>, fallback: string) {
    if choices == [] then value == fallback
    else if choices[0] == None || choices[0] == Some("") then FirstGiven(value, choices[1..], fallback)
    else value == choices[0].value
  }

  lemma OrElseIsFirst(a: Option<string>, b: Option<string>, fallback: string)
    ensures FirstGiven(OrElse(a, fallback), [a], fallback)
    ensures FirstGiven(OrElse(a, OrElse(b, fallback)), [a, b], fallback)
  {
    assert [a, b][1..] == [b] && [a][1..] == [];
  }

  ghost predicate NoReturns(c: Credential, recipient: string, title: string, reference: string) {
    && '\r' !in recipient && '\r' !in title && '\r' !in reference
    && '\r' !in c.issuedOn && '\r' !in c.id
  }

  lemma ReturnsInTexts(lines: seq<Line>, c: Credential, recipient: string, title: string, reference: string)
    requires Says(lines, c, recipient, title, reference)
    ensures (forall l :: l in lines ==> '\r' !in l.text) <==> NoReturns(c, recipient, title, reference)
  {
    assert lines[2] in lines && lines[4] in lines && lines[5] in lines && lines[6] in lines && lines[7] in lines;
    FixedTexts();
    FixedLabels();
    FixedPayload();
    forall l | l in lines
      ensures NoReturns(c, recipient, title, reference) ==> '\r' !in l.text
    {
      var i :| 0 <= i < 10 && lines[i] == l;
    }
  }

  lemma FixedTexts()
    ensures '\r' !in "Certificate of Completion" && '\r' !in "This certifies that"
    ensures '\r' !in "has successfully completed the course"
  {
  }

  lemma FixedLabels()
    ensures '\r' !in "Issued: " && '\r' !in "Credential ID: " && '\r' !in "Verification Ref: "
  {
  }

  lemma FixedPayload()
    ensures '\r' !in "scoopdope://credentials/" && '\r' !in "/verify" && '\r' !in "Scan target / verify payload:"
  {
  }

  lemma SaysAsReadExactly(lines: seq<Line>, c: Credential, recipient: string, title: string, reference: string)
    requires Says(lines, c, recipient, title, reference)
    ensures Says(AllAsRead(lines), c, recipient, title, reference) <==> NoReturns(c, recipient, title, reference)
  {
    AllAsReadExactly(lines);
    SaysOnlyThat(lines, AllAsRead(lines), c, recipient, title, reference);
    ReturnsInTexts(lines, c, recipient, title, reference);
  }

  lemma CertificateReads(c: Credential)
    ensures var content := ReadFirstPage(CertificateFile(c));
      content.Some? && ReadPageLines(content.value) == Some(AllAsRead(CertificateLines(c)))
  {
    PageRoundTrip(ContentStream(CertificateLines(c)));
    PageLinesRead(CertificateLines(c));
  }

  lemma LinesSay(c: Credential, recipient: string, title: string, reference: string)
    requires FirstGiven(recipient, [c.username, c.email], c.userId)
    requires FirstGiven(title, [c.courseTitle], c.courseId) && FirstGiven(reference, [c.txHash], c.id)
    ensures Says(CertificateLines(c), c, recipient, title, reference)
  {
    OrElseIsFirst(c.username, c.email, c.userId);
    OrElseIsFirst(c.courseTitle, None, c.courseId);
    OrElseIsFirst(c.txHash, None, c.id);
    FirstIsUnique(recipient, OrElse(c.username, OrElse(c.email, c.userId)), [c.username, c.email], c.userId);
    FirstIsUnique(title, OrElse(c.courseTitle, c.courseId), [c.courseTitle], c.courseId);
    FirstIsUnique(reference, OrElse(c.txHash, c.id), [c.txHash], c.id);
  }

  /** End to end: a reader that opens the file of a certificate at its end, finds the
      page and reads its content, gets the ten lines the certificate should say, each
      in its size and place, if and only if no printed field holds a carriage return. */
  lemma CertificateReadsBack(c: Credential, recipient: string, title: string, reference: string)
    requires FirstGiven(recipient, [c.username, c.email], c.userId)
    requires FirstGiven(title, [c.courseTitle], c.courseId) && FirstGiven(reference, [c.txHash], c.id)
    ensures var content := ReadFirstPage(CertificateFile(c));
      && content.Some? && ReadPageLines(content.value).Some?
      && (Says(ReadPageLines(content.value).value, c, recipient, title, reference)
          <==> NoReturns(c, recipient, title, reference))
  {
    CertificateReads(c);
    LinesSay(c, recipient, title, reference);
    SaysAsReadExactly(CertificateLines(c), c, recipient, title, reference);
  }

  lemma {:induction false} FirstIsUnique(v: string, w: string, choices: seq<Option<string>>, fallback: string)
    requires FirstGiven(v, choices, fallback) && FirstGiven(w, choices, fallback)
    ensures v == w
  {
    if choices != [] && (choices[0] == None || choices[0] == Some("")) {
      FirstIsUnique(v, w, choices[1..], fallback);
    }
  }

  lemma SaysOnlyThat(lines: seq<Line>, others: seq<Line>, c: Credential, recipient: string, title: string,
                     reference: string)
    requires Says(lines, c, recipient, title, reference) && |others| == |lines|
    ensures Says(others, c, recipient, title, reference) <==> others == lines
  {
    if Says(others, c, recipient, title, reference) {
      forall i | 0 <= i < 10
        ensures others[i] == lines[i]
      {
      }
    }
  }
}

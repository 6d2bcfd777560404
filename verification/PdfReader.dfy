/** A reader of PDF files and of literal strings after ISO 32000-1, and the proofs
    that it recovers what the certificate writer was given. */
module PdfReader {
  import opened Common
  import opened CertificatePdf

  // ----- reading numbers and fixed text -----

  predicate IsDigit(c: char) {
    '0' <= c <= '9'
  }

  predicate AllDigits(s: string) {
    forall i :: 0 <= i < |s| ==> IsDigit(s[i])
  }

  /** The number a string of digits denotes. */
  function Value(s: string): nat
    requires AllDigits(s)
  {
    if s == [] then 0 else 10 * Value(s[..|s| - 1]) + (s[|s| - 1] as int - '0' as int)
  }

  lemma {:induction false} DecimalReads(n: nat)
    ensures Decimal(n) != [] && AllDigits(Decimal(n)) && Value(Decimal(n)) == n
  {
    if 10 <= n {
      DecimalReads(n / 10);
      assert Decimal(n)[..|Decimal(n)| - 1] == Decimal(n / 10);
    } else {
      assert Decimal(n)[..0] == [];
    }
  }

  function Power10(k: nat): (p: nat)
    ensures 0 < p
  {
    if k == 0 then 1 else 10 * Power10(k - 1)
  }

  lemma {:induction false} DecimalLength(n: nat, k: nat)
    requires 1 <= k && n < Power10(k)
    ensures |Decimal(n)| <= k
    decreases k
  {
    if 10 <= n {
      DecimalLength(n / 10, k - 1);
    }
  }

  lemma {:induction false} DecimalIsLong(n: nat, k: nat)
    requires Power10(k) <= n
    ensures k < |Decimal(n)|
    decreases k
  {
    if k != 0 {
      DecimalIsLong(n / 10, k - 1);
    }
  }

  lemma {:induction false} PaddingReads(zeros: nat, s: string)
    requires AllDigits(s)
    ensures var p := Repeat('0', zeros) + s;
      |p| == zeros + |s| && AllDigits(p) && Value(p) == Value(s)
    decreases zeros + |s|
  {
    var p := Repeat('0', zeros) + s;
    RepeatIs('0', zeros);
    if s != [] {
      PaddingReads(zeros, s[..|s| - 1]);
      assert p[..|p| - 1] == Repeat('0', zeros) + s[..|s| - 1];
    } else if zeros != 0 {
      PaddingReads(zeros - 1, []);
      RepeatIs('0', zeros - 1);
      assert p[..|p| - 1] == Repeat('0', zeros - 1) + [];
    }
  }

  lemma {:induction false} RepeatIs(c: char, n: nat)
    ensures |Repeat(c, n)| == n && forall i :: 0 <= i < n ==> Repeat(c, n)[i] == c
    decreases n
  {
    if n != 0 {
      RepeatIs(c, n - 1);
    }
  }

  /** The rest of s after a fixed text. */
  function Expect(s: string, text: string): Option<string> {
    if text <= s then Some(s[|text|..]) else None
  }

  function DigitsAtFront(s: string): nat {
    if s != [] && IsDigit(s[0]) then 1 + DigitsAtFront(s[1..]) else 0
  }

  function DigitsAtEnd(s: string): nat {
    if s != [] && IsDigit(s[|s| - 1]) then 1 + DigitsAtEnd(s[..|s| - 1]) else 0
  }

  lemma {:induction false} FrontIsDigits(s: string)
    ensures DigitsAtFront(s) <= |s| && AllDigits(s[..DigitsAtFront(s)])
  {
    if s != [] && IsDigit(s[0]) {
      FrontIsDigits(s[1..]);
      assert s[..DigitsAtFront(s)] == [s[0]] + s[1..][..DigitsAtFront(s[1..])];
    }
  }

  lemma {:induction false} EndIsDigits(s: string)
    ensures DigitsAtEnd(s) <= |s| && AllDigits(s[|s| - DigitsAtEnd(s)..])
  {
    if s != [] && IsDigit(s[|s| - 1]) {
      var front := s[..|s| - 1];
      EndIsDigits(front);
      assert s[|s| - DigitsAtEnd(s)..] == front[|front| - DigitsAtEnd(front)..] + [s[|s| - 1]];
    }
  }

  /** The number at the front of s, and what follows it. */
  function TakeNumber(s: string): Option<(nat, string)> {
    var n := DigitsAtFront(s);
    FrontIsDigits(s);
    if n == 0 then None else Some((Value(s[..n]), s[n..]))
  }

  lemma ExpectFinds(text: string, rest: string)
    ensures Expect(text + rest, text) == Some(rest)
  {
    assert (text + rest)[|text|..] == rest;
  }

  lemma {:induction false} DigitsThenOther(d: string, rest: string)
    requires AllDigits(d) && rest != [] && !IsDigit(rest[0])
    ensures DigitsAtFront(d + rest) == |d|
    decreases |d|
  {
    if d == [] {
      assert d + rest == rest;
    } else {
      DigitsThenOther(d[1..], rest);
      assert (d + rest)[1..] == d[1..] + rest;
    }
  }

  lemma {:induction false} OtherThenDigits(before: string, d: string)
    requires AllDigits(d) && before != [] && !IsDigit(before[|before| - 1])
    ensures DigitsAtEnd(before + d) == |d|
    decreases |d|
  {
    if d == [] {
      assert before + d == before;
    } else {
      OtherThenDigits(before, d[..|d| - 1]);
      assert (before + d)[..|before + d| - 1] == before + d[..|d| - 1];
    }
  }

  lemma NumberFinds(n: nat, rest: string)
    requires rest != [] && !IsDigit(rest[0])
    ensures TakeNumber(Decimal(n) + rest) == Some((n, rest))
  {
    DecimalReads(n);
    DigitsThenOther(Decimal(n), rest);
    var s := Decimal(n) + rest;
    assert s[..|Decimal(n)|] == Decimal(n) && s[|Decimal(n)|..] == rest;
  }

  // ----- the file structure (sections 7.5.4 and 7.5.5) -----

  /** The byte offset on the line after the last startxref, before the %%EOF line
      that ends the file. */
  function ReadStartxref(file: string): Option<nat> {
    var eof := "\n%%EOF";
    if |file| < |eof| || file[|file| - |eof|..] != eof then None
    else
      var s := file[..|file| - |eof|];
      var n := DigitsAtEnd(s);
      EndIsDigits(s);
      var before := s[..|s| - n];
      var keyword := "startxref\n";
      if n == 0 || |before| < |keyword| || before[|before| - |keyword|..] != keyword then None
      else Some(Value(s[|s| - n..]))
  }

  datatype XrefEntry = XrefEntry(offset: nat, generation: nat, inUse: bool)

  /** An entry is exactly 20 bytes: ten digits, a space, five digits, a space, a
      keyword letter and a two-byte end of line. */
  function ReadEntry(s: string): Option<XrefEntry>
    requires |s| == 20
  {
    if AllDigits(s[..10]) && s[10] == ' ' && AllDigits(s[11..16]) && s[16] == ' '
       && (s[17] == 'n' || s[17] == 'f') && s[18] == ' ' && s[19] == '\n'
    then Some(XrefEntry(Value(s[..10]), Value(s[11..16]), s[17] == 'n'))
    else None
  }

  function ReadEntries(s: string, n: nat): Option<seq<XrefEntry>> {
    if n == 0 then Some([])
    else if |s| < 20 then None
    else
      var first, others := ReadEntry(s[..20]), ReadEntries(s[20..], n - 1);
      if first.Some? && others.Some? then Some([first.value] + others.value) else None
  }

  /** The table of a single section that starts at object 0. */
  function ReadXref(s: string): Option<seq<XrefEntry>> {
    var body := Expect(s, "xref\n0 ");
    if body.None? then None
    else
      var size := TakeNumber(body.value);
      if size.None? then None
      else
        var entries := Expect(size.value.1, "\n");
        if entries.None? then None else ReadEntries(entries.value, size.value.0)
  }

  /** The table startxref points at. */
  function ReadTable(file: string): Option<seq<XrefEntry>> {
    var start := ReadStartxref(file);
    if start.None? || |file| < start.value then None else ReadXref(file[start.value..])
  }

  /** The bytes of the file from object k on, found through the table. */
  function Seek(file: string, k: nat): Option<string> {
    var table := ReadTable(file);
    if table.None? || |table.value| <= k || !table.value[k].inUse || |file| < table.value[k].offset then None
    else Some(file[table.value[k].offset..])
  }

  /** The content of the stream object k, whose bytes start here: as many bytes after
      the stream keyword as /Length says (section 7.3.8). */
  function StreamContent(s: string, k: nat): Option<string> {
    var dictionary := Expect(s, Decimal(k) + " 0 obj\n<< /Length ");
    if dictionary.None? then None
    else
      var length := TakeNumber(dictionary.value);
      if length.None? then None
      else
        var data := Expect(length.value.1, " >>\nstream\n");
        if data.None? || |data.value| < length.value.0 then None
        else if Expect(data.value[length.value.0..], "\nendstream\nendobj").None? then None
        else Some(data.value[..length.value.0])
  }

  function ReadStream(file: string, k: nat): Option<string> {
    var found := Seek(file, k);
    if found.None? then None else StreamContent(found.value, k)
  }

  // ----- the file, read from any of its parts -----

  /** The entries of objects k and up, then the trailer. */
  function TableFrom(objects: seq<string>, k: nat): string
    requires 1 <= k <= |objects| + 1
    decreases |objects| + 1 - k
  {
    if k == |objects| + 1 then Trailer(|objects| + 1, |Body(objects, |objects|)|)
    else Entry(Offset(objects, k)) + TableFrom(objects, k + 1)
  }

  function XrefSection(objects: seq<string>): string {
    "xref\n0 " + (Decimal(|objects| + 1) + ("\n" + (FREE_ENTRY + TableFrom(objects, 1))))
  }

  /** Object k and everything after it. */
  function From(objects: seq<string>, k: nat): string
    requires 1 <= k <= |objects| + 1
    decreases |objects| + 1 - k
  {
    if k == |objects| + 1 then XrefSection(objects) else objects[k - 1] + ("\n" + From(objects, k + 1))
  }

  lemma Regroup(a: string, b: string, c: string)
    ensures (a + b) + c == a + (b + c)
  {
  }

  lemma {:induction false} TableSplits(objects: seq<string>, k: nat)
    requires 1 <= k <= |objects| + 1
    ensures TableUpTo(objects, k - 1) + TableFrom(objects, k) == File(objects)
    decreases |objects| + 1 - k
  {
    if k <= |objects| {
      TableSplits(objects, k + 1);
      Regroup(TableUpTo(objects, k - 1), Entry(Offset(objects, k)), TableFrom(objects, k + 1));
    }
  }

  lemma XrefStartsAfterBody(objects: seq<string>)
    ensures Body(objects, |objects|) + XrefSection(objects) == File(objects)
  {
    var body, size, rest := Body(objects, |objects|), Decimal(|objects| + 1), TableFrom(objects, 1);
    TableSplits(objects, 1);
    RegroupTable(body, "xref\n0 ", size, "\n", FREE_ENTRY, rest);
  }

  lemma RegroupTable(a: string, b: string, c: string, d: string, e: string, f: string)
    ensures (a + b + c + d + e) + f == a + (b + (c + (d + (e + f))))
  {
    Regroup(a + b + c + d, e, f);
    Regroup(a + b + c, d, e + f);
    Regroup(a + b, c, d + (e + f));
    Regroup(a, b, c + (d + (e + f)));
  }

  /** Object k starts exactly at its recorded offset. */
  lemma {:induction false} ObjectStartsAtOffset(objects: seq<string>, k: nat)
    requires 1 <= k <= |objects| + 1
    ensures Body(objects, k - 1) + From(objects, k) == File(objects)
    decreases |objects| + 1 - k
  {
    if k == |objects| + 1 {
      XrefStartsAfterBody(objects);
    } else {
      ObjectStartsAtOffset(objects, k + 1);
      Regroup(Body(objects, k - 1), objects[k - 1] + "\n", From(objects, k + 1));
      Regroup(objects[k - 1], "\n", From(objects, k + 1));
    }
  }

  lemma Skip(a: string, b: string)
    ensures (a + b)[|a|..] == b
  {
  }

  // ----- what the reader finds -----

  /** Offsets below ten billion fit the ten digits of an entry. */
  ghost predicate OffsetsFit(objects: seq<string>) {
    forall k :: 1 <= k <= |objects| ==> Offset(objects, k) < Power10(10)
  }

  lemma PaddedReads(offset: nat)
    requires offset < Power10(10)
    ensures var p := PadStart(Decimal(offset), 10, '0'); |p| == 10 && AllDigits(p) && Value(p) == offset
  {
    DecimalReads(offset);
    DecimalLength(offset, 10);
    PaddingReads(10 - |Decimal(offset)|, Decimal(offset));
    assert Repeat('0', 0) + Decimal(offset) == Decimal(offset);
  }

  lemma EntryTail()
    ensures " 00000 n \n" == " " + "00000" + " " + ['n'] + " \n"
    ensures FREE_ENTRY == "0000000000" + (" " + "65535" + " " + ['f'] + " \n")
  {
  }

  /** An entry is 20 bytes and reads back as its offset when that fits ten digits. */
  lemma EntryReads(offset: nat)
    requires offset < Power10(10)
    ensures |Entry(offset)| == 20 && ReadEntry(Entry(offset)) == Some(XrefEntry(offset, 0, true))
  {
    PaddedReads(offset);
    ZerosRead();
    EntryTail();
    EntryParts(PadStart(Decimal(offset), 10, '0'), "00000", 'n');
  }

  lemma EntryParts(p: string, g: string, keyword: char)
    requires |p| == 10 && AllDigits(p) && |g| == 5 && AllDigits(g) && (keyword == 'n' || keyword == 'f')
    ensures var e := p + (" " + g + " " + [keyword] + " \n");
      |e| == 20 && ReadEntry(e) == Some(XrefEntry(Value(p), Value(g), keyword == 'n'))
  {
    var e := p + (" " + g + " " + [keyword] + " \n");
    assert e[..10] == p && e[11..16] == g;
  }

  lemma ZerosRead()
    ensures AllDigits("00000") && Value("00000") == 0
  {
    PaddingReads(5, []);
    assert Repeat('0', 5) + [] == "00000";
  }

  lemma LastGenerationReads()
    ensures AllDigits("65535") && Value("65535") == 65535
  {
    DecimalReads(65535);
    assert Decimal(6) == "6" && Decimal(65) == "65" && Decimal(655) == "655" && Decimal(6553) == "6553";
    assert Decimal(65535) == "65535";
  }

  lemma FreeEntryReads()
    ensures |FREE_ENTRY| == 20 && ReadEntry(FREE_ENTRY) == Some(XrefEntry(0, 65535, false))
  {
    var zeros := "0000000000";
    PaddingReads(10, []);
    assert Repeat('0', 10) + [] == zeros;
    LastGenerationReads();
    EntryTail();
    EntryParts(zeros, "65535", 'f');
  }

  /** Entries keep their fixed size exactly up to ten digits. */
  lemma EntryIsTwentyBytesExactly(offset: nat)
    ensures |Entry(offset)| == 20 <==> offset < Power10(10)
  {
    if offset < Power10(10) {
      EntryReads(offset);
    } else {
      DecimalIsLong(offset, 10);
    }
  }

  /** The table entries of objects k and up, as the reader sees them. */
  function EntriesFrom(objects: seq<string>, k: nat): seq<XrefEntry>
    requires 1 <= k <= |objects| + 1
    decreases |objects| + 1 - k
  {
    if k == |objects| + 1 then [] else [XrefEntry(Offset(objects, k), 0, true)] + EntriesFrom(objects, k + 1)
  }

  lemma {:induction false} EntriesRead(objects: seq<string>, k: nat)
    requires OffsetsFit(objects) && 1 <= k <= |objects| + 1
    ensures ReadEntries(TableFrom(objects, k), |objects| + 1 - k) == Some(EntriesFrom(objects, k))
    decreases |objects| + 1 - k
  {
    if k <= |objects| {
      EntryReads(Offset(objects, k));
      EntriesRead(objects, k + 1);
      FirstEntry(Entry(Offset(objects, k)), TableFrom(objects, k + 1), |objects| + 1 - k);
    }
  }

  lemma FirstEntry(e: string, rest: string, n: nat)
    requires |e| == 20 && 0 < n && ReadEntry(e).Some? && ReadEntries(rest, n - 1).Some?
    ensures ReadEntries(e + rest, n) == Some([ReadEntry(e).value] + ReadEntries(rest, n - 1).value)
  {
    assert (e + rest)[..20] == e && (e + rest)[20..] == rest;
  }

  lemma XrefReads(objects: seq<string>)
    requires OffsetsFit(objects)
    ensures ReadXref(XrefSection(objects)) == Some([XrefEntry(0, 65535, false)] + EntriesFrom(objects, 1))
  {
    var table := FREE_ENTRY + TableFrom(objects, 1);
    ExpectFinds("xref\n0 ", Decimal(|objects| + 1) + ("\n" + table));
    NumberFinds(|objects| + 1, "\n" + table);
    ExpectFinds("\n", table);
    FreeEntryReads();
    EntriesRead(objects, 1);
    FirstEntry(FREE_ENTRY, TableFrom(objects, 1), |objects| + 1);
  }

  lemma {:induction false} EntryAt(objects: seq<string>, k: nat, m: nat)
    requires 1 <= k <= m <= |objects|
    ensures |EntriesFrom(objects, k)| == |objects| + 1 - k
    ensures EntriesFrom(objects, k)[m - k] == XrefEntry(Offset(objects, m), 0, true)
    decreases |objects| + 1 - k
  {
    if k < m {
      EntryAt(objects, k + 1, m);
    } else if k < |objects| {
      EntryAt(objects, k + 1, k + 1);
    }
  }

  /** startxref holds the position of the table. */
  lemma StartxrefReads(objects: seq<string>)
    ensures ReadStartxref(File(objects)) == Some(|Body(objects, |objects|)|)
  {
    var x := |Body(objects, |objects|)|;
    var lead := TableUpTo(objects, |objects|);
    var size := Decimal(|objects| + 1);
    var before := lead + "trailer\n<< /Size " + size + " /Root 1 0 R >>\n" + "startxref\n";
    TrailerSplits(lead, size, Decimal(x));
    assert " /Root 1 0 R >>\n" + "startxref\n" == " /Root 1 0 R >>\nstartxref\n";
    assert File(objects) == (before + Decimal(x)) + "\n%%EOF";
    StartxrefFinds(lead + "trailer\n<< /Size " + size + " /Root 1 0 R >>\n", x, File(objects));
  }

  lemma TrailerSplits(lead: string, size: string, x: string)
    ensures lead + ("trailer\n<< /Size " + (size + (" /Root 1 0 R >>\nstartxref\n" + (x + "\n%%EOF"))))
         == ((lead + "trailer\n<< /Size " + size + " /Root 1 0 R >>\n" + "startxref\n") + x) + "\n%%EOF"
  {
    var a, b, c, d := "trailer\n<< /Size ", " /Root 1 0 R >>\n", "startxref\n", "\n%%EOF";
    assert " /Root 1 0 R >>\nstartxref\n" == b + c;
    Regroup(lead + a + size + b + c, x, d);
    Regroup(lead + a + size + b, c, x + d);
    Regroup(lead + a + size, b, c + (x + d));
    Regroup(b, c, x + d);
    Regroup(lead + a, size, (b + c) + (x + d));
    Regroup(lead, a, size + ((b + c) + (x + d)));
  }

  lemma StartxrefFinds(lead: string, x: nat, file: string)
    requires file == ((lead + "startxref\n") + Decimal(x)) + "\n%%EOF"
    ensures ReadStartxref(file) == Some(x)
  {
    var before := lead + "startxref\n";
    var s := before + Decimal(x);
    DecimalReads(x);
    OtherThenDigits(before, Decimal(x));
    assert file[|file| - 6..] == "\n%%EOF" && file[..|file| - 6] == s;
    assert s[|s| - |Decimal(x)|..] == Decimal(x) && s[..|s| - |Decimal(x)|] == before;
    assert before[|before| - 10..] == "startxref\n";
  }

  lemma TableReads(objects: seq<string>)
    requires OffsetsFit(objects)
    ensures ReadTable(File(objects)) == Some([XrefEntry(0, 65535, false)] + EntriesFrom(objects, 1))
  {
    StartxrefReads(objects);
    XrefStartsAfterBody(objects);
    Skip(Body(objects, |objects|), XrefSection(objects));
    XrefReads(objects);
  }

  /** Following startxref and entry k leads to the first byte of object k. */
  lemma SeekFindsObject(objects: seq<string>, k: nat)
    requires OffsetsFit(objects) && 1 <= k <= |objects|
    ensures Seek(File(objects), k) == Some(objects[k - 1] + ("\n" + From(objects, k + 1)))
  {
    TableReads(objects);
    EntryAt(objects, 1, k);
    ObjectStartsAtOffset(objects, k);
    var entries := EntriesFrom(objects, 1);
    SeekFollows(File(objects), XrefEntry(0, 65535, false), entries, k, Body(objects, k - 1), From(objects, k));
  }

  lemma SeekFollows(file: string, first: XrefEntry, entries: seq<XrefEntry>, k: nat, before: string, after: string)
    requires ReadTable(file) == Some([first] + entries) && 1 <= k <= |entries|
    requires entries[k - 1] == XrefEntry(|before|, 0, true) && file == before + after
    ensures Seek(file, k) == Some(after)
  {
    assert ([first] + entries)[k] == entries[k - 1];
    Skip(before, after);
  }

  /** The five objects all start before the content does, so their offsets fit
      however long the content is. */
  lemma CertificateOffsetsFit(content: string)
    ensures OffsetsFit(Objects(content))
  {
    var objects := Objects(content);
    assert Body(objects, 0) == HEADER;
    assert Body(objects, 1) == Body(objects, 0) + (CATALOG + "\n");
    assert Body(objects, 2) == Body(objects, 1) + (PAGES + "\n");
    assert Body(objects, 3) == Body(objects, 2) + (PAGE + "\n");
    assert Body(objects, 4) == Body(objects, 3) + (FONT + "\n");
    assert |HEADER| < 100 && |CATALOG| < 100 && |PAGES| < 100 && |PAGE| < 300 && |FONT| < 100;
    assert Power10(10) == 10_000_000_000;
  }

  lemma StreamReads(content: string, rest: string)
    ensures StreamContent(StreamObject(content) + rest, 5) == Some(content)
  {
    var a, b, c := "5 0 obj\n<< /Length ", " >>\nstream\n", "\nendstream\nendobj";
    var d := Decimal(|content|);
    var tail := c + rest;
    StreamRegroups(a, d, b, content, c, rest);
    StreamHeading();
    ExpectFinds(a, d + (b + (content + tail)));
    NumberFinds(|content|, b + (content + tail));
    ExpectFinds(b, content + tail);
    Skip(content, tail);
    ExpectFinds(c, rest);
    assert (content + tail)[..|content|] == content;
  }

  lemma StreamHeading()
    ensures Decimal(5) + " 0 obj\n<< /Length " == "5 0 obj\n<< /Length "
  {
  }

  lemma StreamRegroups(a: string, d: string, b: string, content: string, c: string, rest: string)
    ensures (a + (d + (b + (content + c)))) + rest == a + (d + (b + (content + (c + rest))))
  {
    Regroup(a, d + (b + (content + c)), rest);
    Regroup(d, b + (content + c), rest);
    Regroup(b, content + c, rest);
    Regroup(content, c, rest);
  }

  /** Reading the written file recovers the content, whatever it is and however long. */
  lemma FileRoundTrip(content: string)
    ensures ReadStream(File(Objects(content)), 5) == Some(content)
  {
    var objects := Objects(content);
    CertificateOffsetsFit(content);
    SeekFindsObject(objects, 5);
    StreamReads(content, "\n" + From(objects, 6));
  }
}

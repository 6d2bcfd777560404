/** A reader that finds its way from the end of the file to the page's content, and
    the proof that the certificate writer's files lead it there. */
module PdfPage {
  import opened Common
  import opened CertificatePdf
  import opened PdfReader

  // ----- the way from the trailer to the content (sections 7.5.5 and 7.7) -----

  /** The object number in the reference that follows the first occurrence of a name. */
  function FindReference(s: string, name: string): Option<nat> {
    if s == [] then None
    else if name <= s then
      var number := TakeNumber(s[|name|..]);
      if number.None? || Expect(number.value.1, " 0 R").None? then None else Some(number.value.0)
    else FindReference(s[1..], name)
  }

  /** What follows the entries of the table. */
  function SkipXref(s: string): Option<string> {
    var body := Expect(s, "xref\n0 ");
    if body.None? then None
    else
      var size := TakeNumber(body.value);
      if size.None? then None
      else
        var entries := Expect(size.value.1, "\n");
        if entries.None? || |entries.value| < 20 * size.value.0 then None
        else Some(entries.value[20 * size.value.0..])
  }

  /** The number of the document catalogue, from the trailer. */
  function ReadRoot(file: string): Option<nat> {
    var start := ReadStartxref(file);
    if start.None? || |file| < start.value then None
    else
      var trailer := SkipXref(file[start.value..]);
      if trailer.None? then None
      else
        var dictionary := Expect(trailer.value, "trailer\n<< ");
        if dictionary.None? then None else FindReference(dictionary.value, "/Root ")
  }

  function ObjectHead(k: nat, kind: string): string {
    Decimal(k) + (" 0 obj\n<< /Type /" + (kind + " "))
  }

  /** The reference under a name in object k, which must be of the given type. */
  function Follow(file: string, k: nat, kind: string, name: string): Option<nat> {
    var found := Seek(file, k);
    if found.None? then None
    else
      var dictionary := Expect(found.value, ObjectHead(k, kind));
      if dictionary.None? then None else FindReference(dictionary.value, name)
  }

  /** The content of the first page: from the trailer to the catalogue, its page tree,
      the first kid and that page's content stream. */
  function ReadFirstPage(file: string): Option<string> {
    var catalog := ReadRoot(file);
    if catalog.None? then None
    else
      var pages := Follow(file, catalog.value, "Catalog", "/Pages ");
      if pages.None? then None
      else
        var page := Follow(file, pages.value, "Pages", "/Kids [");
        if page.None? then None
        else
          var contents := Follow(file, page.value, "Page", "/Contents ");
          if contents.None? then None else ReadStream(file, contents.value)
  }

  // ----- searching a dictionary -----

  lemma {:induction false} SkipsText(text: string, rest: string, name: string)
    requires name != [] && name[0] !in text
    ensures FindReference(text + rest, name) == FindReference(rest, name)
    decreases |text|
  {
    if text == [] {
      assert text + rest == rest;
    } else {
      assert (text + rest)[0] == text[0] && text[0] in text;
      assert (text + rest)[1..] == text[1..] + rest;
      SkipsText(text[1..], rest, name);
    }
  }

  /** A name with another initial, and what follows it up to the next name. */
  lemma SkipsName(initial: char, text: string, rest: string, name: string)
    requires 2 <= |name| && name[0] == '/' && initial != name[1] && initial != '/' && '/' !in text
    ensures FindReference("/" + ([initial] + text) + rest, name) == FindReference(rest, name)
  {
    var s := "/" + ([initial] + text) + rest;
    assert s[0] == '/' && s[1] == initial;
    assert s[1..] == ([initial] + text) + rest;
    SkipsText([initial] + text, rest, name);
  }

  lemma FindsReference(name: string, n: nat, rest: string)
    requires name != []
    ensures FindReference(name + (Decimal(n) + (" 0 R" + rest)), name) == Some(n)
  {
    var s := name + (Decimal(n) + (" 0 R" + rest));
    Skip(name, Decimal(n) + (" 0 R" + rest));
    assert name <= s;
    NumberFinds(n, " 0 R" + rest);
    ExpectFinds(" 0 R", rest);
  }

  // ----- the trailer -----

  lemma SkipEntry(entry: string, others: string, n: nat, rest: string)
    requires |entry| == 20 && n <= |others| && others[n..] == rest
    ensures 20 + n <= |entry + others| && (entry + others)[20 + n..] == rest
  {
  }

  lemma {:induction false} EntriesAreSkipped(objects: seq<string>, k: nat, rest: string)
    requires OffsetsFit(objects) && 1 <= k <= |objects| + 1
    requires rest == Trailer(|objects| + 1, |Body(objects, |objects|)|)
    ensures var t, n := TableFrom(objects, k), 20 * (|objects| + 1 - k); n <= |t| && t[n..] == rest
    decreases |objects| + 1 - k
  {
    if k <= |objects| {
      EntriesAreSkipped(objects, k + 1, rest);
      EntryReads(Offset(objects, k));
      SkipEntry(Entry(Offset(objects, k)), TableFrom(objects, k + 1), 20 * (|objects| - k), rest);
    }
  }

  lemma SkipsTable(size: nat, free: string, others: string, rest: string)
    requires |free| == 20 && 20 * size <= |others| && others[20 * size..] == rest
    ensures SkipXref("xref\n0 " + (Decimal(size + 1) + ("\n" + (free + others)))) == Some(rest)
  {
    var entries := free + others;
    ExpectFinds("xref\n0 ", Decimal(size + 1) + ("\n" + entries));
    NumberFinds(size + 1, "\n" + entries);
    ExpectFinds("\n", entries);
    SkipEntry(free, others, 20 * size, rest);
  }

  lemma XrefIsSkipped(objects: seq<string>)
    requires OffsetsFit(objects)
    ensures SkipXref(XrefSection(objects)) == Some(Trailer(|objects| + 1, |Body(objects, |objects|)|))
  {
    var rest := Trailer(|objects| + 1, |Body(objects, |objects|)|);
    FreeEntryReads();
    EntriesAreSkipped(objects, 1, rest);
    SkipsTable(|objects|, FREE_ENTRY, TableFrom(objects, 1), rest);
  }

  lemma NumberHasNoName(n: nat)
    ensures '/' !in Decimal(n)
  {
    DecimalReads(n);
  }

  lemma TrailerTexts()
    ensures "trailer\n<< /Size " == "trailer\n<< " + ("/" + (['S'] + "ize "))
    ensures " /Root 1 0 R >>\nstartxref\n" == " " + ("/Root " + ("1" + (" 0 R" + " >>\nstartxref\n")))
    ensures Decimal(1) == "1"
  {
  }

  lemma TrailerParts(size: nat, start: nat)
    ensures var tail := Decimal(start) + "\n%%EOF";
      Trailer(size, start)
      == "trailer\n<< " + (("/" + (['S'] + "ize ")) + ((Decimal(size) + " ")
         + ("/Root " + (Decimal(1) + (" 0 R" + (" >>\nstartxref\n" + tail))))))
  {
    TrailerTexts();
    var tail := Decimal(start) + "\n%%EOF";
    RegroupTrailer("trailer\n<< ", "/" + (['S'] + "ize "), Decimal(size), " ", "/Root ", Decimal(1), " 0 R",
                   " >>\nstartxref\n", tail);
  }

  lemma RegroupTrailer(a: string, b: string, c: string, d: string, e: string, f: string, g: string, h: string,
                       i: string)
    ensures (a + b) + (c + ((d + (e + (f + (g + h)))) + i))
         == a + (b + ((c + d) + (e + (f + (g + (h + i))))))
  {
    Regroup(g, h, i);
    Regroup(f, g + h, i);
    Regroup(e, f + (g + h), i);
    Regroup(d, e + (f + (g + h)), i);
    Regroup(c, d, e + (f + (g + (h + i))));
    Regroup(a, b, (c + d) + (e + (f + (g + (h + i)))));
  }

  /** The trailer dictionary names object 1 as the catalogue. */
  lemma TrailerNamesRoot(size: nat, start: nat)
    ensures var dictionary := Expect(Trailer(size, start), "trailer\n<< ");
      dictionary.Some? && FindReference(dictionary.value, "/Root ") == Some(1)
  {
    var rest := " >>\nstartxref\n" + (Decimal(start) + "\n%%EOF");
    var root := "/Root " + (Decimal(1) + (" 0 R" + rest));
    var digits := Decimal(size) + " ";
    TrailerParts(size, start);
    ExpectFinds("trailer\n<< ", ("/" + (['S'] + "ize ")) + (digits + root));
    NumberHasNoName(size);
    SkipsName('S', "ize ", digits + root, "/Root ");
    SkipsText(digits, root, "/Root ");
    FindsReference("/Root ", 1, rest);
  }

  lemma RootReads(objects: seq<string>)
    requires OffsetsFit(objects)
    ensures ReadRoot(File(objects)) == Some(1)
  {
    var body := Body(objects, |objects|);
    StartxrefReads(objects);
    XrefStartsAfterBody(objects);
    Skip(body, XrefSection(objects));
    XrefIsSkipped(objects);
    TrailerNamesRoot(|objects| + 1, |body|);
  }

  // ----- the objects on the way -----

  lemma ObjectIsFollowed(objects: seq<string>, k: nat, kind: string, rest: string, name: string, n: nat)
    requires OffsetsFit(objects) && 1 <= k <= |objects| && objects[k - 1] == ObjectHead(k, kind) + rest
    requires FindReference(rest + ("\n" + From(objects, k + 1)), name) == Some(n)
    ensures Follow(File(objects), k, kind, name) == Some(n)
  {
    var after := "\n" + From(objects, k + 1);
    SeekFindsObject(objects, k);
    Regroup(ObjectHead(k, kind), rest, after);
    ExpectFinds(ObjectHead(k, kind), rest + after);
  }

  lemma CatalogHead()
    ensures "1 0 obj\n<< /Type /Catalog " == ObjectHead(1, "Catalog")
  {
    assert Decimal(1) == "1";
  }

  lemma PagesHead()
    ensures "2 0 obj\n<< /Type /Pages " == ObjectHead(2, "Pages")
  {
    assert Decimal(2) == "2";
  }

  lemma PageHead()
    ensures "3 0 obj\n<< /Type /Page " == ObjectHead(3, "Page")
  {
    assert Decimal(3) == "3";
  }

  lemma References()
    ensures "/Pages 2 0 R" == "/Pages " + (Decimal(2) + " 0 R")
    ensures "/Kids [3 0 R" == "/Kids [" + (Decimal(3) + " 0 R")
    ensures "/Contents 5 0 R" == "/Contents " + (Decimal(5) + " 0 R")
  {
    assert Decimal(2) == "2" && Decimal(3) == "3" && Decimal(5) == "5";
  }

  /** A reference written out is found, whatever follows. */
  lemma WrittenIsFound(reference: string, name: string, n: nat, tail: string, after: string)
    requires name != [] && reference == name + (Decimal(n) + " 0 R")
    ensures FindReference((reference + tail) + after, name) == Some(n)
  {
    Regroup(reference, tail, after);
    Regroup(name, Decimal(n) + " 0 R", tail + after);
    Regroup(Decimal(n), " 0 R", tail + after);
    FindsReference(name, n, tail + after);
  }

  lemma CatalogNamesPages(objects: seq<string>)
    requires OffsetsFit(objects) && 1 <= |objects| && objects[0] == CATALOG
    ensures Follow(File(objects), 1, "Catalog", "/Pages ") == Some(2)
  {
    CatalogHead();
    References();
    WrittenIsFound("/Pages 2 0 R", "/Pages ", 2, " >>\nendobj", "\n" + From(objects, 2));
    ObjectIsFollowed(objects, 1, "Catalog", "/Pages 2 0 R" + " >>\nendobj", "/Pages ", 2);
  }

  lemma PagesNamePage(objects: seq<string>)
    requires OffsetsFit(objects) && 2 <= |objects| && objects[1] == PAGES
    ensures Follow(File(objects), 2, "Pages", "/Kids [") == Some(3)
  {
    PagesHead();
    References();
    WrittenIsFound("/Kids [3 0 R", "/Kids [", 3, "] /Count 1 >>\nendobj", "\n" + From(objects, 3));
    ObjectIsFollowed(objects, 2, "Pages", "/Kids [3 0 R" + "] /Count 1 >>\nendobj", "/Kids [", 3);
  }

  lemma PageEntries()
    ensures "/Parent 2 0 R " == "/" + (['P'] + "arent 2 0 R ")
    ensures "/MediaBox [0 0 612 792] " == "/" + (['M'] + "ediaBox [0 0 612 792] ")
    ensures "/Resources << " == "/" + (['R'] + "esources << ")
    ensures "/Font << " == "/" + (['F'] + "ont << ")
    ensures "/F1 4 0 R >> >> " == "/" + (['F'] + "1 4 0 R >> >> ")
  {
  }

  /** None of the page's earlier entries is taken for its content. */
  lemma ContentsAreFound(contents: string)
    ensures FindReference("/Parent 2 0 R " + ("/MediaBox [0 0 612 792] " + ("/Resources << " + ("/Font << "
              + ("/F1 4 0 R >> >> " + contents)))), "/Contents ")
         == FindReference(contents, "/Contents ")
  {
    PageEntries();
    var fonts := "/F1 4 0 R >> >> " + contents;
    var resources := "/Resources << " + ("/Font << " + fonts);
    SkipsName('P', "arent 2 0 R ", "/MediaBox [0 0 612 792] " + resources, "/Contents ");
    SkipsName('M', "ediaBox [0 0 612 792] ", resources, "/Contents ");
    SkipsName('R', "esources << ", "/Font << " + fonts, "/Contents ");
    SkipsName('F', "ont << ", fonts, "/Contents ");
    SkipsName('F', "1 4 0 R >> >> ", contents, "/Contents ");
  }

  lemma RegroupPage(a: string, b: string, c: string, d: string, e: string, contents: string, after: string)
    ensures (a + (b + (c + (d + (e + contents))))) + after == a + (b + (c + (d + (e + (contents + after)))))
  {
    Regroup(e, contents, after);
    Regroup(d, e + contents, after);
    Regroup(c, d + (e + contents), after);
    Regroup(b, c + (d + (e + contents)), after);
    Regroup(a, b + (c + (d + (e + contents))), after);
  }

  lemma PageNamesContent(objects: seq<string>)
    requires OffsetsFit(objects) && 3 <= |objects| && objects[2] == PAGE
    ensures Follow(File(objects), 3, "Page", "/Contents ") == Some(5)
  {
    var contents, after := "/Contents 5 0 R" + " >>\nendobj", "\n" + From(objects, 4);
    PageHead();
    References();
    WrittenIsFound("/Contents 5 0 R", "/Contents ", 5, " >>\nendobj", after);
    ContentsAreFound(contents + after);
    RegroupPage("/Parent 2 0 R ", "/MediaBox [0 0 612 792] ", "/Resources << ", "/Font << ", "/F1 4 0 R >> >> ",
                contents, after);
    ObjectIsFollowed(objects, 3, "Page",
                     "/Parent 2 0 R " + ("/MediaBox [0 0 612 792] " + ("/Resources << " + ("/Font << "
                     + ("/F1 4 0 R >> >> " + contents)))), "/Contents ", 5);
  }

  /** A reader that starts from the end of the file alone finds the page and recovers
      its content, whatever it is and however long. */
  lemma PageRoundTrip(content: string)
    ensures ReadFirstPage(File(Objects(content))) == Some(content)
  {
    var objects := Objects(content);
    CertificateOffsetsFit(content);
    RootReads(objects);
    CatalogNamesPages(objects);
    PagesNamePage(objects);
    PageNamesContent(objects);
    FileRoundTrip(content);
  }
}

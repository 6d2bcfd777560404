/** The certificate writer: a one-page PDF file assembled by hand, with byte
    offsets, zero-padded decimals and escaped text. A character stands for one
    byte of the UTF-8 encoding. */
module CertificatePdf {
  import opened Common

  // ----- decimals -----

  function Digit(d: nat): char
    requires d < 10
  {
    ('0' as int + d) as char
  }

  function Decimal(n: nat): string {
    if n < 10 then [Digit(n)] else Decimal(n / 10) + [Digit(n % 10)]
  }

  function Repeat(c: char, n: nat): string {
    if n == 0 then [] else [c] + Repeat(c, n - 1)
  }

  function PadStart(s: string, width: nat, fill: char): string {
    if |s| < width then Repeat(fill, width - |s|) + s else s
  }

  // ----- the file -----

  const HEADER: string := "%PDF-1.4\n"
  const CATALOG: string := "1 0 obj\n<< /Type /Catalog " + ("/Pages 2 0 R" + " >>\nendobj")
  const PAGES: string := "2 0 obj\n<< /Type /Pages " + ("/Kids [3 0 R" + "] /Count 1 >>\nendobj")
  const PAGE: string := "3 0 obj\n<< /Type /Page " + ("/Parent 2 0 R " + ("/MediaBox [0 0 612 792] " +
                        ("/Resources << " + ("/Font << " + ("/F1 4 0 R >> >> " +
                        ("/Contents 5 0 R" + " >>\nendobj"))))))
  const FONT: string := "4 0 obj\n<< /Type /Font /Subtype /Type1 /BaseFont /Helvetica >>\nendobj"
  const FREE_ENTRY: string := "0000000000 65535 f \n"

  function StreamObject(content: string): string {
    "5 0 obj\n<< /Length " + (Decimal(|content|) + (" >>\nstream\n" + (content + "\nendstream\nendobj")))
  }

  function Objects(content: string): seq<string> {
    [CATALOG, PAGES, PAGE, FONT, StreamObject(content)]
  }

  /** The header and the first k objects. */
  function Body(objects: seq<string>, k: nat): string
    requires k <= |objects|
  {
    if k == 0 then HEADER else Body(objects, k - 1) + (objects[k - 1] + "\n")
  }

  /** Where object k starts: after everything written before it. */
  function Offset(objects: seq<string>, k: nat): nat
    requires 1 <= k <= |objects|
  {
    |Body(objects, k - 1)|
  }

  function Entry(offset: nat): string {
    PadStart(Decimal(offset), 10, '0') + " 00000 n \n"
  }

  /** The body, the table header and the entries of the first k objects. */
  function TableUpTo(objects: seq<string>, k: nat): string
    requires k <= |objects|
  {
    if k == 0 then
      Body(objects, |objects|) + "xref\n0 " + Decimal(|objects| + 1) + "\n" + FREE_ENTRY
    else
      TableUpTo(objects, k - 1) + Entry(Offset(objects, k))
  }

  function Trailer(size: nat, xrefOffset: nat): string {
    "trailer\n<< /Size " + (Decimal(size) + (" /Root 1 0 R >>\nstartxref\n" + (Decimal(xrefOffset) + "\n%%EOF")))
  }

  function File(objects: seq<string>): string {
    TableUpTo(objects, |objects|) + Trailer(|objects| + 1, |Body(objects, |objects|)|)
  }

  class CertificatePdfService {
    constructor ()
    {
    }

    method BuildPdf(content: string) returns (pdf: string)
      ensures pdf == File(Objects(content))
    {
      pdf := Assemble(Objects(content));
    }

    /** Writes the objects, remembering where each starts, then the table. */
    method Assemble(objects: seq<string>) returns (pdf: string)
      ensures pdf == File(objects)
    {
      pdf := HEADER;
      var offsets: seq<nat> := [0];
      for i := 0 to |objects|
        invariant pdf == Body(objects, i) && |offsets| == i + 1
        invariant forall k :: 1 <= k <= i ==> offsets[k] == Offset(objects, k)
      {
        offsets := offsets + [|pdf|];
        pdf := pdf + (objects[i] + "\n");
      }
      var xrefOffset := |pdf|;
      pdf := pdf + "xref\n0 " + Decimal(|objects| + 1) + "\n";
      pdf := pdf + FREE_ENTRY;
      for index := 1 to |offsets|
        invariant pdf == TableUpTo(objects, index - 1)
      {
        pdf := pdf + (PadStart(Decimal(offsets[index]), 10, '0') + " 00000 n \n");
      }
      pdf := pdf + Trailer(|objects| + 1, xrefOffset);
    }
  }

  // ----- text -----

  /** Replacing every occurrence of a character, as a global replace does. */
  function Replace(s: string, c: char, out: string): string {
    if s == [] then [] else (if s[0] == c then out else [s[0]]) + Replace(s[1..], c, out)
  }

  function EscapePdfText(value: string): string {
    Replace(Replace(Replace(value, '\\', "\\\\"), '(', "\\("), ')', "\\)")
  }

  datatype Line = Line(size: nat, x: nat, y: nat, text: string)

  function ShowLine(l: Line): string {
    "BT /F1 " + (Decimal(l.size) + (" Tf 1 0 0 1 " + (Decimal(l.x) + (" " + (Decimal(l.y) +
      (" Tm (" + (EscapePdfText(l.text) + ") Tj ET")))))))
  }

  /** The lines, each ended by a newline, and the closing operator. */
  function ShowLines(lines: seq<Line>): string {
    if lines == [] then "ET" else ShowLine(lines[0]) + ("\n" + ShowLines(lines[1..]))
  }

  function ContentStream(lines: seq<Line>): string {
    "BT\n/F1 18 Tf\n" + ShowLines(lines)
  }

  /** The parts of a credential that are printed; empty strings count as absent. */
  datatype Credential = Credential(id: string, userId: string, courseId: string, issuedOn: string,
                                   username: Option<string>, email: Option<string>,
                                   courseTitle: Option<string>, txHash: Option<string>)

  function OrElse(value: Option<string>, fallback: string): string {
    if value.Some? && value.value != "" then value.value else fallback
  }

  function CertificateLines(c: Credential): seq<Line> {
    [ Line(26, 140, 730, "Certificate of Completion"),
      Line(14, 72, 670, "This certifies that"),
      Line(22, 72, 635, OrElse(c.username, OrElse(c.email, c.userId))),
      Line(14, 72, 595, "has successfully completed the course"),
      Line(20, 72, 560, OrElse(c.courseTitle, c.courseId)),
      Line(12, 72, 500, "Issued: " + c.issuedOn),
      Line(12, 72, 478, "Credential ID: " + c.id),
      Line(12, 72, 456, "Verification Ref: " + OrElse(c.txHash, c.id)),
      Line(12, 72, 415, "Scan target / verify payload:"),
      Line(10, 72, 392, "scoopdope://credentials/" + c.id + "/verify") ]
  }

  /** The certificate file of a credential. */
  function CertificateFile(c: Credential): string {
    File(Objects(ContentStream(CertificateLines(c))))
  }
}

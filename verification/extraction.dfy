/** Turning a directory entry into text in scripts/scan_docs.py: the file
    format is chosen from the name's extension, case-insensitively and in
    the order PDF, DOCX, TXT; the matching reader is run; and a reader
    failure does not stop the scan but becomes a one-line error message that
    takes the place of the text. The readers themselves (PyPDF2,
    python-docx, the UTF-8 file reader) are parameters of the model. */
module Extraction {
  import opened Wrappers
  import opened Seqs
  import opened Text

  /** The three recognised document formats. */
  datatype Format = Pdf | Docx | Txt

  /** The lower-case extension that selects a format. */
  function Suffix(f: Format): string {
    match f
    case Pdf => ".pdf"
    case Docx => ".docx"
    case Txt => ".txt"
  }

  /** The format's name as it appears in an error message. */
  function Label(f: Format): string {
    match f
    case Pdf => "PDF"
    case Docx => "DOCX"
    case Txt => "TXT"
  }

  /** No name ends with two of the extensions: their last letters differ. */
  lemma SuffixesExclusive(s: string, f: Format, g: Format)
    requires EndsWith(s, Suffix(f)) && EndsWith(s, Suffix(g))
    ensures f == g
  {
    assert s[|s| - 1] == Suffix(f)[|Suffix(f)| - 1];
    assert s[|s| - 1] == Suffix(g)[|Suffix(g)| - 1];
  }

  /** The format a directory entry is read as, or `None` when the entry is
      skipped. The name is lower-cased before its ending is compared, and
      the format is the one whose extension ends the name: since no name
      ends with two extensions, the order of the tests never matters. */
  function FormatOf(name: string): (r: Option<Format>)
    ensures forall f: Format :: r == Some(f) <==> EndsWith(LowerString(name), Suffix(f))
  {
    var lower := LowerString(name);
    assert forall f, g :: EndsWith(lower, Suffix(f)) && EndsWith(lower, Suffix(g)) ==> f == g by {
      forall f, g | EndsWith(lower, Suffix(f)) && EndsWith(lower, Suffix(g)) ensures f == g {
        SuffixesExclusive(lower, f, g);
      }
    }
    if EndsWith(lower, Suffix(Pdf)) then
      Some(Pdf)
    else if EndsWith(lower, Suffix(Docx)) then
      Some(Docx)
    else if EndsWith(lower, Suffix(Txt)) then
      Some(Txt)
    else
      None
  }

  /** The entries that are read at all. */
  predicate Recognised(name: string) {
    FormatOf(name).Some?
  }

  /** Any stem followed by an extension of a format, in any letter case,
      is read as that format. */
  lemma {:induction false} FormatOfExtension(stem: string, ext: string, f: Format)
    requires LowerString(ext) == Suffix(f)
    ensures FormatOf(stem + ext) == Some(f)
  {
    var lower := LowerString(stem + ext);
    LowerStringSlice(stem + ext, |stem|, |stem + ext|);
    assert (stem + ext)[|stem|..] == ext;
    assert lower[|lower| - |Suffix(f)|..] == Suffix(f);
  }

  /** Only the letter case of the name is ignored: two names that agree
      up to ASCII case are read as the same format. */
  lemma FormatOfIgnoresCase(a: string, b: string)
    requires LowerString(a) == LowerString(b)
    ensures FormatOf(a) == FormatOf(b)
  {
  }

  /** `os.path.join(DOC_FOLDER, file)` for an entry of the folder. */
  function PathOf(name: string): string {
    "doc/" + name
  }

  /** `" ".join(page.extract_text() or "" for page in reader.pages)`: a
      page whose extraction returns `None` contributes an empty string. */
  function PdfText(pages: seq<Option<string>>): string {
    Join(" ", Map((p: Option<string>) => p.GetOr(""), pages))
  }

  /** The text of every page is kept, one separator apart. */
  lemma PdfTextLength(pages: seq<Option<string>>)
    requires |pages| > 0
    ensures |PdfText(pages)| == TotalLength(Map((p: Option<string>) => p.GetOr(""), pages)) + |pages| - 1
  {
    JoinLength(" ", Map((p: Option<string>) => p.GetOr(""), pages));
  }

  /** The text of a document is the text of its first pages, a space, and
      the text of the rest. */
  lemma PdfTextConcat(a: seq<Option<string>>, b: seq<Option<string>>)
    requires |a| > 0 && |b| > 0
    ensures PdfText(a + b) == PdfText(a) + " " + PdfText(b)
  {
    var texts := (p: Option<string>) => p.GetOr("");
    MapConcat(texts, a, b);
    JoinConcat(" ", Map(texts, a), Map(texts, b));
  }

  /** When no page text holds a space, the pages can be read back from
      the document text, with an empty string for each page that had no
      text. */
  lemma PdfTextPages(pages: seq<Option<string>>)
    requires |pages| > 0
    requires forall i :: 0 <= i < |pages| ==> ' ' !in pages[i].GetOr("")
    ensures Split(' ', PdfText(pages)) == Map((p: Option<string>) => p.GetOr(""), pages)
  {
    SplitJoin(' ', Map((p: Option<string>) => p.GetOr(""), pages));
  }

  /** `" ".join(para.text for para in doc.paragraphs)`. */
  function DocxText(paragraphs: seq<string>): string {
    Join(" ", paragraphs)
  }

  /** When no paragraph holds a space, the paragraphs can be read back from
      the document text. */
  lemma DocxTextParagraphs(paragraphs: seq<string>)
    requires |paragraphs| > 0
    requires forall i :: 0 <= i < |paragraphs| ==> ' ' !in paragraphs[i]
    ensures Split(' ', DocxText(paragraphs)) == paragraphs
  {
    SplitJoin(' ', paragraphs);
  }

  /** `f"Error reading {FMT}: {e}"`, the text that stands in for a
      document whose reader raised `e`. */
  function ErrorText(f: Format, e: string): string {
    "Error reading " + Label(f) + ": " + e
  }

  const ErrorPrefix: string := "Error reading "

  /** The format and the exception message an error text was made from,
      or `None` for any other text. */
  function ParseErrorText(s: string): Option<(Format, string)> {
    if |s| < |ErrorPrefix| || s[..|ErrorPrefix|] != ErrorPrefix then None
    else
      var rest := s[|ErrorPrefix|..];
      if |rest| >= 5 && rest[..5] == "PDF: " then Some((Pdf, rest[5..]))
      else if |rest| >= 6 && rest[..6] == "DOCX: " then Some((Docx, rest[6..]))
      else if |rest| >= 5 && rest[..5] == "TXT: " then Some((Txt, rest[5..]))
      else None
  }

  /** An error text names the format and carries the exception message
      unchanged. */
  lemma ErrorTextReadsBack(f: Format, e: string)
    ensures ParseErrorText(ErrorText(f, e)) == Some((f, e))
  {
    var s := ErrorText(f, e);
    var head := Label(f) + ": ";
    assert s == ErrorPrefix + (head + e);
    assert s[..|ErrorPrefix|] == ErrorPrefix;
    assert s[|ErrorPrefix|..] == head + e;
    assert (head + e)[..|head|] == head && (head + e)[|head|..] == e;
    match f
    case Pdf =>
    case Docx =>
      assert (head + e)[..5] != "PDF: " by {
        assert (head + e)[0] == 'D';
      }
    case Txt =>
      assert (head + e)[..5] != "PDF: " by {
        assert (head + e)[0] == 'T';
      }
      assert !(|head + e| >= 6 && (head + e)[..6] == "DOCX: ") by {
        assert (head + e)[0] == 'T';
      }
  }

  /** The readers the script calls, as functions of the path they are
      given: `Ok` with what the library returned, or `Err` with the message
      of the exception it raised. The PDF reader yields each page's
      `extract_text()` result, the DOCX reader each paragraph's text, and
      the text reader the decoded file contents. */
  datatype Extractors = Extractors(
    pdf: string -> Result<seq<Option<string>>, string>,
    docx: string -> Result<seq<string>, string>,
    txt: string -> Result<string, string>)

  /** The text that is classified for the entry `name` read as `f`: the
      reader's text, or the error text when the reader failed. */
  function Content(x: Extractors, name: string, f: Format): string {
    match f
    case Pdf =>
      (match x.pdf(PathOf(name))
       case Ok(pages) => PdfText(pages)
       case Err(e) => ErrorText(Pdf, e))
    case Docx =>
      (match x.docx(PathOf(name))
       case Ok(paragraphs) => DocxText(paragraphs)
       case Err(e) => ErrorText(Docx, e))
    case Txt =>
      (match x.txt(PathOf(name))
       case Ok(text) => text
       case Err(e) => ErrorText(Txt, e))
  }

  /** Whether the reader for `f` failed on `name`, and with which
      message. */
  function Failure(x: Extractors, name: string, f: Format): Option<string> {
    match f
    case Pdf => if x.pdf(PathOf(name)).Err? then Some(x.pdf(PathOf(name)).error) else None
    case Docx => if x.docx(PathOf(name)).Err? then Some(x.docx(PathOf(name)).error) else None
    case Txt => if x.txt(PathOf(name)).Err? then Some(x.txt(PathOf(name)).error) else None
  }

  /** A reader failure is not lost: the text classified in its place reads
      back as the format's error carrying the exception message. */
  lemma FailureBecomesErrorText(x: Extractors, name: string, f: Format)
    requires Failure(x, name, f).Some?
    ensures ParseErrorText(Content(x, name, f)) == Some((f, Failure(x, name, f).value))
  {
    ErrorTextReadsBack(f, Failure(x, name, f).value);
  }

  /** A PDF whose reader succeeds is classified from its page texts: when
      no page text holds a space, they can be read back from the content,
      with an empty string for each page that had no text. */
  lemma PdfContentPages(x: Extractors, name: string)
    requires x.pdf(PathOf(name)).Ok?
    requires |x.pdf(PathOf(name)).value| > 0
    requires forall i :: 0 <= i < |x.pdf(PathOf(name)).value| ==>
      ' ' !in x.pdf(PathOf(name)).value[i].GetOr("")
    ensures Failure(x, name, Pdf).None?
    ensures Split(' ', Content(x, name, Pdf)) ==
      Map((p: Option<string>) => p.GetOr(""), x.pdf(PathOf(name)).value)
  {
    PdfTextPages(x.pdf(PathOf(name)).value);
  }

  /** A DOCX file whose reader succeeds is classified from its paragraphs:
      when none holds a space, they can be read back from the content. */
  lemma DocxContentParagraphs(x: Extractors, name: string)
    requires x.docx(PathOf(name)).Ok?
    requires |x.docx(PathOf(name)).value| > 0
    requires forall i :: 0 <= i < |x.docx(PathOf(name)).value| ==>
      ' ' !in x.docx(PathOf(name)).value[i]
    ensures Failure(x, name, Docx).None?
    ensures Split(' ', Content(x, name, Docx)) == x.docx(PathOf(name)).value
  {
    DocxTextParagraphs(x.docx(PathOf(name)).value);
  }

  /** A text file whose reader succeeds is classified from exactly the text
      read. */
  lemma TxtContentIsText(x: Extractors, name: string)
    requires x.txt(PathOf(name)).Ok?
    ensures Failure(x, name, Txt).None?
    ensures Content(x, name, Txt) == x.txt(PathOf(name)).value
  {
  }
}

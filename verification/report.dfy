/** The report that `main` of scripts/scan_docs.py writes: a fixed heading
    and table header, then one `| file | status | risk |` row for every
    recognised entry of the document folder, in the order the folder
    listing returns them. The listing and the readers are inputs; the file
    is modelled as the string written to it. */
module Report {
  import opened Wrappers
  import opened Seqs
  import opened Text
  import opened Classifier
  import opened Extraction
  import opened Regex

  /** One row of the report table. */
  datatype Entry = Entry(file: string, status: string, risk: string)

  /** The row `name` gets when it is read as `f`. */
  function EntryFor(x: Extractors, name: string, f: Format): Entry {
    var verdict := ScanText(Content(x, name, f), name);
    Entry(name, verdict.0, verdict.1)
  }

  function FileOf(e: Entry): string {
    e.file
  }

  /** The row of the entry `name`, or `None` when it is skipped. */
  function Row(x: Extractors, name: string): (r: Option<Entry>)
    ensures r.Some? <==> Recognised(name)
    ensures r.Some? ==> r.value.file == name
  {
    match FormatOf(name)
    case None => None
    case Some(f) => Some(EntryFor(x, name, f))
  }

  /** The rows of the report, for the folder listing `listing`: entries
      without a recognised extension are skipped, all others are read and
      classified, in listing order. */
  function Scan(x: Extractors, listing: seq<string>): seq<Entry> {
    FilterMap((name: string) => Row(x, name), listing)
  }

  /** The rows name exactly the recognised entries, in listing order, and
      each is the row its entry gets when read as its format. */
  lemma {:induction false} ScanFiles(x: Extractors, listing: seq<string>)
    ensures Map(FileOf, Scan(x, listing)) == Filter(Recognised, listing)
    ensures forall i :: 0 <= i < |Scan(x, listing)| ==>
      var e := Scan(x, listing)[i];
      FormatOf(e.file).Some? && e == EntryFor(x, e.file, FormatOf(e.file).value)
  {
    var row := (name: string) => Row(x, name);
    FilterMapKeys(row, FileOf, Recognised, listing);
  }

  /** Scanning a listing in two parts gives the rows of the first part
      followed by those of the second. */
  lemma ScanConcat(x: Extractors, a: seq<string>, b: seq<string>)
    ensures Scan(x, a + b) == Scan(x, a) + Scan(x, b)
  {
    FilterMapConcat((name: string) => Row(x, name), a, b);
  }

  /** Every recognised entry gets exactly one row, and no other entry
      gets any: the rows are as many as the recognised entries. */
  lemma {:induction false} RowCount(x: Extractors, listing: seq<string>)
    ensures |Scan(x, listing)| == |Filter(Recognised, listing)|
  {
    ScanFiles(x, listing);
    assert |Map(FileOf, Scan(x, listing))| == |Scan(x, listing)|;
  }

  /** When a reader fails, the entry still gets its row, classified from
      the error text. */
  lemma {:induction false} FailedEntryStillReported(x: Extractors, name: string, f: Format)
    requires FormatOf(name) == Some(f)
    requires Failure(x, name, f).Some?
    ensures Scan(x, [name]) == [Entry(name,
      ScanText(ErrorText(f, Failure(x, name, f).value), name).0,
      ScanText(ErrorText(f, Failure(x, name, f).value), name).1)]
  {
    assert [name][1..] == [];
  }

  // ---------------------------------------------------------------------
  // The written file

  const Title: string := "# Document Security Scan Report"
  const Header: string := "| File | Status | Risk |"
  const Rule: string := "|------|--------|------|"

  /** The lines written before any row. */
  const Preamble: seq<string> := [Title, "", Header, Rule]

  /** `f"| {file} | {status} | {risk} |"`. */
  function RowLine(e: Entry): string {
    "| " + e.file + " | " + e.status + " | " + e.risk + " |"
  }

  /** The whole report file for the rows `entries`. */
  function Rendered(entries: seq<Entry>): string {
    Unlines(Preamble + Map(RowLine, entries))
  }

  /** Writes the report as `main` does: the preamble, then a row per
      recognised entry as it is met in the listing. */
  method WriteReport(x: Extractors, listing: seq<string>) returns (report: string)
    ensures report == Rendered(Scan(x, listing))
  {
    report := Title + "\n" + "\n";
    report := report + Header + "\n";
    report := report + Rule + "\n";
    assert Scan(x, listing[..0]) == [];
    RenderedEmpty();
    var i := 0;
    while i < |listing|
      invariant 0 <= i <= |listing|
      invariant report == Rendered(Scan(x, listing[..i]))
    {
      var file := listing[i];
      var done := Scan(x, listing[..i]);
      ScanStep(x, listing, i);
      match FormatOf(file) {
        case None =>
          assert done + [] == done;
        case Some(f) =>
          // the entry's row: its name and the cells its text is classified into
          var entry := EntryFor(x, file, f);
          report := report + ("| " + file + " | " + entry.status + " | " + entry.risk + " |\n");
          RenderedAppend(done, entry);
      }
      i := i + 1;
    }
    assert listing[..|listing|] == listing;
  }

  /** With no rows, the file holds the preamble alone. */
  lemma RenderedEmpty()
    ensures Rendered([]) == Title + "\n" + "\n" + Header + "\n" + Rule + "\n"
  {
    assert Preamble + Map(RowLine, []) == Preamble;
    PreambleText();
  }

  /** Adding a row to the table appends its line to the file. */
  lemma RenderedAppend(entries: seq<Entry>, e: Entry)
    ensures Rendered(entries + [e]) == Rendered(entries) + (RowLine(e) + "\n")
    ensures RowLine(e) + "\n" == "| " + e.file + " | " + e.status + " | " + e.risk + " |\n"
  {
    MapConcat(RowLine, entries, [e]);
    UnlinesConcat(Preamble + Map(RowLine, entries), [RowLine(e)]);
    assert Preamble + Map(RowLine, entries + [e])
        == (Preamble + Map(RowLine, entries)) + [RowLine(e)];
    assert [RowLine(e)][1..] == [];
  }

  /** Scanning one more entry of the listing adds its row, if it has
      one. */
  lemma ScanStep(x: Extractors, listing: seq<string>, i: nat)
    requires i < |listing|
    ensures Scan(x, listing[..i + 1]) ==
      Scan(x, listing[..i]) + if Row(x, listing[i]).Some? then [Row(x, listing[i]).value] else []
  {
    ScanConcat(x, listing[..i], [listing[i]]);
    assert listing[..i + 1] == listing[..i] + [listing[i]];
    FilterMapOne((name: string) => Row(x, name), listing[i]);
  }

  /** A folder with no recognised entry gives a report of the heading and
      the table header alone. */
  lemma NothingRecognised(x: Extractors, listing: seq<string>)
    requires forall i :: 0 <= i < |listing| ==> !Recognised(listing[i])
    ensures Rendered(Scan(x, listing)) == Title + "\n" + "\n" + Header + "\n" + Rule + "\n"
  {
    FilterNone(Recognised, listing);
    RowCount(x, listing);
    assert Preamble + Map(RowLine, Scan(x, listing)) == Preamble;
    PreambleText();
  }

  /** The preamble as written: the title, an empty line, the header and
      the rule, each closed by a newline. */
  lemma PreambleText()
    ensures Unlines(Preamble) == Title + "\n" + "\n" + Header + "\n" + Rule + "\n"
  {
    UnlinesFour(Title, "", Header, Rule);
    assert Title + "\n" + "" == Title + "\n";
  }

  // ---------------------------------------------------------------------
  // Reading the report back

  /** A cell `" v "` of a table row, as `v`. */
  function CellValue(cell: string): Option<string> {
    if |cell| >= 2 && cell[0] == ' ' && cell[|cell| - 1] == ' ' then Some(cell[1..|cell| - 1])
    else None
  }

  /** The entry a table row states, or `None` when the line is not a
      three-cell row. */
  function ParseRow(line: string): Option<Entry> {
    var cells := Split('|', line);
    if |cells| != 5 || cells[0] != "" || cells[4] != "" then None
    else
      match (CellValue(cells[1]), CellValue(cells[2]), CellValue(cells[3]))
      case (Some(file), Some(status), Some(risk)) => Some(Entry(file, status, risk))
      case _ => None
  }

  function ParseRows(lines: seq<string>): Option<seq<Entry>>
    decreases |lines|
  {
    if |lines| == 0 then Some([])
    else
      match (ParseRow(lines[0]), ParseRows(lines[1..]))
      case (Some(e), Some(rest)) => Some([e] + rest)
      case _ => None
  }

  /** The rows of a report file, or `None` when the text is not one. */
  function ParseReport(text: string): Option<seq<Entry>> {
    var lines := Split('\n', text);
    if |lines| < |Preamble| + 1 || lines[..|Preamble|] != Preamble || lines[|lines| - 1] != "" then
      None
    else
      ParseRows(lines[|Preamble|..|lines| - 1])
  }

  /** An entry whose cells fit the table: no cell value holds a bar or a
      newline. */
  predicate FitsTable(e: Entry) {
    '|' !in e.file && '\n' !in e.file && '|' !in e.status && '\n' !in e.status
    && '|' !in e.risk && '\n' !in e.risk
  }

  /** A row line is its padded cells joined by bars. */
  lemma RowLineCells(e: Entry)
    ensures RowLine(e) == Join(['|'], ["", " " + e.file + " ", " " + e.status + " ", " " + e.risk + " ", ""])
  {
    var a, b, c := " " + e.file + " ", " " + e.status + " ", " " + e.risk + " ";
    var bar := ['|'];
    assert Join(bar, [c, ""]) == c + bar + Join(bar, [""]);
    assert Join(bar, [b, c, ""]) == b + bar + Join(bar, [c, ""]);
    assert Join(bar, [a, b, c, ""]) == a + bar + Join(bar, [b, c, ""]);
    assert Join(bar, ["", a, b, c, ""]) == "" + bar + Join(bar, [a, b, c, ""]);
  }

  /** A row whose cells fit the table reads back as its entry. */
  lemma ParseRowLine(e: Entry)
    requires FitsTable(e)
    ensures ParseRow(RowLine(e)) == Some(e)
    ensures '\n' !in RowLine(e)
  {
    var cells := ["", " " + e.file + " ", " " + e.status + " ", " " + e.risk + " ", ""];
    RowLineCells(e);
    SplitJoin('|', cells);
    assert CellValue(cells[1]) == Some(e.file);
    assert CellValue(cells[2]) == Some(e.status);
    assert CellValue(cells[3]) == Some(e.risk);
    JoinAvoids('\n', ['|'], cells);
  }

  lemma {:induction false} ParseRowLines(entries: seq<Entry>)
    requires forall i :: 0 <= i < |entries| ==> FitsTable(entries[i])
    ensures ParseRows(Map(RowLine, entries)) == Some(entries)
    ensures forall i :: 0 <= i < |entries| ==> '\n' !in Map(RowLine, entries)[i]
    decreases |entries|
  {
    if |entries| > 0 {
      ParseRowLine(entries[0]);
      ParseRowLines(entries[1..]);
      assert Map(RowLine, entries)[1..] == Map(RowLine, entries[1..]);
      assert entries == [entries[0]] + entries[1..];
      forall i | 0 <= i < |entries| ensures '\n' !in Map(RowLine, entries)[i] {
        ParseRowLine(entries[i]);
      }
    }
  }

  /** A report whose entries fit the table reads back as its entries. */
  lemma {:induction false} ReportReadsBack(entries: seq<Entry>)
    requires forall i :: 0 <= i < |entries| ==> FitsTable(entries[i])
    ensures ParseReport(Rendered(entries)) == Some(entries)
  {
    var rows := Map(RowLine, entries);
    var lines := Preamble + rows;
    ParseRowLines(entries);
    UnlinesIsJoin(lines);
    assert "\n" == ['\n'];
    PreambleLines();
    forall i | 0 <= i < |lines + [""]| ensures '\n' !in (lines + [""])[i] {
      if i >= |Preamble| && i < |lines| {
        assert (lines + [""])[i] == rows[i - |Preamble|];
      }
    }
    SplitJoin('\n', lines + [""]);
    var split := lines + [""];
    assert split[..|Preamble|] == Preamble;
    assert split[|Preamble|..|split| - 1] == rows;
  }

  /** No preamble line holds a newline. */
  lemma PreambleLines()
    ensures forall i :: 0 <= i < |Preamble| ==> '\n' !in Preamble[i]
  {
    assert forall k :: 0 <= k < |Title| ==> Title[k] != '\n';
    assert forall k :: 0 <= k < |Header| ==> Header[k] != '\n';
    assert forall k :: 0 <= k < |Rule| ==> Rule[k] != '\n';
  }

  /** The row of an entry whose name holds no bar or newline fits the
      table: status and risk never hold one. */
  lemma EntryFits(x: Extractors, name: string, f: Format)
    requires '|' !in name && '\n' !in name
    ensures FitsTable(EntryFor(x, name, f))
  {
    var content := Content(x, name, f);
    var e := EntryFor(x, name, f);
    assert e == Entry(name, ScanText(content, name).0, ScanText(content, name).1);
    StatusStaysInCell(content, name);
    assert '|' !in HighRisk && '\n' !in HighRisk && '|' !in LowRisk && '\n' !in LowRisk;
  }

  /** The rows produced by a scan fit the table whenever no entry name
      holds a bar or a newline. */
  lemma ScannedRowsFit(x: Extractors, listing: seq<string>)
    requires forall i :: 0 <= i < |listing| ==> '|' !in listing[i] && '\n' !in listing[i]
    ensures forall i :: 0 <= i < |Scan(x, listing)| ==> FitsTable(Scan(x, listing)[i])
  {
    var r := Scan(x, listing);
    ScanFiles(x, listing);
    forall i | 0 <= i < |r| ensures FitsTable(r[i]) {
      var e := r[i];
      assert e.file == Filter(Recognised, listing)[i];
      assert e.file in listing;
      EntryFits(x, e.file, FormatOf(e.file).value);
    }
  }

  /** The written report of a folder whose entry names hold no bar or
      newline reads back as its rows: every recognised entry, in listing
      order, with its status and risk. */
  lemma WrittenReportReadsBack(x: Extractors, listing: seq<string>)
    requires forall i :: 0 <= i < |listing| ==> '|' !in listing[i] && '\n' !in listing[i]
    ensures ParseReport(Rendered(Scan(x, listing))) == Some(Scan(x, listing))
  {
    ScannedRowsFit(x, listing);
    ReportReadsBack(Scan(x, listing));
  }

  // ---------------------------------------------------------------------
  // Worked example

  /** The message python-docx raises when the path it is given is neither
      a directory nor a zip archive: the path is quoted in it. */
  function PackageNotFound(path: string): string {
    NotFoundHead + path + "'"
  }

  const NotFoundHead: string := "Package not found at '"
  const DocxErrorHead: string := "Error reading DOCX: "

  /** The text a DOCX entry that is not a zip archive is classified from:
      the error text, which carries the entry's own name. */
  function BrokenDocxText(name: string): string {
    ErrorText(Docx, PackageNotFound(PathOf(name)))
  }

  lemma BrokenDocxTextParts(name: string)
    ensures BrokenDocxText(name) == DocxErrorHead + (NotFoundHead + ("doc/" + name + "'"))
  {
  }

  /** A broken DOCX entry still gets its row, classified from the error
      text. */
  lemma BrokenDocxRow(x: Extractors, name: string)
    requires FormatOf(name) == Some(Docx)
    requires x.docx(PathOf(name)) == Err(PackageNotFound(PathOf(name)))
    ensures Scan(x, [name]) == [Entry(name, ScanText(BrokenDocxText(name), name).0,
      ScanText(BrokenDocxText(name), name).1)]
  {
    assert Content(x, name, Docx) == BrokenDocxText(name);
    assert [name][1..] == [];
  }

  /** A DOCX entry that is not a zip archive, and whose name has none of
      the letters h, m, w, j, b, v, u (`notes.docx`, say), gets a Safe
      row: the failure itself is not flagged. */
  lemma BrokenDocxExample(x: Extractors, name: string)
    requires FormatOf(name) == Some(Docx)
    requires x.docx(PathOf(name)) == Err(PackageNotFound(PathOf(name)))
    requires LacksAtoms(name)
    ensures Scan(x, [name]) == [Entry(name, SafeStatus, LowRisk)]
  {
    BrokenDocxRow(x, name);
    BrokenDocxTextMisses(name);
  }

  /** A DOCX entry that is not a zip archive and has `macro` in its name
      (`macro.docx`, say) is Suspicious, with `macro` among the issues:
      its name reaches the classified text through the error message. */
  lemma BrokenMacroDocxExample(x: Extractors, name: string, j: nat)
    requires FormatOf(name) == Some(Docx)
    requires x.docx(PathOf(name)) == Err(PackageNotFound(PathOf(name)))
    requires OccursFoldedAt("macro", name, j)
    ensures |Scan(x, [name])| == 1
    ensures Scan(x, [name])[0].file == name
    ensures Scan(x, [name])[0].status != SafeStatus
    ensures Scan(x, [name])[0].risk == HighRisk
    ensures "macro" in Issues(BrokenDocxText(name))
  {
    BrokenDocxRow(x, name);
    var k := BrokenDocxTextHasName("macro", name, j);
    MacroFlagged(BrokenDocxText(name), k, name);
  }

  /** Whatever occurs in the entry's name occurs in its broken-DOCX
      text. */
  lemma BrokenDocxTextHasName(w: string, name: string, j: nat) returns (k: nat)
    requires OccursFoldedAt(w, name, j)
    ensures OccursFoldedAt(w, BrokenDocxText(name), k)
  {
    var a := DocxErrorHead + NotFoundHead + "doc/";
    assert BrokenDocxText(name) == a + name + "'";
    OccursFoldedShift(w, a, name, "'", j);
    k := |a| + j;
  }

  /** One plain character of each of the first nine indicators. */
  lemma PlainAtoms()
    ensures Indicators[0].regex[0] == One(Exactly('h'))   // http://
    ensures Indicators[1].regex[0] == One(Exactly('h'))   // https?://.*bit.ly
    ensures Indicators[2].regex[1] == One(Exactly('m'))   // cmd
    ensures Indicators[3].regex[2] == One(Exactly('w'))   // powershell
    ensures Indicators[4].regex[0] == One(Exactly('j'))   // javascript
    ensures Indicators[5].regex[0] == One(Exactly('b'))   // base64
    ensures Indicators[6].regex[0] == One(Exactly('v'))   // vbscript
    ensures Indicators[7].regex[1] == One(Exactly('h'))   // shellcode
    ensures Indicators[8].regex[0] == One(Exactly('m'))   // macro
  {
  }

  /** Has none of the plain characters of `PlainAtoms`. */
  predicate LacksLetters(t: string) {
    && Lacks(t, 'h') && Lacks(t, 'm') && Lacks(t, 'w') && Lacks(t, 'j')
    && Lacks(t, 'b') && Lacks(t, 'v')
  }

  /** Has none of them, nor the `u` of AutoOpen. */
  predicate LacksAtoms(t: string) {
    LacksLetters(t) && Lacks(t, 'u')
  }

  lemma LacksLettersConcat(a: string, b: string)
    requires LacksLetters(a) && LacksLetters(b)
    ensures LacksLetters(a + b)
  {
    LacksConcat(a, b, 'h');
    LacksConcat(a, b, 'm');
    LacksConcat(a, b, 'w');
    LacksConcat(a, b, 'j');
    LacksConcat(a, b, 'b');
    LacksConcat(a, b, 'v');
  }

  lemma LacksAtomsConcat(a: string, b: string)
    requires LacksAtoms(a) && LacksAtoms(b)
    ensures LacksAtoms(a + b)
  {
    LacksLettersConcat(a, b);
    LacksConcat(a, b, 'u');
  }

  lemma DocxErrorHeadLacks()
    ensures LacksAtoms(DocxErrorHead)
  {
    forall k | 0 <= k < |DocxErrorHead|
      ensures DocxErrorHead[k] in {'E', 'r', 'o', ' ', 'e', 'a', 'd', 'i', 'n', 'g', 'D', 'O', 'C', 'X', ':'}
    {
    }
  }

  /** The message head has a `u` (in "found"), but no `u` before a `t`. */
  lemma NotFoundHeadLacks()
    ensures LacksLetters(NotFoundHead)
    ensures NoPair(NotFoundHead, 'u', 't')
  {
    forall k | 0 <= k < |NotFoundHead|
      ensures NotFoundHead[k] in {'P', 'a', 'c', 'k', 'g', 'e', ' ', 'n', 'o', 't', 'f', 'u', 'd', '\''}
    {
    }
    forall k | 0 <= k < |NotFoundHead| - 1 && Lower(NotFoundHead[k]) == 'u'
      ensures Lower(NotFoundHead[k + 1]) != 't'
    {
      assert k == 14;
    }
  }

  lemma PathTailLacks(name: string)
    requires LacksAtoms(name)
    ensures LacksAtoms("doc/" + name + "'")
  {
    forall k | 0 <= k < |"doc/"| ensures "doc/"[k] in {'d', 'o', 'c', '/'} {
    }
    assert LacksAtoms("'");
    LacksAtomsConcat("doc/", name);
    LacksAtomsConcat("doc/" + name, "'");
  }

  /** The error text of a broken DOCX entry without those letters in its
      name lacks the six plain characters and has no `u` before a `t`. */
  lemma BrokenDocxTextLacks(name: string)
    requires LacksAtoms(name)
    ensures LacksLetters(BrokenDocxText(name))
    ensures NoPair(BrokenDocxText(name), 'u', 't')
  {
    var a, b, c := DocxErrorHead, NotFoundHead, "doc/" + name + "'";
    BrokenDocxTextParts(name);
    DocxErrorHeadLacks();
    NotFoundHeadLacks();
    PathTailLacks(name);
    LacksLettersConcat(b, c);
    LacksLettersConcat(a, b + c);
    LacksNoPair(c, 'u', 't');
    LacksNoPair(a, 'u', 't');
    assert b[|b| - 1] == '\'';
    NoPairConcat(b, c, 'u', 't');
    assert a[|a| - 1] == ' ';
    NoPairConcat(a, b + c, 'u', 't');
  }

  lemma BrokenDocxTextMisses(name: string)
    requires LacksAtoms(name)
    ensures forall ind :: ind in Indicators ==> !Matches(ind, BrokenDocxText(name))
  {
    var t := BrokenDocxText(name);
    PlainAtoms();
    BrokenDocxTextLacks(name);
    forall i | 0 <= i < |Indicators| ensures !Matches(Indicators[i], t) {
      if i == 0 { NotFound(0, 0, 'h', t); }
      else if i == 1 { NotFound(1, 0, 'h', t); }
      else if i == 2 { NotFound(2, 1, 'm', t); }
      else if i == 3 { NotFound(3, 2, 'w', t); }
      else if i == 4 { NotFound(4, 0, 'j', t); }
      else if i == 5 { NotFound(5, 0, 'b', t); }
      else if i == 6 { NotFound(6, 0, 'v', t); }
      else if i == 7 { NotFound(7, 1, 'h', t); }
      else if i == 8 { NotFound(8, 0, 'm', t); }
      else {
        AutoOpenIsLiteral();
        PairNotFound("AutoOpen", 1, t);
      }
    }
  }
}

/**
 * The text of the two export files: a CSV file and a tab-separated file meant for a
 * spreadsheet, each a block of `#` metadata lines followed by a header line and one
 * record per FAQ. The reader functions here are the inverse the files are written
 * for: they read the quoted cells back.
 */
module ExportUtils {
  import opened Wrappers
  import opened Text
  import opened FaqTypes

  // ---------------------------------------------------------------------------
  // Quoted cells
  // ---------------------------------------------------------------------------

  /** `s.replace(/"/g, '""')`: every double quote doubled. */
  function Escape(s: string): (r: string)
    ensures '"' !in s ==> r == s
  {
    if s == [] then [] else (if s[0] == '"' then "\"\"" else [s[0]]) + Escape(s[1..])
  }

  /** A cell as written: the escaped text between double quotes. */
  function Cell(s: string): string {
    "\"" + Escape(s) + "\""
  }

  /** The cells of `xs`, in order. */
  function Cells(xs: seq<string>): (cs: seq<string>)
    ensures |cs| == |xs|
  {
    seq(|xs|, i requires 0 <= i < |xs| => Cell(xs[i]))
  }

  /**
   * Reads the inside of a quoted cell, `s` being what follows its opening quote: a
   * doubled quote stands for one quote, a single quote closes the cell. Returns the
   * text and what follows the closing quote.
   */
  function ReadQuoted(s: string): (r: Option<(string, string)>)
    ensures r.Some? ==> |r.value.1| < |s|
    decreases |s|
  {
    if s == [] then None
    else if s[0] == '"' then
      if |s| >= 2 && s[1] == '"' then
        match ReadQuoted(s[2..])
        case None => None
        case Some((t, rest)) => Some(("\"" + t, rest))
      else Some(([], s[1..]))
    else
      match ReadQuoted(s[1..])
      case None => None
      case Some((t, rest)) => Some(([s[0]] + t, rest))
  }

  /** `c` put in front of the text read, if any was. */
  function Prepend(c: char, r: Option<(string, string)>): Option<(string, string)> {
    match r
    case None => None
    case Some((t, rest)) => Some(([c] + t, rest))
  }

  lemma ReadQuotedDoubled(more: string)
    ensures ReadQuoted("\"\"" + more) == Prepend('"', ReadQuoted(more))
  {
    assert ("\"\"" + more)[2..] == more;
  }

  lemma ReadQuotedPlain(c: char, more: string)
    requires c != '"'
    ensures ReadQuoted([c] + more) == Prepend(c, ReadQuoted(more))
  {
    assert ([c] + more)[1..] == more;
  }

  /** Un-doubling recovers the text: the escaped text and its closing quote read back as the text. */
  lemma {:induction false} ReadQuotedEscape(x: string, rest: string)
    requires rest == [] || rest[0] != '"'
    ensures ReadQuoted(Escape(x) + "\"" + rest) == Some((x, rest))
    decreases |x|
  {
    if x == [] {
      assert Escape(x) + "\"" + rest == "\"" + rest;
      assert ("\"" + rest)[1..] == rest;
    } else {
      var more := Escape(x[1..]) + "\"" + rest;
      ReadQuotedEscape(x[1..], rest);
      EscapeFirst(x, rest);
      if x[0] == '"' {
        ReadQuotedDoubled(more);
      } else {
        ReadQuotedPlain(x[0], more);
      }
      assert [x[0]] + x[1..] == x;
    }
  }

  /** The escape of the first character, then the escape of the others and what follows. */
  lemma EscapeFirst(x: string, rest: string)
    requires x != []
    ensures Escape(x) + "\"" + rest == (if x[0] == '"' then "\"\"" else [x[0]]) + (Escape(x[1..]) + "\"" + rest)
  {
  }

  /**
   * Reads one record of quoted cells separated by `sep`, up to a line break or the
   * end of the text. Returns the cells and what follows the line break.
   */
  function ReadRecord(s: string, sep: char): (r: Option<(seq<string>, string)>)
    ensures r.Some? ==> |r.value.1| < |s|
    decreases |s|
  {
    if s == [] || s[0] != '"' then None
    else
      match ReadQuoted(s[1..])
      case None => None
      case Some((t, rest)) =>
        if rest == [] then Some(([t], []))
        else if rest[0] == '\n' then Some(([t], rest[1..]))
        else if rest[0] == sep then
          match ReadRecord(rest[1..], sep)
          case None => None
          case Some((ts, after)) => Some(([t] + ts, after))
        else None
  }

  /** Reads records until the text is used up. */
  function ReadRecords(s: string, sep: char): (r: Option<seq<seq<string>>>)
    decreases |s|
  {
    if s == [] then Some([])
    else
      match ReadRecord(s, sep)
      case None => None
      case Some((cells, after)) =>
        match ReadRecords(after, sep)
        case None => None
        case Some(rs) => Some([cells] + rs)
  }

  /** A record's cells after the first: the first cell and the separator come off. */
  lemma JoinCellsCons(xs: seq<string>, sep: char)
    requires |xs| >= 2
    ensures Join(Cells(xs), sep) == Cell(xs[0]) + [sep] + Join(Cells(xs[1..]), sep)
  {
    assert Cells(xs)[1..] == Cells(xs[1..]);
  }

  /** A cell followed by the separator: the rest of the record is read on. */
  lemma ReadRecordCellSep(x: string, sep: char, more: string)
    requires sep != '"' && sep != '\n'
    ensures ReadRecord(Cell(x) + [sep] + more, sep) ==
      match ReadRecord(more, sep)
      case None => None
      case Some((ts, after)) => Some(([x] + ts, after))
  {
    var s := Cell(x) + [sep] + more;
    assert s[0] == '"';
    assert s[1..] == Escape(x) + "\"" + ([sep] + more);
    ReadQuotedEscape(x, [sep] + more);
    assert ([sep] + more)[1..] == more;
  }

  /** A cell followed by the end of the line or of the text ends the record. */
  lemma ReadRecordCellEnd(x: string, sep: char, tail: string)
    requires sep != '"' && sep != '\n'
    requires tail == [] || tail[0] == '\n'
    ensures ReadRecord(Cell(x) + tail, sep) == Some(([x], if tail == [] then [] else tail[1..]))
  {
    var s := Cell(x) + tail;
    assert s[0] == '"';
    assert s[1..] == Escape(x) + "\"" + tail;
    ReadQuotedEscape(x, tail);
  }

  /** The cells of a record joined by `sep`; `tail` is the line break of the record or nothing. */
  lemma {:induction false} ReadRecordOfCells(xs: seq<string>, sep: char, tail: string)
    requires |xs| >= 1 && sep != '"' && sep != '\n'
    requires tail == [] || tail[0] == '\n'
    ensures ReadRecord(Join(Cells(xs), sep) + tail, sep) == Some((xs, if tail == [] then [] else tail[1..]))
    decreases |xs|
  {
    if |xs| == 1 {
      assert Cells(xs)[0] == Cell(xs[0]);
      assert Join(Cells(xs), sep) + tail == Cell(xs[0]) + tail;
      ReadRecordCellEnd(xs[0], sep, tail);
      assert [xs[0]] == xs;
    } else {
      JoinCellsCons(xs, sep);
      var more := Join(Cells(xs[1..]), sep) + tail;
      assert Join(Cells(xs), sep) + tail == Cell(xs[0]) + [sep] + more;
      ReadRecordCellSep(xs[0], sep, more);
      ReadRecordOfCells(xs[1..], sep, tail);
      assert [xs[0]] + xs[1..] == xs;
    }
  }

  /** Records written one per line read back as those records. */
  lemma {:induction false} ReadRecordsOfRows(rows: seq<seq<string>>, sep: char)
    requires sep != '"' && sep != '\n'
    requires forall k :: 0 <= k < |rows| ==> |rows[k]| >= 1
    ensures ReadRecords(Join(RowLines(rows, sep), '\n'), sep) == Some(rows)
    decreases |rows|
  {
    var ls := RowLines(rows, sep);
    if |rows| == 1 {
      var j := Join(Cells(rows[0]), sep);
      assert Join(ls, '\n') == j;
      assert j + [] == j;
      ReadRecordOfCells(rows[0], sep, []);
      ReadRecordsCons(j, sep, rows[0], []);
      assert [rows[0]] + [] == rows;
    } else if |rows| > 1 {
      var more := Join(RowLines(rows[1..], sep), '\n');
      var j := Join(Cells(rows[0]), sep) + ("\n" + more);
      assert ls[1..] == RowLines(rows[1..], sep);
      assert Join(ls, '\n') == j;
      ReadRecordOfCells(rows[0], sep, "\n" + more);
      assert ("\n" + more)[1..] == more;
      ReadRecordsCons(j, sep, rows[0], more);
      ReadRecordsOfRows(rows[1..], sep);
      assert [rows[0]] + rows[1..] == rows;
    }
  }

  /** A text that starts with a record reads as that record and then the records after it. */
  lemma ReadRecordsCons(s: string, sep: char, cells: seq<string>, after: string)
    requires ReadRecord(s, sep) == Some((cells, after))
    ensures ReadRecords(s, sep) ==
      match ReadRecords(after, sep)
      case None => None
      case Some(rs) => Some([cells] + rs)
  {
    assert s != [];
  }

  /** Each row of cells as one line of text. */
  function RowLines(rows: seq<seq<string>>, sep: char): (ls: seq<string>)
    ensures |ls| == |rows|
  {
    seq(|rows|, k requires 0 <= k < |rows| => Join(Cells(rows[k]), sep))
  }

  /** Reads a header line `header` and then records separated by `sep`. */
  function ReadBody(s: string, header: string, sep: char): (r: Option<seq<seq<string>>>) {
    if s == header then Some([])
    else if StartsWith(s, header + "\n") then ReadRecords(s[|header| + 1..], sep)
    else None
  }

  /** A header line and records, one per line, read back as those records. */
  lemma ReadBodyOfRows(header: string, rows: seq<seq<string>>, sep: char)
    requires sep != '"' && sep != '\n'
    requires forall k :: 0 <= k < |rows| ==> |rows[k]| >= 1
    ensures ReadBody(Join([header] + RowLines(rows, sep), '\n'), header, sep) == Some(rows)
  {
    var lines := RowLines(rows, sep);
    var s := Join([header] + lines, '\n');
    ReadRecordsOfRows(rows, sep);
    if rows == [] {
      assert s == header;
    } else {
      assert ([header] + lines)[1..] == lines;
      assert s == header + "\n" + Join(lines, '\n');
      assert s[|header| + 1..] == Join(lines, '\n');
      assert s != header by {
        assert |s| > |header|;
      }
    }
  }

  // ---------------------------------------------------------------------------
  // Field texts
  // ---------------------------------------------------------------------------

  /** The confidence as the record stores it. */
  function ConfidenceText(c: Confidence): (r: string)
    ensures '"' !in r && '\n' !in r
  {
    match c
    case High => "high"
    case Medium => "medium"
    case Low => "low"
  }

  /** A boolean inside a template literal. */
  function BoolText(b: bool): (r: string)
    ensures '"' !in r
  {
    if b then "true" else "false"
  }

  /** A boolean in the spreadsheet. */
  function YesNo(b: bool): (r: string)
    ensures r == "Yes" <==> b
  {
    if b then "Yes" else "No"
  }

  /**
   * `answer.split(' ').length`: the number of spaces plus one, so the empty answer
   * counts as one word.
   */
  function WordCount(answer: string): (n: nat)
    ensures n == Count(answer, ' ') + 1
  {
    |Split(answer, ' ')|
  }

  // ---------------------------------------------------------------------------
  // exportToCSV
  // ---------------------------------------------------------------------------

  const CsvHeaders: seq<string> :=
    ["Question", "Answer", "Category", "Source URL", "Confidence", "Is Incomplete", "Is Duplicate", "Extracted At"]

  /** The eight values of one CSV record, in header order. */
  function CsvFields(f: FAQItem): (xs: seq<string>)
    ensures |xs| == |CsvHeaders|
  {
    [f.question, f.answer, f.category, f.sourceUrl, ConfidenceText(f.confidence), BoolText(f.isIncomplete),
     BoolText(f.isDuplicate), f.extractedAt]
  }

  /** A field only put between quotes. */
  function Quoted(s: string): string {
    "\"" + s + "\""
  }

  /** Text without a double quote needs no escaping. */
  lemma QuotedIsCell(s: string)
    requires '"' !in s
    ensures Quoted(s) == Cell(s)
  {
  }

  /** The cells of a CSV record: question and answer escaped, the other six only put between quotes. */
  function CsvCells(f: FAQItem): (cs: seq<string>)
    ensures |cs| == |CsvHeaders|
  {
    [Cell(f.question), Cell(f.answer), Quoted(f.category), Quoted(f.sourceUrl), Quoted(ConfidenceText(f.confidence)),
     Quoted(BoolText(f.isIncomplete)), Quoted(BoolText(f.isDuplicate)), Quoted(f.extractedAt)]
  }

  /** A CSV record as one line. */
  function CsvRow(f: FAQItem): string {
    Join(CsvCells(f), ',')
  }

  /** The six unescaped fields are safe when the three free-text ones hold no double quote. */
  predicate PlainFieldsUnquoted(f: FAQItem) {
    '"' !in f.category && '"' !in f.sourceUrl && '"' !in f.extractedAt
  }

  /** Then a CSV record is exactly the quoted cells of its eight values. */
  lemma CsvRowIsCells(f: FAQItem)
    requires PlainFieldsUnquoted(f)
    ensures CsvRow(f) == Join(Cells(CsvFields(f)), ',')
  {
    QuotedIsCell(f.category);
    QuotedIsCell(f.sourceUrl);
    QuotedIsCell(ConfidenceText(f.confidence));
    QuotedIsCell(BoolText(f.isIncomplete));
    QuotedIsCell(BoolText(f.isDuplicate));
    QuotedIsCell(f.extractedAt);
    var xs := CsvFields(f);
    assert Cells(xs) == [Cell(xs[0]), Cell(xs[1]), Cell(xs[2]), Cell(xs[3]), Cell(xs[4]), Cell(xs[5]), Cell(xs[6]), Cell(xs[7])];
  }

  /** The CSV header line. */
  function CsvHeader(): string {
    Join(CsvHeaders, ',')
  }

  /** The header line and then one record per FAQ, in input order, joined by line breaks. */
  function CsvBody(faqs: seq<FAQItem>): string {
    Join([CsvHeader()] + seq(|faqs|, k requires 0 <= k < |faqs| => CsvRow(faqs[k])), '\n')
  }

  /** Reading a CSV body: the header line, then the quoted records. */
  function ReadCsvBody(s: string): (r: Option<seq<seq<string>>>) {
    ReadBody(s, CsvHeader(), ',')
  }

  /**
   * The CSV body reads back as the eight values of every FAQ, in input order, with
   * question and answer exactly as they were.
   */
  lemma CsvBodyReadsBack(faqs: seq<FAQItem>)
    requires forall k :: 0 <= k < |faqs| ==> PlainFieldsUnquoted(faqs[k])
    ensures ReadCsvBody(CsvBody(faqs)) == Some(seq(|faqs|, k requires 0 <= k < |faqs| => CsvFields(faqs[k])))
  {
    var rows := seq(|faqs|, k requires 0 <= k < |faqs| => CsvFields(faqs[k]));
    var lines := seq(|faqs|, k requires 0 <= k < |faqs| => CsvRow(faqs[k]));
    forall k | 0 <= k < |faqs| ensures lines[k] == RowLines(rows, ',')[k] {
      CsvRowIsCells(faqs[k]);
    }
    assert lines == RowLines(rows, ',');
    ReadBodyOfRows(CsvHeader(), rows, ',');
  }

  /** The metadata block of the CSV file; `exportDate` is the time of export and `hostname` that of `sourceUrl`. */
  function CsvMetadataLines(sourceUrl: string, exportDate: string, total: nat, hostname: string): seq<string> {
    ["# FAQ Export Metadata", "# Extracted From: " + sourceUrl, "# Export Date: " + exportDate,
     "# Total Items: " + NatToString(total), "# Source Domain: " + hostname, "", ""]
  }

  /**
   * `exportToCSV` up to the download: the metadata block and then the body. `host`
   * stands for `new URL(sourceUrl).hostname`, `None` for the exception it throws.
   */
  function CsvContent(faqs: seq<FAQItem>, sourceUrl: string, exportDate: string, host: string -> Option<string>): (r: Option<string>)
    ensures r.Some? <==> host(sourceUrl).Some?
  {
    match host(sourceUrl)
    case None => None
    case Some(hostname) => Some(Join(CsvMetadataLines(sourceUrl, exportDate, |faqs|, hostname), '\n') + CsvBody(faqs))
  }

  /**
   * The fourth line of the file states the number of items, as a number that reads
   * back as `|faqs|`, and the body follows the blank line that ends the metadata.
   */
  lemma CsvTotalItems(faqs: seq<FAQItem>, sourceUrl: string, exportDate: string, host: string -> Option<string>)
    requires host(sourceUrl).Some?
    requires '\n' !in sourceUrl && '\n' !in exportDate && '\n' !in host(sourceUrl).value
    ensures var ls := Text.Lines(CsvContent(faqs, sourceUrl, exportDate, host).value);
      |ls| > 5 && ls[3] == "# Total Items: " + NatToString(|faqs|) && ls[5] == ""
    ensures ParseNat(NatToString(|faqs|)) == |faqs|
  {
    var ms := CsvMetadataLines(sourceUrl, exportDate, |faqs|, host(sourceUrl).value);
    var body := CsvBody(faqs);
    assert CsvContent(faqs, sourceUrl, exportDate, host).value == Join(ms, '\n') + body;
    CsvMetadataOneLineEach(sourceUrl, exportDate, |faqs|, host(sourceUrl).value);
    SplitJoinAt(ms, body, '\n', 3);
    SplitJoinAt(ms, body, '\n', 5);
    ParseNatToString(|faqs|);
  }

  lemma CsvMetadataOneLineEach(sourceUrl: string, exportDate: string, total: nat, hostname: string)
    requires '\n' !in sourceUrl && '\n' !in exportDate && '\n' !in hostname
    ensures var ms := CsvMetadataLines(sourceUrl, exportDate, total, hostname);
      forall k :: 0 <= k < |ms| ==> '\n' !in ms[k]
  {
    NoNewlineInNumber(total);
  }

  lemma NoNewlineInNumber(n: nat)
    ensures '\n' !in NatToString(n)
  {
    var s := NatToString(n);
    assert forall i :: 0 <= i < |s| ==> s[i] != '\n';
  }

  /** Every piece of a block joined by `c`, except the last, is a line of the split block and what follows it. */
  lemma {:induction false} SplitJoinAt(ps: seq<string>, rest: string, c: char, k: nat)
    requires k + 1 < |ps| && forall j :: 0 <= j < |ps| ==> c !in ps[j]
    ensures |Split(Join(ps, c) + rest, c)| > k + 1 && Split(Join(ps, c) + rest, c)[k] == ps[k]
    decreases |ps|
  {
    var more := Join(ps[1..], c) + rest;
    assert Join(ps, c) + rest == ps[0] + ([c] + more);
    SplitPiece(ps[0], more, c);
    if k > 0 {
      SplitJoinAt(ps[1..], rest, c, k - 1);
    } else if |ps| > 2 {
      SplitJoinAt(ps[1..], rest, c, 0);
    } else {
      assert |Split(more, c)| >= 1;
    }
  }

  /** A piece without the separator, then the separator, splits off as one part. */
  lemma {:induction false} SplitPiece(p: string, more: string, c: char)
    requires c !in p
    ensures Split(p + ([c] + more), c) == [p] + Split(more, c)
    decreases |p|
  {
    if p == [] {
      assert p + ([c] + more) == [c] + more;
      assert ([c] + more)[1..] == more;
    } else {
      var s := p + ([c] + more);
      assert s[1..] == p[1..] + ([c] + more);
      SplitPiece(p[1..], more, c);
      assert [p[0]] + p[1..] == p;
    }
  }

  // ---------------------------------------------------------------------------
  // exportToExcel
  // ---------------------------------------------------------------------------

  /** A string of decimal digits. */
  predicate Numeral(s: string) {
    forall i :: 0 <= i < |s| ==> IsDigit(s[i])
  }

  const ExcelHeaders: seq<string> :=
    ["ID", "Question", "Answer", "Category", "Source URL", "Confidence Level", "Is Incomplete", "Is Duplicate",
     "Extracted At", "Word Count (Answer)", "Character Count (Answer)"]

  /**
   * The eleven values of one spreadsheet record, in header order; `localeDate`
   * stands for `new Date(extractedAt).toLocaleString()`.
   */
  function ExcelFields(f: FAQItem, localeDate: string -> string): (xs: seq<string>)
    ensures |xs| == |ExcelHeaders|
    ensures xs[6] == "Yes" <==> f.isIncomplete
    ensures xs[7] == "Yes" <==> f.isDuplicate
    ensures Numeral(xs[9]) && Numeral(xs[10])
    ensures ParseNat(xs[9]) == Count(f.answer, ' ') + 1
    ensures ParseNat(xs[10]) == |f.answer|
  {
    ParseNatToString(WordCount(f.answer));
    ParseNatToString(|f.answer|);
    [f.id, f.question, f.answer, f.category, f.sourceUrl, ConfidenceText(f.confidence), YesNo(f.isIncomplete),
     YesNo(f.isDuplicate), localeDate(f.extractedAt), NatToString(WordCount(f.answer)), NatToString(|f.answer|)]
  }

  /** The spreadsheet header line. */
  function ExcelHeader(): string {
    Join(ExcelHeaders, '\t')
  }

  /** The values of every record, in input order. */
  function ExcelRows(faqs: seq<FAQItem>, localeDate: string -> string): (rows: seq<seq<string>>)
    ensures |rows| == |faqs|
    ensures forall k :: 0 <= k < |rows| ==> rows[k] == ExcelFields(faqs[k], localeDate)
  {
    seq(|faqs|, k requires 0 <= k < |faqs| => ExcelFields(faqs[k], localeDate))
  }

  /** The header line, then every record as its quoted cells joined by tabs. */
  function ExcelBody(faqs: seq<FAQItem>, localeDate: string -> string): string {
    Join([ExcelHeader()] + RowLines(ExcelRows(faqs, localeDate), '\t'), '\n')
  }

  /** Reading a spreadsheet body: the header line, then the quoted records. */
  function ReadExcelBody(s: string): (r: Option<seq<seq<string>>>) {
    ReadBody(s, ExcelHeader(), '\t')
  }

  /** Every cell is escaped, so the body reads back as every value of every FAQ, whatever the text. */
  lemma ExcelBodyReadsBack(faqs: seq<FAQItem>, localeDate: string -> string)
    ensures ReadExcelBody(ExcelBody(faqs, localeDate)) == Some(ExcelRows(faqs, localeDate))
  {
    ReadBodyOfRows(ExcelHeader(), ExcelRows(faqs, localeDate), '\t');
  }

  /** How many items carry confidence `c`. */
  function CountConfidence(faqs: seq<FAQItem>, c: Confidence): (n: nat)
    ensures n <= |faqs|
  {
    if faqs == [] then 0 else (if faqs[0].confidence == c then 1 else 0) + CountConfidence(faqs[1..], c)
  }

  /** How many items satisfy `p`. */
  function CountWhere(faqs: seq<FAQItem>, p: FAQItem -> bool): (n: nat)
    ensures n <= |faqs|
  {
    if faqs == [] then 0 else (if p(faqs[0]) then 1 else 0) + CountWhere(faqs[1..], p)
  }

  /** Every item has exactly one of the three confidences, so the three counts add up to the total. */
  lemma {:induction false} ConfidenceCountsSum(faqs: seq<FAQItem>)
    ensures CountConfidence(faqs, High) + CountConfidence(faqs, Medium) + CountConfidence(faqs, Low) == |faqs|
  {
    if faqs != [] {
      ConfidenceCountsSum(faqs[1..]);
    }
  }

  /** The metadata block of the spreadsheet file, with its summary counts. */
  function ExcelMetadataLines(faqs: seq<FAQItem>, sourceUrl: string, exportDate: string, hostname: string): seq<string> {
    ExcelSourceLines(sourceUrl, exportDate, |faqs|, hostname)
    + ExcelCountLines(CountConfidence(faqs, High), CountConfidence(faqs, Medium), CountConfidence(faqs, Low),
                      CountWhere(faqs, (f: FAQItem) => f.isIncomplete), CountWhere(faqs, (f: FAQItem) => f.isDuplicate))
    + ["", "# FAQ DATA SHEET", ""]
  }

  /** The summary lines about the source: where from, when, how many items. */
  function ExcelSourceLines(sourceUrl: string, exportDate: string, total: nat, hostname: string): seq<string> {
    ["# METADATA SHEET", "# FAQ Export Summary", "# Extracted From\t" + sourceUrl, "# Export Date\t" + exportDate,
     "# Total Items\t" + NatToString(total), "# Source Domain\t" + hostname]
  }

  /** The summary lines with the confidence, incomplete and duplicate counts. */
  function ExcelCountLines(high: nat, medium: nat, low: nat, incomplete: nat, duplicate: nat): seq<string> {
    ["# High Confidence\t" + NatToString(high), "# Medium Confidence\t" + NatToString(medium),
     "# Low Confidence\t" + NatToString(low), "# Incomplete Items\t" + NatToString(incomplete),
     "# Duplicate Items\t" + NatToString(duplicate)]
  }

  /** `exportToExcel` up to the download: the metadata block and then the body. */
  function ExcelContent(faqs: seq<FAQItem>, sourceUrl: string, exportDate: string, host: string -> Option<string>,
                        localeDate: string -> string): (r: Option<string>)
    ensures r.Some? <==> host(sourceUrl).Some?
  {
    match host(sourceUrl)
    case None => None
    case Some(hostname) => Some(Join(ExcelMetadataLines(faqs, sourceUrl, exportDate, hostname), '\n') + ExcelBody(faqs, localeDate))
  }

  /**
   * The fifth line of the spreadsheet file states the number of items and the
   * seventh to ninth the high, medium and low counts, as numbers that read back as
   * those counts; the three add up to the number of items.
   */
  lemma ExcelSummaryCounts(faqs: seq<FAQItem>, sourceUrl: string, exportDate: string, host: string -> Option<string>,
                           localeDate: string -> string)
    requires host(sourceUrl).Some?
    requires '\n' !in sourceUrl && '\n' !in exportDate && '\n' !in host(sourceUrl).value
    ensures var ls := Text.Lines(ExcelContent(faqs, sourceUrl, exportDate, host, localeDate).value);
      && |ls| > 8
      && ls[4] == "# Total Items\t" + NatToString(|faqs|)
      && ls[6] == "# High Confidence\t" + NatToString(CountConfidence(faqs, High))
      && ls[7] == "# Medium Confidence\t" + NatToString(CountConfidence(faqs, Medium))
      && ls[8] == "# Low Confidence\t" + NatToString(CountConfidence(faqs, Low))
    ensures ParseNat(NatToString(CountConfidence(faqs, High))) + ParseNat(NatToString(CountConfidence(faqs, Medium)))
      + ParseNat(NatToString(CountConfidence(faqs, Low))) == ParseNat(NatToString(|faqs|))
  {
    var ms := ExcelMetadataLines(faqs, sourceUrl, exportDate, host(sourceUrl).value);
    var src := ExcelSourceLines(sourceUrl, exportDate, |faqs|, host(sourceUrl).value);
    var high, medium, low := CountConfidence(faqs, High), CountConfidence(faqs, Medium), CountConfidence(faqs, Low);
    var cnt := ExcelCountLines(high, medium, low, CountWhere(faqs, (f: FAQItem) => f.isIncomplete),
                               CountWhere(faqs, (f: FAQItem) => f.isDuplicate));
    assert ms[4] == src[4] && ms[6] == cnt[0] && ms[7] == cnt[1] && ms[8] == cnt[2];
    ExcelLineAt(faqs, sourceUrl, exportDate, host, localeDate, 4);
    ExcelLineAt(faqs, sourceUrl, exportDate, host, localeDate, 6);
    ExcelLineAt(faqs, sourceUrl, exportDate, host, localeDate, 7);
    ExcelLineAt(faqs, sourceUrl, exportDate, host, localeDate, 8);
    ParseNatToString(|faqs|);
    ParseNatToString(high);
    ParseNatToString(medium);
    ParseNatToString(low);
    ConfidenceCountsSum(faqs);
  }

  /** Each metadata entry but the last is a line of the spreadsheet file. */
  lemma ExcelLineAt(faqs: seq<FAQItem>, sourceUrl: string, exportDate: string, host: string -> Option<string>,
                    localeDate: string -> string, k: nat)
    requires host(sourceUrl).Some?
    requires '\n' !in sourceUrl && '\n' !in exportDate && '\n' !in host(sourceUrl).value
    requires k + 1 < |ExcelMetadataLines(faqs, sourceUrl, exportDate, host(sourceUrl).value)|
    ensures var ls := Text.Lines(ExcelContent(faqs, sourceUrl, exportDate, host, localeDate).value);
      |ls| > k + 1 && ls[k] == ExcelMetadataLines(faqs, sourceUrl, exportDate, host(sourceUrl).value)[k]
  {
    var ms := ExcelMetadataLines(faqs, sourceUrl, exportDate, host(sourceUrl).value);
    var body := ExcelBody(faqs, localeDate);
    assert ExcelContent(faqs, sourceUrl, exportDate, host, localeDate).value == Join(ms, '\n') + body;
    ExcelMetadataOneLineEach(faqs, sourceUrl, exportDate, host(sourceUrl).value);
    SplitJoinAt(ms, body, '\n', k);
  }

  lemma ExcelMetadataOneLineEach(faqs: seq<FAQItem>, sourceUrl: string, exportDate: string, hostname: string)
    requires '\n' !in sourceUrl && '\n' !in exportDate && '\n' !in hostname
    ensures var ms := ExcelMetadataLines(faqs, sourceUrl, exportDate, hostname);
      forall k :: 0 <= k < |ms| ==> '\n' !in ms[k]
  {
    var a := ExcelSourceLines(sourceUrl, exportDate, |faqs|, hostname);
    var b := ExcelCountLines(CountConfidence(faqs, High), CountConfidence(faqs, Medium), CountConfidence(faqs, Low),
                             CountWhere(faqs, (f: FAQItem) => f.isIncomplete), CountWhere(faqs, (f: FAQItem) => f.isDuplicate));
    var c: seq<string> := ["", "# FAQ DATA SHEET", ""];
    ExcelSourceOneLineEach(sourceUrl, exportDate, |faqs|, hostname);
    ExcelCountsOneLineEach(CountConfidence(faqs, High), CountConfidence(faqs, Medium), CountConfidence(faqs, Low),
                           CountWhere(faqs, (f: FAQItem) => f.isIncomplete), CountWhere(faqs, (f: FAQItem) => f.isDuplicate));
    assert forall k :: 0 <= k < |c| ==> '\n' !in c[k];
    OneLineEachAppend(a, b);
    OneLineEachAppend(a + b, c);
  }

  lemma ExcelSourceOneLineEach(sourceUrl: string, exportDate: string, total: nat, hostname: string)
    requires '\n' !in sourceUrl && '\n' !in exportDate && '\n' !in hostname
    ensures var ms := ExcelSourceLines(sourceUrl, exportDate, total, hostname);
      forall k :: 0 <= k < |ms| ==> '\n' !in ms[k]
  {
    NoNewlineInNumber(total);
  }

  lemma ExcelCountsOneLineEach(high: nat, medium: nat, low: nat, incomplete: nat, duplicate: nat)
    ensures var ms := ExcelCountLines(high, medium, low, incomplete, duplicate);
      forall k :: 0 <= k < |ms| ==> '\n' !in ms[k]
  {
    NoNewlineInNumber(high);
    NoNewlineInNumber(medium);
    NoNewlineInNumber(low);
    NoNewlineInNumber(incomplete);
    NoNewlineInNumber(duplicate);
  }

  /** Two blocks of single lines make a block of single lines. */
  lemma OneLineEachAppend(a: seq<string>, b: seq<string>)
    requires forall k :: 0 <= k < |a| ==> '\n' !in a[k]
    requires forall k :: 0 <= k < |b| ==> '\n' !in b[k]
    ensures forall k :: 0 <= k < |a + b| ==> '\n' !in (a + b)[k]
  {
  }
}

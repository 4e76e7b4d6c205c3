/** `processSinglePage`: one scraped page becomes a record of URL, title and
    content, written as a one-row CSV file and a PDF file whose names come
    from the slug of the URL.  The file system is a single outcome: either
    every write succeeds or the call throws. */
module PageOutput {
  import opened Wrappers
  import opened JsText
  import opened Slug

  datatype Metadata = Metadata(title: Option<string>)

  /** What a scrape returns.  A missing `metadata` object makes
      `page.metadata.title` throw. */
  datatype PageData = PageData(success: bool, markdown: string, metadata: Option<Metadata>)

  datatype PageRecord = PageRecord(url: string, title: string, content: string)

  /** The three lines the PDF shows: the title, the source line and the body. */
  datatype PdfText = PdfText(heading: string, source: string, body: string)

  datatype SavedPage = SavedPage(record: PageRecord, csvPath: string, csvText: string, pdfPath: string, pdf: PdfText)

  const DEFAULT_TITLE := "No Title Found"
  const CSV_HEADER := "url,title,content\n"
  const CSV_DIR := "output/csv"
  const PDF_DIR := "output/pdf"

  /** `page.metadata.title || "No Title Found"`: an absent or empty title is
      replaced, any other title is kept. */
  function TitleOf(metadata: Metadata): (title: string)
    ensures title != []
    ensures metadata.title.Some? && metadata.title.value != [] ==> title == metadata.title.value
    ensures metadata.title.None? || metadata.title.value == [] ==> title == DEFAULT_TITLE
  {
    match metadata.title
    case Some(t) => if t != [] then t else DEFAULT_TITLE
    case None => DEFAULT_TITLE
  }

  /** `content.replace(/"/g, '""')`. */
  function EscapeQuotes(s: string): (r: string)
    ensures |r| >= |s|
    ensures '"' !in s ==> r == s
  {
    if s == [] then []
    else (if s[0] == '"' then "\"\"" else [s[0]]) + EscapeQuotes(s[1..])
  }

  /** The row: every field between double quotes, only the content escaped.
      The URL comes first and the title second, both as they are; the
      escaped content comes last. */
  function CsvRow(record: PageRecord): (row: string)
    ensures var u, t, e := record.url, record.title, EscapeQuotes(record.content);
      && |row| == |u| + |t| + |e| + 8
      && row[..|u| + 4] == "\"" + u + "\",\""
      && row[|u| + 4..|u| + 4 + |t|] == t
      && row[|u| + 4 + |t|..] == "\",\"" + e + "\""
  {
    var u, t, e := record.url, record.title, EscapeQuotes(record.content);
    var row := ("\"" + u + "\",\"") + t + ("\",\"" + e + "\"");
    assert row == "\"" + u + "\",\"" + t + "\",\"" + e + "\"";
    row
  }

  /** The text of the CSV file. */
  function CsvText(record: PageRecord): (text: string)
    ensures StartsWith(text, CSV_HEADER)
  {
    CSV_HEADER + CsvRow(record)
  }

  /** `path.join(dir, name + ext)`. */
  function OutputPath(dir: string, name: string, ext: string): string {
    dir + "/" + name + ext
  }

  /** The call: the record, the two paths and the two documents, or `None`
      when it throws (no metadata object, or a write that fails). */
  function ProcessSinglePage(page: PageData, sourceUrl: string, parse: UrlParse, suffix: string, writesOk: bool): (saved: Option<SavedPage>)
    ensures saved.Some? <==> page.metadata.Some? && writesOk
    ensures saved.Some? ==>
      var s := saved.value;
      && s.record == PageRecord(sourceUrl, TitleOf(page.metadata.value), page.markdown)
      && s.csvText == CsvText(s.record)
      && FileIn(s.csvPath, CSV_DIR, Slugify(sourceUrl, parse, suffix), ".csv")
      && FileIn(s.pdfPath, PDF_DIR, Slugify(sourceUrl, parse, suffix), ".pdf")
  {
    var name := Slugify(sourceUrl, parse, suffix);
    match page.metadata
    case None => None
    case Some(metadata) =>
      var record := PageRecord(sourceUrl, TitleOf(metadata), page.markdown);
      if !writesOk then None
      else
        var csvPath, pdfPath := OutputPath(CSV_DIR, name, ".csv"), OutputPath(PDF_DIR, name, ".pdf");
        PathParts(CSV_DIR, name, ".csv");
        PathParts(PDF_DIR, name, ".pdf");
        Some(SavedPage(record, csvPath, CsvText(record), pdfPath,
                       PdfText(record.title, "Source: " + sourceUrl, record.content)))
  }

  /** `path` names the file `name` + `ext` in the directory `dir`. */
  predicate FileIn(path: string, dir: string, name: string, ext: string) {
    && |path| == |dir| + 1 + |name| + |ext|
    && StartsWith(path, dir + "/")
    && EndsWith(path, ext)
    && path[|dir| + 1..|path| - |ext|] == name
  }

  lemma PathParts(dir: string, name: string, ext: string)
    ensures FileIn(OutputPath(dir, name, ext), dir, name, ext)
  {
    var p := OutputPath(dir, name, ext);
    assert p == (dir + "/") + name + ext;
    assert p[..|dir| + 1] == dir + "/";
    assert p[|p| - |ext|..] == ext;
  }

  // A reader for the file, the partner of the writer: a quoted field ends at
  // a lone `"`, and `""` inside it stands for one `"`.

  /** Reads the inside of a quoted field up to its closing quote; answers the
      field and what follows the closing quote. */
  function ReadQuoted(s: string): (r: Option<(string, string)>)
    decreases |s|
    ensures r.Some? ==> |r.value.1| < |s|
  {
    if s == [] then None
    else if s[0] == '"' then
      if |s| >= 2 && s[1] == '"' then
        match ReadQuoted(s[2..])
        case None => None
        case Some((field, rest)) => Some(("\"" + field, rest))
      else Some(([], s[1..]))
    else
      match ReadQuoted(s[1..])
      case None => None
      case Some((field, rest)) => Some(([s[0]] + field, rest))
  }

  /** Reads `"field"` followed by `sep`. */
  function ReadField(s: string, sep: string): Option<(string, string)> {
    if |s| > 0 && s[0] == '"' then
      match ReadQuoted(s[1..])
      case None => None
      case Some((field, rest)) =>
        if StartsWith(rest, sep) then Some((field, rest[|sep|..])) else None
    else None
  }

  /** Reads the whole file back into a record: the header, then exactly
      three quoted fields separated by commas. */
  function ParseCsv(text: string): Option<PageRecord> {
    if !StartsWith(text, CSV_HEADER) then None
    else
      match ReadField(text[|CSV_HEADER|..], ",")
      case None => None
      case Some((url, r1)) =>
        match ReadField(r1, ",")
        case None => None
        case Some((title, r2)) =>
          match ReadField(r2, "")
          case None => None
          case Some((content, r3)) =>
            if r3 == [] then Some(PageRecord(url, title, content)) else None
  }

  // Lemmas

  /** Escaping the content and reading it back gives the content, as long as
      what follows the closing quote is not itself a quote. */
  lemma {:induction false} EscapeRoundTrip(content: string, rest: string)
    requires rest == [] || rest[0] != '"'
    ensures ReadQuoted(EscapeQuotes(content) + "\"" + rest) == Some((content, rest))
  {
    if content == [] {
      assert EscapeQuotes(content) + "\"" + rest == "\"" + rest;
      ReadQuotedEnd(rest);
    } else {
      EscapeRoundTrip(content[1..], rest);
      var tail := EscapeQuotes(content[1..]) + "\"" + rest;
      EscapeStep(content, rest);
      if content[0] == '"' {
        ReadQuotedPair(tail);
      } else {
        ReadQuotedChar(content[0], tail);
      }
      assert content == [content[0]] + content[1..];
    }
  }

  lemma EscapeStep(content: string, rest: string)
    requires content != []
    ensures EscapeQuotes(content) + "\"" + rest
      == (if content[0] == '"' then "\"\"" else [content[0]]) + (EscapeQuotes(content[1..]) + "\"" + rest)
  {
  }

  /** A lone quote closes the field. */
  lemma ReadQuotedEnd(t: string)
    requires t == [] || t[0] != '"'
    ensures ReadQuoted("\"" + t) == Some(([], t))
  {
    assert ("\"" + t)[1..] == t;
  }

  /** A doubled quote stands for one quote of the field. */
  lemma ReadQuotedPair(t: string)
    ensures ReadQuoted("\"\"" + t) == match ReadQuoted(t)
      case None => None
      case Some((field, rest)) => Some(("\"" + field, rest))
  {
    assert ("\"\"" + t)[2..] == t;
  }

  /** Any other character belongs to the field. */
  lemma ReadQuotedChar(c: char, t: string)
    requires c != '"'
    ensures ReadQuoted([c] + t) == match ReadQuoted(t)
      case None => None
      case Some((field, rest)) => Some(([c] + field, rest))
  {
    assert ([c] + t)[1..] == t;
  }

  /** One field written by the writer is read back by `ReadField`. */
  lemma FieldRoundTrip(written: string, field: string, sep: string, rest: string)
    requires written == EscapeQuotes(field)
    requires sep == [] || sep[0] != '"'
    requires sep == [] ==> rest == []
    ensures ReadField("\"" + written + "\"" + sep + rest, sep) == Some((field, rest))
  {
    var s := "\"" + written + "\"" + sep + rest;
    assert s[1..] == written + "\"" + (sep + rest);
    EscapeRoundTrip(field, sep + rest);
    assert (sep + rest)[|sep|..] == rest;
    assert (sep + rest)[..|sep|] == sep;
  }

  /** The file reads back as the record it was written from when neither the
      URL nor the title holds a `"`. */
  lemma CsvRoundTrip(record: PageRecord)
    requires '"' !in record.url && '"' !in record.title
    ensures ParseCsv(CsvText(record)) == Some(record)
  {
    var c := EscapeQuotes(record.content);
    var f3 := "\"" + c + "\"";
    var f2 := "\"" + record.title + "\"" + "," + f3;
    RowParts(record, f2, f3);
    FieldRoundTrip(record.url, record.url, ",", f2);
    FieldRoundTrip(record.title, record.title, ",", f3);
    assert f3 == "\"" + c + "\"" + "" + "";
    FieldRoundTrip(c, record.content, "", "");
  }

  /** The row after the header, cut at its field separators. */
  lemma RowParts(record: PageRecord, f2: string, f3: string)
    requires f3 == "\"" + EscapeQuotes(record.content) + "\""
    requires f2 == "\"" + record.title + "\"" + "," + f3
    ensures StartsWith(CsvText(record), CSV_HEADER)
    ensures CsvText(record)[|CSV_HEADER|..] == "\"" + record.url + "\"" + "," + f2
  {
  }

  /** The URL and the title are not escaped: a title such as `a"b` ends its
      field early, and the file no longer reads back as a record at all. */
  lemma UnescapedTitleBreaksRow(url: string, a: char, b: char, content: string)
    requires '"' !in url
    requires a != '"' && b != '"' && b != ','
    ensures ParseCsv(CsvText(PageRecord(url, [a, '"', b], content))) == None
  {
    var record := PageRecord(url, [a, '"', b], content);
    var f3 := "\"" + EscapeQuotes(content) + "\"";
    var f2 := "\"" + record.title + "\"" + "," + f3;
    var text := CsvText(record);
    RowParts(record, f2, f3);
    FieldRoundTrip(url, url, ",", f2);
    assert ReadField(text[|CSV_HEADER|..], ",") == Some((url, f2));
    AppendAssoc("\"" + record.title, "\"", ",", f3);
    FieldStopsAtQuote(a, b, "\"" + "," + f3);
    assert ReadField(f2, ",") == None;
  }

  lemma AppendAssoc(x: string, p: string, q: string, z: string)
    ensures x + p + q + z == x + (p + q + z)
  {
  }

  /** A field `"a"b..."` is read as `a`, and `b` is not a separator. */
  lemma FieldStopsAtQuote(a: char, b: char, tail: string)
    requires a != '"' && b != '"' && b != ','
    ensures ReadField("\"" + [a, '"', b] + tail, ",") == None
  {
    var f := "\"" + [a, '"', b] + tail;
    assert f[1..] == [a] + ("\"" + ([b] + tail));
    ReadQuotedEnd([b] + tail);
    ReadQuotedChar(a, "\"" + ([b] + tail));
    assert !StartsWith([b] + tail, ",");
  }

  /** A saved page's file reads back as its record when the URL and title
      hold no `"`, and the PDF shows the same title, URL and content. */
  lemma SavedPageReadsBack(page: PageData, sourceUrl: string, parse: UrlParse, suffix: string, writesOk: bool)
    requires ProcessSinglePage(page, sourceUrl, parse, suffix, writesOk).Some?
    requires '"' !in sourceUrl
    requires '"' !in ProcessSinglePage(page, sourceUrl, parse, suffix, writesOk).value.record.title
    ensures var s := ProcessSinglePage(page, sourceUrl, parse, suffix, writesOk).value;
      && ParseCsv(s.csvText) == Some(s.record)
      && s.pdf == PdfText(s.record.title, "Source: " + s.record.url, s.record.content)
  {
    CsvRoundTrip(ProcessSinglePage(page, sourceUrl, parse, suffix, writesOk).value.record);
  }
}

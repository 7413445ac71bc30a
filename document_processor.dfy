/**
 * `DocumentProcessor`: chooses a text extractor from the file name, the
 * fallback policy between the two PDF libraries, the paragraph joining of
 * DOCX files, and the answer policy for a topic's information.
 *
 * The file system and the libraries are inputs: each reader is given what
 * the library produced (or the text of the exception it raised, or that
 * it is not installed).
 */
module DocumentProcessor {
  import opened Wrappers
  import opened Text
  import opened Models

  // ---------------------------------------------------------------------
  // Choosing a reader
  // ---------------------------------------------------------------------

  datatype Reader = PlainText | Pdf | Docx

  /** The lower-cased extension of the original file name. */
  function Extension(filename: string): string {
    Lower(SplitExt(filename).1)
  }

  /** The reader `extract_text` dispatches to, or its error. */
  function ReaderFor(filename: string): (r: Result<Reader>)
    ensures r.Err? ==> r.error == "Unsupported file format: " + Extension(filename)
  {
    var ext := Extension(filename);
    if ext == ".txt" || ext == ".md" then Ok(PlainText)
    else if ext == ".pdf" then Ok(Pdf)
    else if ext == ".docx" then Ok(Docx)
    else Err("Unsupported file format: " + ext)
  }

  /** A file is read exactly when its extension is one of the four known
      ones, whatever the case of its letters. */
  lemma ReaderForKnownExtensions(filename: string)
    ensures ReaderFor(filename).Ok? <==> Extension(filename) in {".txt", ".md", ".pdf", ".docx"}
  {
  }

  // ---------------------------------------------------------------------
  // Plain text
  // ---------------------------------------------------------------------

  /** `_extract_text_from_txt`: `read` is the file's decoded text, or the
      message of the exception the last attempted decoding raised. */
  function PlainTextOf(read: Result<string>): (r: Result<string>)
    ensures read.Ok? ==> r == read
    ensures read.Err? ==> r == Err("Failed to read text file: " + read.error)
  {
    match read
    case Ok(t) => Ok(t)
    case Err(m) => Err("Failed to read text file: " + m)
  }

  // ---------------------------------------------------------------------
  // PDF
  // ---------------------------------------------------------------------

  /** What the first library's page loop produced: the text collected so
      far, and whether the loop ran to the end. */
  datatype PageScan = PageScan(text: string, complete: bool)

  /** The page loop over the outcomes of `page.extract_text()`; `Raised`
      ends the loop with the text collected before it. */
  function ScanPages(pages: seq<Reply>): (r: PageScan)
    ensures r.complete <==> forall k :: 0 <= k < |pages| ==> pages[k].Text?
    decreases |pages|
  {
    if pages == [] then PageScan("", true)
    else
      match pages[0]
      case Raised(_) => PageScan("", false)
      case Text(t) =>
        var rest := ScanPages(pages[1..]);
        assert forall k :: 1 <= k < |pages| ==> pages[k] == pages[1..][k - 1];
        PageScan(t + "\n\n" + rest.text, rest.complete)
  }

  /** The text collected before a failing page is all there is: later pages
      are never read. */
  lemma {:induction false} ScanStopsAtFailure(pages: seq<Reply>, k: nat)
    requires k < |pages| && pages[k].Raised?
    requires forall j :: 0 <= j < k ==> pages[j].Text?
    ensures ScanPages(pages).text == ScanPages(pages[..k]).text
    ensures !ScanPages(pages).complete
    decreases k
  {
    if k > 0 {
      ScanStopsAtFailure(pages[1..], k - 1);
      assert pages[1..][..k - 1] == pages[..k][1..];
    }
  }

  /** Every page that was read contributes its text and a blank line, so
      the collected text is at least twice as long as the pages read. */
  lemma {:induction false} ScanLength(pages: seq<Reply>)
    requires forall k :: 0 <= k < |pages| ==> pages[k].Text?
    ensures |ScanPages(pages).text| >= 2 * |pages|
    ensures pages != [] ==> EndsWith(ScanPages(pages).text, "\n\n")
    decreases |pages|
  {
    if pages != [] {
      var rest := pages[1..];
      ScanLength(rest);
      var t := pages[0].text;
      var r := ScanPages(rest).text;
      assert ScanPages(pages).text == t + "\n\n" + r;
      if rest == [] {
        assert ScanPages(pages).text == t + "\n\n";
      } else {
        AppendAssoc(t, "\n\n", r);
        assert ScanPages(pages).text[|t| + 2..] == r;
      }
    }
  }

  lemma ScanStep(pages: seq<Reply>, i: nat)
    requires i < |pages|
    ensures pages[i].Raised? ==> ScanPages(pages[i..]) == PageScan("", false)
    ensures pages[i].Text? ==>
      && ScanPages(pages[i..]).text == pages[i].text + "\n\n" + ScanPages(pages[i + 1..]).text
      && ScanPages(pages[i..]).complete == ScanPages(pages[i + 1..]).complete
  {
    assert pages[i..][1..] == pages[i + 1..];
  }

  /** The page loop of `_extract_text_from_pdf`. */
  method ReadPages(pages: seq<Reply>) returns (text: string, complete: bool)
    ensures PageScan(text, complete) == ScanPages(pages)
  {
    text := "";
    var i := 0;
    while i < |pages|
      invariant 0 <= i <= |pages|
      invariant forall k :: 0 <= k < i ==> pages[k].Text?
      invariant text + ScanPages(pages[i..]).text == ScanPages(pages).text
      invariant ScanPages(pages[i..]).complete == ScanPages(pages).complete
    {
      var page := pages[i];
      ScanStep(pages, i);
      if page.Raised? {
        return text, false;
      }
      AppendAssoc(text, page.text + "\n\n", ScanPages(pages[i + 1..]).text);
      text := text + page.text + "\n\n";
      i := i + 1;
    }
    complete := true;
  }

  const PdfFailure := "Failed to extract text from PDF. Ensure the PDF contains extractable text."

  /** `_extract_text_from_pdf`: `pages` is `None` when the first library is
      not installed, else the outcome of each page in turn (a failure to open
      the file is a failing first page); `miner` is `None` when the second
      library is not installed, else its text or its exception. */
  function PdfTextOf(pages: Option<seq<Reply>>, miner: Option<Result<string>>): Result<string> {
    var scan := if pages.Some? then ScanPages(pages.value) else PageScan("", false);
    if scan.complete && |Strip(scan.text)| > 100 then Ok(scan.text)
    else if miner.Some? && miner.value.Ok? then Ok(miner.value.value)
    else if Strip(scan.text) == "" then Err(PdfFailure)
    else Ok(scan.text)
  }

  /** Extraction fails exactly when the second library gives nothing and the
      first collected only whitespace. */
  lemma PdfFailsOnlyWhenBlank(pages: Option<seq<Reply>>, miner: Option<Result<string>>)
    ensures var scan := if pages.Some? then ScanPages(pages.value) else PageScan("", false);
      PdfTextOf(pages, miner).Err? <==> !(miner.Some? && miner.value.Ok?) && Strip(scan.text) == ""
    ensures PdfTextOf(pages, miner).Err? ==> PdfTextOf(pages, miner).error == PdfFailure
  {
  }

  /** A complete first pass with more than 100 visible characters wins,
      whatever the second library would say. */
  lemma PdfPrefersFirstLibrary(pages: seq<Reply>, miner: Option<Result<string>>)
    requires ScanPages(pages).complete && |Strip(ScanPages(pages).text)| > 100
    ensures PdfTextOf(Some(pages), miner) == Ok(ScanPages(pages).text)
  {
  }

  /** Text collected before a failing page is kept as the fallback when the
      second library fails too. */
  lemma PdfPartialTextKept(pages: seq<Reply>, k: nat, m: string)
    requires k < |pages| && pages[k].Raised?
    requires forall j :: 0 <= j < k ==> pages[j].Text?
    requires Strip(ScanPages(pages[..k]).text) != ""
    ensures PdfTextOf(Some(pages), Some(Err(m))) == Ok(ScanPages(pages[..k]).text)
  {
    ScanStopsAtFailure(pages, k);
  }

  /** The second library's answer is returned as it is, even when empty:
      the blank check only guards the first library's text. */
  lemma PdfMinerEmptyAccepted(pages: Option<seq<Reply>>)
    requires pages.None? || !ScanPages(pages.value).complete
    ensures PdfTextOf(pages, Some(Ok(""))) == Ok("")
  {
  }

  /** The `_extract_text_from_pdf` decision after the page loop. */
  method ExtractPdfText(pages: Option<seq<Reply>>, miner: Option<Result<string>>) returns (r: Result<string>)
    ensures r == PdfTextOf(pages, miner)
  {
    var text := "";
    if pages.Some? {
      var complete;
      text, complete := ReadPages(pages.value);
      if complete && |Strip(text)| > 100 {
        return Ok(text);
      }
    }
    if miner.Some? && miner.value.Ok? {
      return Ok(miner.value.value);
    }
    if Strip(text) == "" {
      return Err(PdfFailure);
    }
    return Ok(text);
  }

  // ---------------------------------------------------------------------
  // DOCX
  // ---------------------------------------------------------------------

  /** Every paragraph followed by a newline. */
  function Lines(paragraphs: seq<string>): string
    decreases |paragraphs|
  {
    if paragraphs == [] then "" else paragraphs[0] + "\n" + Lines(paragraphs[1..])
  }

  /** The joined text is the paragraphs joined by newlines with a final
      newline, so splitting it on newlines gives the paragraphs back (and an
      empty last piece) when no paragraph holds a newline itself. */
  lemma {:induction false} LinesIsJoin(paragraphs: seq<string>)
    ensures Lines(paragraphs) == Join(paragraphs + [""], '\n')
    decreases |paragraphs|
  {
    if paragraphs != [] {
      LinesIsJoin(paragraphs[1..]);
      var ps := paragraphs + [""];
      assert ps[1..] == paragraphs[1..] + [""];
    }
  }

  lemma LinesSplit(paragraphs: seq<string>)
    requires forall k :: 0 <= k < |paragraphs| ==> '\n' !in paragraphs[k]
    ensures Split(Lines(paragraphs), '\n') == paragraphs + [""]
  {
    LinesIsJoin(paragraphs);
    SplitJoin(paragraphs + [""], '\n');
  }

  const DocxMissing := "python-docx library is not available. Cannot extract text from DOCX files."

  /** `_extract_text_from_docx`: `doc` is `None` when the library is not
      installed, else the paragraphs' texts or the exception's message. */
  function DocxTextOf(doc: Option<Result<seq<string>>>): (r: Result<string>)
    ensures doc.None? ==> r == Err(DocxMissing)
    ensures doc.Some? && doc.value.Err? ==> r == Err("Failed to extract text from DOCX: " + doc.value.error)
  {
    match doc
    case None => Err(DocxMissing)
    case Some(Err(m)) => Err("Failed to extract text from DOCX: " + m)
    case Some(Ok(paragraphs)) => Ok(Lines(paragraphs))
  }

  method ExtractDocxText(doc: Option<Result<seq<string>>>) returns (r: Result<string>)
    ensures r == DocxTextOf(doc)
  {
    if doc.None? {
      return Err(DocxMissing);
    }
    if doc.value.Err? {
      return Err("Failed to extract text from DOCX: " + doc.value.error);
    }
    var paragraphs := doc.value.value;
    var text := "";
    var i := 0;
    while i < |paragraphs|
      invariant 0 <= i <= |paragraphs|
      invariant text + Lines(paragraphs[i..]) == Lines(paragraphs)
    {
      assert paragraphs[i..][1..] == paragraphs[i + 1..];
      AppendAssoc(text, paragraphs[i] + "\n", Lines(paragraphs[i + 1..]));
      text := text + paragraphs[i] + "\n";
      i := i + 1;
    }
    assert paragraphs[i..] == [];
    assert text + Lines(paragraphs[i..]) == text + "" == text;
    return Ok(text);
  }

  // ---------------------------------------------------------------------
  // extract_text
  // ---------------------------------------------------------------------

  /** What each library would produce for the uploaded file. */
  datatype Libraries = Libraries(
    plain: Result<string>,
    pages: Option<seq<Reply>>,
    miner: Option<Result<string>>,
    doc: Option<Result<seq<string>>>)

  /** `extract_text(file_path, original_filename)`. */
  function ExtractText(filename: string, libs: Libraries): Result<string> {
    match ReaderFor(filename)
    case Err(m) => Err(m)
    case Ok(PlainText) => PlainTextOf(libs.plain)
    case Ok(Pdf) => PdfTextOf(libs.pages, libs.miner)
    case Ok(Docx) => DocxTextOf(libs.doc)
  }

  /** An unknown extension is refused before any library is consulted. */
  lemma UnsupportedIgnoresLibraries(filename: string, a: Libraries, b: Libraries)
    requires Extension(filename) !in {".txt", ".md", ".pdf", ".docx"}
    ensures ExtractText(filename, a) == ExtractText(filename, b)
    ensures ExtractText(filename, a) == Err("Unsupported file format: " + Extension(filename))
  {
    ReaderForKnownExtensions(filename);
  }

  // ---------------------------------------------------------------------
  // Topic information
  // ---------------------------------------------------------------------

  /** The part of the document the information prompt quotes. */
  function InfoExcerpt(content: string): (r: string)
    ensures |r| <= 50000 && StartsWith(content, r)
  {
    Take(content, 50000)
  }

  /** `extract_topic_information(content, name, client)`, where
      `ask(name, excerpt)` is the client's answer to the prompt built from
      the topic's name and the excerpt. */
  function TopicInformation(content: string, name: string, ask: (string, string) -> Reply): (r: string)
    ensures |Strip(r)| >= 50
      || r == "No detailed information found for the topic '" + name + "' in the document."
      || (ask(name, InfoExcerpt(content)).Raised? &&
          r == "Error extracting information for topic '" + name + "': " + ask(name, InfoExcerpt(content)).message)
  {
    match ask(name, InfoExcerpt(content))
    case Raised(m) => "Error extracting information for topic '" + name + "': " + m
    case Text(info) =>
      if |Strip(info)| < 50 then "No detailed information found for the topic '" + name + "' in the document."
      else info
  }

  /** Only the first 50000 characters of the document matter. */
  lemma InformationReadsExcerpt(c1: string, c2: string, name: string, ask: (string, string) -> Reply)
    requires |c1| >= 50000 && |c2| >= 50000 && c1[..50000] == c2[..50000]
    ensures TopicInformation(c1, name, ask) == TopicInformation(c2, name, ask)
  {
    var e1, e2 := InfoExcerpt(c1), InfoExcerpt(c2);
    assert e1 == c1[..50000];
    assert e2 == c2[..50000];
    assert e1 == e2;
  }

  /** When the client raises, the message names the failure without the
      `"Error:"` marker the orchestrator looks for, as long as neither the
      topic's name nor the exception's text holds a colon. */
  lemma FailureLacksMarker(content: string, name: string, ask: (string, string) -> Reply)
    requires ask(name, InfoExcerpt(content)).Raised?
    requires ':' !in name && ':' !in ask(name, InfoExcerpt(content)).message
    ensures !Contains(TopicInformation(content, name, ask), "Error:")
  {
    var m := ask(name, InfoExcerpt(content)).message;
    FailureShape(content, name, ask);
    LeadColonFree(name);
    MarkerAbsent(FailureLead(name), m);
  }

  /** The failure message up to the colon. */
  function FailureLead(name: string): string {
    "Error extracting information for topic '" + name + "'"
  }

  lemma FailureShape(content: string, name: string, ask: (string, string) -> Reply)
    requires ask(name, InfoExcerpt(content)).Raised?
    ensures TopicInformation(content, name, ask) == FailureLead(name) + ": " + ask(name, InfoExcerpt(content)).message
  {
  }

  lemma LeadColonFree(name: string)
    requires ':' !in name
    ensures ':' !in FailureLead(name) && FailureLead(name)[|FailureLead(name)| - 1] == '\''
  {
    var lead := "Error extracting information for topic '";
    assert ':' !in lead;
  }

  /** `Error:` does not occur in `a + ": " + m` when the only colon is the
      one after `a`, and `a` ends with a quote. */
  lemma MarkerAbsent(a: string, m: string)
    requires ':' !in a && ':' !in m && |a| > 0 && a[|a| - 1] == '\''
    ensures !Contains(a + ": " + m, "Error:")
  {
    var r := a + ": " + m;
    forall i | 0 <= i <= |r|
      ensures !OccursAt(r, "Error:", i)
    {
      if i + 6 <= |r| {
        MarkerAbsentAt(a, m, i);
      }
    }
  }

  /** No six characters of `a + ": " + m` spell `Error:` when the only
      colon is the one after `a`, and `a` ends with a quote. */
  lemma MarkerAbsentAt(a: string, m: string, i: nat)
    requires ':' !in a && ':' !in m && |a| > 0 && a[|a| - 1] == '\''
    requires i + 6 <= |a| + 2 + |m|
    ensures (a + ": " + m)[i..i + 6] != "Error:"
  {
    var w := (a + ": " + m)[i..i + 6];
    if i + 5 < |a| {
      assert w[5] == a[i + 5];
    } else if i + 5 == |a| {
      assert w[4] == '\'';
    } else if i + 5 == |a| + 1 {
      assert w[5] == ' ';
    } else {
      assert w[5] == m[i + 5 - |a| - 2];
    }
  }

  /** A long enough answer is passed on unchanged. */
  lemma InformationKeepsAnswer(content: string, name: string, ask: (string, string) -> Reply)
    requires ask(name, InfoExcerpt(content)).Text?
    requires |Strip(ask(name, InfoExcerpt(content)).text)| >= 50
    ensures TopicInformation(content, name, ask) == ask(name, InfoExcerpt(content)).text
  {
  }
}

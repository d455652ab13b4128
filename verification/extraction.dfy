/**
 * Text extraction (`extract_text`): a dispatch on the upload's declared
 * MIME type. Plain text is decoded as strict UTF-8; PDF and DOCX content go
 * to parsing libraries that are not part of this model and appear here as
 * function parameters that either yield their content or raise.
 */
module Extraction {
  import opened Wrappers
  import opened Utf8
  import opened Strings

  const TextPlain := "text/plain"
  const ApplicationPdf := "application/pdf"
  const WordDocument := "application/vnd.openxmlformats-officedocument.wordprocessingml.document"

  const PdfErrorPrefix := "Error processing PDF file: "
  const DocxErrorPrefix := "Error processing DOCX file: "

  /** An uploaded file: the type the browser declared and the raw bytes. */
  datatype UploadedFile = UploadedFile(mimeType: string, content: seq<uint8>)

  /** The text returned and the error message shown to the user, if any. */
  datatype Extracted = Extracted(text: string, reported: Option<string>)

  /**
   * The parsing libraries. `openPdf` opens the byte stream and lists the
   * outcome of each page's text extraction in page order; `openDocx` opens
   * the document and lists its paragraphs' text. `Err` stands for an
   * exception raised by the library.
   */
  datatype Parsers = Parsers(
    openPdf: seq<uint8> -> Result<seq<Result<string>>>,
    openDocx: seq<uint8> -> Result<seq<string>>)

  /**
   * What the page loop leaves behind: the text of the pages before the
   * first failing one, and the report of that failure if there is one.
   */
  function PdfPagesText(pages: seq<Result<string>>): (e: Extracted)
  {
    if pages == [] then Extracted("", None)
    else if pages[0].Err? then Extracted("", Some(PdfErrorPrefix + pages[0].error))
    else
      var rest := PdfPagesText(pages[1..]);
      Extracted(pages[0].value + rest.text, rest.reported)
  }

  /** The text of a sequence of successful pages, concatenated. */
  function Concat(ts: seq<string>): string
  {
    if ts == [] then "" else ts[0] + Concat(ts[1..])
  }

  /** With no failing page the result is all pages' text in page order, and nothing is reported. */
  lemma {:induction false} PdfAllPagesOk(pages: seq<Result<string>>)
    requires forall k :: 0 <= k < |pages| ==> pages[k].Ok?
    ensures PdfPagesText(pages) == Extracted(Concat(seq(|pages|, k requires 0 <= k < |pages| => pages[k].value)), None)
  {
    if pages != [] {
      PdfAllPagesOk(pages[1..]);
      var all := seq(|pages|, k requires 0 <= k < |pages| => pages[k].value);
      assert all[1..] == seq(|pages[1..]|, k requires 0 <= k < |pages[1..]| => pages[1..][k].value);
    }
  }

  /**
   * With page f failing first, the text of the pages before it is kept and
   * exactly that failure is reported.
   */
  lemma {:induction false} PdfFirstFailure(pages: seq<Result<string>>, f: nat)
    requires f < |pages| && pages[f].Err?
    requires forall k :: 0 <= k < f ==> pages[k].Ok?
    ensures PdfPagesText(pages).reported == Some(PdfErrorPrefix + pages[f].error)
    ensures PdfPagesText(pages).text == PdfPagesText(pages[..f]).text
  {
    if f > 0 {
      assert pages[1..][..f - 1] == pages[..f][1..];
      PdfFirstFailure(pages[1..], f - 1);
    }
  }

  /** An error is reported exactly when some page fails, and then it is the only one. */
  lemma {:induction false} PdfReportedIffPageFails(pages: seq<Result<string>>)
    ensures PdfPagesText(pages).reported.Some? <==> exists k :: 0 <= k < |pages| && pages[k].Err?
  {
    if pages != [] {
      PdfReportedIffPageFails(pages[1..]);
      if pages[0].Ok? {
        if exists k :: 0 <= k < |pages| && pages[k].Err? {
          var k :| 0 <= k < |pages| && pages[k].Err?;
          assert pages[1..][k - 1].Err?;
        }
      }
    }
  }

  /** The page loop of the PDF branch: `text += page.get_text("text")` until a page raises. */
  method AccumulatePdfText(pages: seq<Result<string>>) returns (e: Extracted)
    ensures e == PdfPagesText(pages)
  {
    var text := "";
    var i := 0;
    while i < |pages|
      invariant 0 <= i <= |pages|
      invariant PdfPagesText(pages) == Extracted(text + PdfPagesText(pages[i..]).text, PdfPagesText(pages[i..]).reported)
    {
      assert pages[i..][1..] == pages[i + 1..];
      if pages[i].Err? {
        return Extracted(text, Some(PdfErrorPrefix + pages[i].error));
      }
      text := text + pages[i].value;
      i := i + 1;
    }
    assert pages[i..] == [];
    e := Extracted(text, None);
  }

  /**
   * `extract_text(uploaded_file)`. `Err` is the UnicodeDecodeError that
   * undecodable plain text raises out of the function; PDF and DOCX failures
   * are caught and reported instead.
   */
  function ExtractText(file: Option<UploadedFile>, parsers: Parsers): Result<Extracted>
  {
    if file.None? then Ok(Extracted("", None))
    else
      var f := file.value;
      if f.mimeType == TextPlain then
        match Decode(f.content)
        case Some(text) => Ok(Extracted(text, None))
        case None => Err("UnicodeDecodeError")
      else if f.mimeType == ApplicationPdf then
        match parsers.openPdf(f.content)
        case Err(msg) => Ok(Extracted("", Some(PdfErrorPrefix + msg)))
        case Ok(pages) => Ok(PdfPagesText(pages))
      else if f.mimeType == WordDocument then
        match parsers.openDocx(f.content)
        case Err(msg) => Ok(Extracted("", Some(DocxErrorPrefix + msg)))
        case Ok(paragraphs) => Ok(Extracted(Join(paragraphs, "\n"), None))
      else
        Ok(Extracted("", None))
  }

  /** The same dispatch, running the PDF page loop as the source does. */
  method ExtractTextOf(file: Option<UploadedFile>, parsers: Parsers) returns (r: Result<Extracted>)
    ensures r == ExtractText(file, parsers)
  {
    if file.None? {
      return Ok(Extracted("", None));
    }
    var f := file.value;
    if f.mimeType == TextPlain {
      var decoded := Decode(f.content);
      r := if decoded.Some? then Ok(Extracted(decoded.value, None)) else Err("UnicodeDecodeError");
    } else if f.mimeType == ApplicationPdf {
      var parsed := parsers.openPdf(f.content);
      if parsed.Err? {
        r := Ok(Extracted("", Some(PdfErrorPrefix + parsed.error)));
      } else {
        var e := AccumulatePdfText(parsed.value);
        r := Ok(e);
      }
    } else if f.mimeType == WordDocument {
      var parsed := parsers.openDocx(f.content);
      r := if parsed.Err? then Ok(Extracted("", Some(DocxErrorPrefix + parsed.error)))
           else Ok(Extracted(Join(parsed.value, "\n"), None));
    } else {
      r := Ok(Extracted("", None));
    }
  }

  predicate IsHandledType(mimeType: string)
  {
    mimeType == TextPlain || mimeType == ApplicationPdf || mimeType == WordDocument
  }

  /** No file, or a type none of the three branches handles, yields empty text and no report. */
  lemma EmptyForMissingOrUnknown(file: Option<UploadedFile>, parsers: Parsers)
    requires file.None? || !IsHandledType(file.value.mimeType)
    ensures ExtractText(file, parsers) == Ok(Extracted("", None))
  {
  }

  /** Extraction raises only for plain text that is not valid UTF-8; PDF and DOCX failures are caught. */
  lemma RaisesOnlyOnUndecodablePlainText(file: Option<UploadedFile>, parsers: Parsers)
    ensures ExtractText(file, parsers).Err? <==>
      file.Some? && file.value.mimeType == TextPlain && Decode(file.value.content).None?
  {
  }

  /** A plain-text upload holding the UTF-8 encoding of a text yields exactly that text. */
  lemma PlainTextRoundTrip(text: string, parsers: Parsers)
    ensures ExtractText(Some(UploadedFile(TextPlain, Encode(text))), parsers) == Ok(Extracted(text, None))
  {
    DecodeEncode(text);
  }

  /** A DOCX that opens yields its paragraphs joined by newlines; one that raises yields "" and its report. */
  lemma DocxOutcome(content: seq<uint8>, parsers: Parsers)
    ensures parsers.openDocx(content).Ok? ==>
      ExtractText(Some(UploadedFile(WordDocument, content)), parsers)
        == Ok(Extracted(Join(parsers.openDocx(content).value, "\n"), None))
    ensures parsers.openDocx(content).Err? ==>
      ExtractText(Some(UploadedFile(WordDocument, content)), parsers)
        == Ok(Extracted("", Some(DocxErrorPrefix + parsers.openDocx(content).error)))
  {
  }

  /** A PDF that does not open yields "" and its report; one that opens yields what its page loop leaves. */
  lemma PdfOutcome(content: seq<uint8>, parsers: Parsers)
    ensures parsers.openPdf(content).Err? ==>
      ExtractText(Some(UploadedFile(ApplicationPdf, content)), parsers)
        == Ok(Extracted("", Some(PdfErrorPrefix + parsers.openPdf(content).error)))
    ensures parsers.openPdf(content).Ok? ==>
      ExtractText(Some(UploadedFile(ApplicationPdf, content)), parsers)
        == Ok(PdfPagesText(parsers.openPdf(content).value))
  {
  }

  /**
   * A PDF that opens and whose page f is the first to raise yields the
   * text of pages 0..f-1 concatenated, with page f's error reported.
   */
  lemma PdfKeepsPagesBeforeFailure(content: seq<uint8>, parsers: Parsers, f: nat)
    requires parsers.openPdf(content).Ok?
    requires f < |parsers.openPdf(content).value| && parsers.openPdf(content).value[f].Err?
    requires forall k :: 0 <= k < f ==> parsers.openPdf(content).value[k].Ok?
    ensures var pages := parsers.openPdf(content).value;
      ExtractText(Some(UploadedFile(ApplicationPdf, content)), parsers)
        == Ok(Extracted(Concat(seq(f, k requires 0 <= k < f => pages[k].value)), Some(PdfErrorPrefix + pages[f].error)))
  {
    var pages := parsers.openPdf(content).value;
    PdfFirstFailure(pages, f);
    PdfAllPagesOk(pages[..f]);
    assert seq(|pages[..f]|, k requires 0 <= k < |pages[..f]| => pages[..f][k].value)
        == seq(f, k requires 0 <= k < f => pages[k].value);
  }
}

/**
 * The text assembly of `extract_text_from_file` (utils.py). The parsing libraries (PyPDF2,
 * python-docx, json, pandas) are not modelled: a `FileView` holds what each of them yields for
 * the file, and the two JSON printers (`json.dumps(data, indent=2)` and `str(data)`) are
 * parameters. What is modelled is the dispatch on the declared type and the way each branch
 * turns the library output into one text.
 */
module Extractor {
  import opened Wrappers
  import Chunker

  /** A decoded JSON document, as `json.load` returns it. */
  datatype JsonValue =
    | JObject(members: seq<(string, JsonValue)>)
    | JArray(items: seq<JsonValue>)
    | JString(s: string)
    | JNumber(literal: string)
    | JBool(b: bool)
    | JNull

  /** The outcome of `json.load` on the file. */
  datatype JsonLoad = Loaded(value: JsonValue) | DecodeError(message: string)

  /** The outcome of `pd.read_csv(...).to_string(index=False)` on the file. */
  datatype CsvRead = Table(rendered: string) | ReadError(message: string)

  /** What each parsing library makes of the file at `file_path`. */
  datatype FileView = FileView(
    pdfPages: seq<string>,        // `page.extract_text()` of every page, in order
    docxParagraphs: seq<string>,  // `para.text` of every paragraph, in order
    utf8Text: string,             // what `file.read()` returns in text mode: decoded UTF-8 with
                                  // line endings already translated ("\r\n" read as "\n")
    json: JsonLoad,
    csv: CsvRead)

  /**
   * The one failure `extract_text_from_file` itself raises: after a JSON decode error the
   * fallback calls `.decode('utf-8')` on a `str`, which raises `AttributeError`.
   */
  datatype ExtractError = JsonFallbackFailed

  const CSV_ERROR_PREFIX := "Error processing CSV: "

  /** The declared types the dispatch handles; any other type yields the initial "". */
  const HANDLED_TYPES: seq<string> := ["pdf", "docx", "txt", "json", "csv"]

  // ---------------------------------------------------------------- PDF

  /** What one page adds: its text and a newline, or nothing when the page has no text. */
  function PageContribution(pageText: string): (r: string)
    ensures r == "" <==> pageText == ""
    ensures r != "" ==> r[..|r| - 1] == pageText && r[|r| - 1] == '\n'
  {
    if pageText != "" then pageText + "\n" else ""
  }

  /** The PDF text after the pages of `pages` have been visited in order; it ends in a newline
      unless it is empty. */
  function PdfText(pages: seq<string>): (r: string)
    ensures r != "" ==> r[|r| - 1] == '\n'
  {
    if |pages| == 0 then ""
    else PdfText(pages[..|pages| - 1]) + PageContribution(pages[|pages| - 1])
  }

  /** The loop over `reader.pages`, appending `page_text + "\n"` for every page with text. */
  method ExtractPdf(pages: seq<string>) returns (text: string)
    ensures text == PdfText(pages)
  {
    text := "";
    for i := 0 to |pages|
      invariant text == PdfText(pages[..i])
    {
      var pageText := pages[i];
      assert pages[..i + 1][..i] == pages[..i];
      if pageText != "" {
        text := text + (pageText + "\n");
      }
    }
    assert pages[..|pages|] == pages;
  }

  /** What one page adds to the pages kept: itself when it has text, nothing otherwise. */
  function KeptPage(pageText: string): seq<string> {
    if pageText != "" then [pageText] else []
  }

  /** The pages that have text, in document order. */
  function NonEmptyPages(pages: seq<string>): (r: seq<string>)
    ensures forall p :: p in r ==> p != "" && p in pages
    ensures multiset(r) == multiset(pages)["" := 0]
  {
    if |pages| == 0 then []
    else
      var init, last := pages[..|pages| - 1], pages[|pages| - 1];
      assert pages == init + [last];
      assert multiset(pages) == multiset(init) + multiset{last};
      assert forall p :: p in init ==> p in pages;
      NonEmptyPages(init) + KeptPage(last)
  }

  /** Every text of `ps` followed by a newline. */
  function Terminated(ps: seq<string>): (r: seq<string>)
    ensures |r| == |ps|
  {
    seq(|ps|, i requires 0 <= i < |ps| => ps[i] + "\n")
  }

  lemma TerminatedAppend(a: seq<string>, b: seq<string>)
    ensures Terminated(a + b) == Terminated(a) + Terminated(b)
  {
  }

  /** Visiting one more page extends both the PDF text and the kept pages by that page's share. */
  lemma PdfTextSnoc(pages: seq<string>)
    requires |pages| > 0
    ensures var init, last := pages[..|pages| - 1], pages[|pages| - 1];
      PdfText(pages) == PdfText(init) + PageContribution(last) &&
      NonEmptyPages(pages) == NonEmptyPages(init) + KeptPage(last)
  {
  }

  lemma ContributionIsTerminated(pageText: string)
    ensures Chunker.Concat(Terminated(KeptPage(pageText))) == PageContribution(pageText)
  {
    if pageText != "" {
      assert Terminated([pageText]) == [pageText + "\n"];
      assert Chunker.Concat([pageText + "\n"]) == pageText + "\n" + Chunker.Concat([]);
    } else {
      assert Terminated([]) == [];
    }
  }

  /**
   * The PDF text is the in-order concatenation of `p + "\n"` over the pages `p` that have
   * text: pages without text add nothing, not even a blank line.
   */
  lemma {:induction false} PdfTextIsTerminatedPages(pages: seq<string>)
    ensures PdfText(pages) == Chunker.Concat(Terminated(NonEmptyPages(pages)))
  {
    if |pages| > 0 {
      var init, last := pages[..|pages| - 1], pages[|pages| - 1];
      PdfTextIsTerminatedPages(init);
      PdfTextSnoc(pages);
      TerminatedAppend(NonEmptyPages(init), KeptPage(last));
      Chunker.ConcatAppend(Terminated(NonEmptyPages(init)), Terminated(KeptPage(last)));
      ContributionIsTerminated(last);
    }
  }

  /** The PDF text is empty exactly when no page has text. */
  lemma AppendEmptyIff(a: string, b: string)
    ensures a + b == "" <==> a == "" && b == ""
  {
    assert |a + b| == |a| + |b|;
  }

  predicate AllBlank(pages: seq<string>) {
    forall i :: 0 <= i < |pages| ==> pages[i] == ""
  }

  lemma AllBlankSnoc(pages: seq<string>)
    requires |pages| > 0
    ensures AllBlank(pages) <==> AllBlank(pages[..|pages| - 1]) && pages[|pages| - 1] == ""
  {
    assert forall i :: 0 <= i < |pages| - 1 ==> pages[..|pages| - 1][i] == pages[i];
  }

  lemma {:induction false} PdfTextEmptyIff(pages: seq<string>)
    ensures PdfText(pages) == "" <==> forall i :: 0 <= i < |pages| ==> pages[i] == ""
  {
    if |pages| > 0 {
      var init, last := pages[..|pages| - 1], pages[|pages| - 1];
      PdfTextEmptyIff(init);
      PdfTextSnoc(pages);
      AppendEmptyIff(PdfText(init), PageContribution(last));
      AllBlankSnoc(pages);
    }
  }

  // ---------------------------------------------------------------- DOCX

  /** The total length of the texts of `ps`. */
  function TotalLength(ps: seq<string>): nat {
    if |ps| == 0 then 0 else |ps[0]| + TotalLength(ps[1..])
  }

  /** `"\n".join(paragraphs)`: every paragraph, with one newline between neighbours. */
  function JoinLines(ps: seq<string>): (r: string)
    ensures |ps| == 0 ==> r == ""
    ensures |ps| > 0 ==> |r| == TotalLength(ps) + |ps| - 1
  {
    if |ps| == 0 then ""
    else if |ps| == 1 then ps[0]
    else ps[0] + "\n" + JoinLines(ps[1..])
  }

  /** The position of the first newline of `s`. */
  function FirstNewline(s: string): (k: nat)
    requires '\n' in s
    ensures k < |s| && s[k] == '\n' && '\n' !in s[..k]
  {
    if s[0] == '\n' then 0
    else
      assert '\n' in s[1..] by {
        var j :| 0 <= j < |s| && s[j] == '\n';
        assert s[1..][j - 1] == '\n';
      }
      var k := 1 + FirstNewline(s[1..]);
      assert s[..k] == [s[0]] + s[1..][..k - 1];
      k
  }

  lemma {:induction false} FirstNewlineAfterLine(line: string, tail: string)
    requires '\n' !in line
    ensures FirstNewline(line + "\n" + tail) == |line|
  {
    if |line| > 0 {
      assert (line + "\n" + tail)[1..] == line[1..] + "\n" + tail;
      FirstNewlineAfterLine(line[1..], tail);
    }
  }

  /** `s.split("\n")`: the inverse of `JoinLines` on lines that hold no newline. */
  function SplitLines(s: string): (r: seq<string>)
    ensures |r| > 0
    decreases |s|
  {
    if '\n' !in s then [s]
    else
      var k := FirstNewline(s);
      [s[..k]] + SplitLines(s[k + 1..])
  }

  lemma SplitLinesAfterLine(line: string, tail: string)
    requires '\n' !in line
    ensures SplitLines(line + "\n" + tail) == [line] + SplitLines(tail)
  {
    var s := line + "\n" + tail;
    FirstNewlineAfterLine(line, tail);
    assert s[|line|] == '\n';
    assert s[..|line|] == line;
    assert s[|line| + 1..] == tail;
  }

  /**
   * Splitting the DOCX text at its newlines gives back the paragraphs, provided there is at
   * least one paragraph and none holds a newline of its own.
   */
  lemma {:induction false} SplitJoinLines(ps: seq<string>)
    requires |ps| > 0
    requires forall p :: p in ps ==> '\n' !in p
    ensures SplitLines(JoinLines(ps)) == ps
  {
    if |ps| > 1 {
      assert ps[0] in ps;
      assert forall p :: p in ps[1..] ==> p in ps;
      SplitJoinLines(ps[1..]);
      assert JoinLines(ps) == ps[0] + "\n" + JoinLines(ps[1..]);
      SplitLinesAfterLine(ps[0], JoinLines(ps[1..]));
      assert ps == [ps[0]] + ps[1..];
    } else {
      assert ps[0] in ps;
    }
  }

  /** The number of newlines in `s`. */
  function NewlineCount(s: string): nat {
    if |s| == 0 then 0 else (if s[0] == '\n' then 1 else 0) + NewlineCount(s[1..])
  }

  lemma {:induction false} NewlineCountAppend(a: string, b: string)
    ensures NewlineCount(a + b) == NewlineCount(a) + NewlineCount(b)
  {
    if |a| > 0 {
      assert (a + b)[1..] == a[1..] + b;
      NewlineCountAppend(a[1..], b);
    } else {
      assert a + b == b;
    }
  }

  /** The newlines the paragraphs themselves hold. */
  function ParagraphNewlines(ps: seq<string>): nat {
    if |ps| == 0 then 0 else NewlineCount(ps[0]) + ParagraphNewlines(ps[1..])
  }

  /**
   * Joining `k` paragraphs adds exactly `k - 1` newlines to those the paragraphs hold, and no
   * paragraph gives the empty text.
   */
  lemma {:induction false} JoinLinesSeparators(ps: seq<string>)
    ensures |ps| == 0 ==> JoinLines(ps) == ""
    ensures |ps| > 0 ==> NewlineCount(JoinLines(ps)) == ParagraphNewlines(ps) + |ps| - 1
  {
    if |ps| == 1 {
      assert ParagraphNewlines(ps[1..]) == 0;
    } else if |ps| > 1 {
      JoinLinesSeparators(ps[1..]);
      NewlineCountAppend(ps[0] + "\n", JoinLines(ps[1..]));
      NewlineCountAppend(ps[0], "\n");
      assert NewlineCount("\n") == 1 by {
        assert "\n"[1..] == "";
      }
    }
  }

  // ---------------------------------------------------------------- JSON and CSV

  /**
   * The JSON branch: objects and arrays are pretty-printed, a string is kept as it is, any
   * other value goes through `str`; a decode error ends in the failing fallback.
   */
  function JsonText(load: JsonLoad, dumps: JsonValue -> string, repr: JsonValue -> string)
    : (r: Result<string, ExtractError>)
    ensures load.DecodeError? <==> r.Failure?
    ensures load.Loaded? && load.value.JString? ==> r == Success(load.value.s)
    ensures load.Loaded? && (load.value.JObject? || load.value.JArray?) ==> r == Success(dumps(load.value))
    ensures load.Loaded? && !(load.value.JObject? || load.value.JArray? || load.value.JString?)
      ==> r == Success(repr(load.value))
  {
    match load
    case DecodeError(_) => Failure(JsonFallbackFailed)
    case Loaded(data) =>
      if data.JObject? || data.JArray? then Success(dumps(data))
      else if data.JString? then Success(data.s)
      else Success(repr(data))
  }

  /** The CSV branch: the rendered table, or the error message after a fixed prefix. */
  function CsvText(read: CsvRead): (r: string)
    ensures read.Table? ==> r == read.rendered
    ensures read.ReadError? ==>
      |r| == |CSV_ERROR_PREFIX| + |read.message| &&
      r[..|CSV_ERROR_PREFIX|] == CSV_ERROR_PREFIX && r[|CSV_ERROR_PREFIX|..] == read.message
  {
    match read
    case Table(rendered) => rendered
    case ReadError(message) => CSV_ERROR_PREFIX + message
  }

  // ---------------------------------------------------------------- dispatch

  /**
   * What `extract_text_from_file(file_path, file_type)` returns or raises. It yields a text
   * (possibly empty) for every declared type, except where the JSON fallback raises: a declared
   * "json" file that does not decode. A type outside the five handled ones yields "".
   */
  function ExtractedText(view: FileView, fileType: string,
                         dumps: JsonValue -> string, repr: JsonValue -> string)
    : (r: Result<string, ExtractError>)
    ensures r.Failure? <==> fileType == "json" && view.json.DecodeError?
    ensures fileType !in HANDLED_TYPES ==> r == Success("")
  {
    if fileType == "pdf" then Success(PdfText(view.pdfPages))
    else if fileType == "docx" then Success(JoinLines(view.docxParagraphs))
    else if fileType == "txt" then Success(view.utf8Text)
    else if fileType == "json" then JsonText(view.json, dumps, repr)
    else if fileType == "csv" then Success(CsvText(view.csv))
    else Success("")
  }

  /** The extraction: `text` starts as "" and each branch of the dispatch reassigns it. */
  method ExtractTextFromFile(view: FileView, fileType: string,
                             dumps: JsonValue -> string, repr: JsonValue -> string)
    returns (r: Result<string, ExtractError>)
    ensures r == ExtractedText(view, fileType, dumps, repr)
  {
    var text := "";
    if fileType == "pdf" {
      text := ExtractPdf(view.pdfPages);
    } else if fileType == "docx" {
      text := JoinLines(view.docxParagraphs);
    } else if fileType == "txt" {
      text := view.utf8Text;
    } else if fileType == "json" {
      match view.json
      case DecodeError(_) =>
        return Failure(JsonFallbackFailed);
      case Loaded(data) =>
        if data.JObject? || data.JArray? {
          text := dumps(data);
        } else if data.JString? {
          text := data.s;
        } else {
          text := repr(data);
        }
    } else if fileType == "csv" {
      match view.csv
      case Table(rendered) =>
        text := rendered;
      case ReadError(message) =>
        text := CSV_ERROR_PREFIX + message;
    }
    return Success(text);
  }

  /** A CSV that pandas cannot read yields the error prefix followed by the message. */
  lemma CsvFailureIsReported(view: FileView, dumps: JsonValue -> string, repr: JsonValue -> string)
    requires view.csv.ReadError?
    ensures var r := ExtractedText(view, "csv", dumps, repr);
      r.Success? && r.value == CSV_ERROR_PREFIX + view.csv.message
  {
  }

  /** `parse_and_chunk`: the extracted text cut into chunks of `size` characters. */
  method ParseAndChunk(view: FileView, fileExt: string, size: nat,
                       dumps: JsonValue -> string, repr: JsonValue -> string)
    returns (r: Result<seq<string>, ExtractError>)
    requires size > 0
    ensures ExtractedText(view, fileExt, dumps, repr).Failure? <==> r.Failure?
    ensures r.Failure? ==> r.error == ExtractedText(view, fileExt, dumps, repr).error
    ensures r.Success? ==> r.value == Chunker.Chunks(ExtractedText(view, fileExt, dumps, repr).value, size)
  {
    var text := ExtractTextFromFile(view, fileExt, dumps, repr);
    if text.Failure? {
      return Failure(text.error);
    }
    return Success(Chunker.Chunks(text.value, size));
  }
}

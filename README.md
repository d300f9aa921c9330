# careai document ingestion, modelled in Dafny

This project models the ingestion core of a small Flask service that turns an uploaded
document into embedded text chunks stored in Firestore:

- **Extraction** (`utils.py`, `extract_text_from_file`): a dispatch on the declared file
  type. PDF pages with text are appended with a trailing newline; DOCX paragraphs are joined
  with newlines; a text file is kept as read; a decoded JSON value is pretty-printed (objects
  and arrays), kept verbatim (strings) or passed through `str` (anything else); a CSV table is
  rendered, or replaced by `"Error processing CSV: "` and the error message; any other type
  gives `""`. The parsing libraries are inputs: a `FileView` says what each one yields for the
  file, and the two JSON printers are function parameters.
- **Chunking** (`utils.py`, `parse_and_chunk`): the text cut into consecutive slices of 500
  characters, the last one possibly shorter.
- **Upload route** (`app.py`, `upload_file`): a missing `file` part and an extension outside
  `csv, txt, pdf, docx, json` are answered 400; an empty chunk list is answered 400; otherwise
  one record `(filename, chunk_index, content, embedding)` per `(chunk, embedding)` pair of
  `enumerate(zip(chunks, embeddings))` is staged into a write batch, the batch is committed once,
  and the route answers 200.

Files: `Wrappers.dfy` (Option, Result), `Chunker.dfy`, `Extractor.dfy`, `Upload.dfy`.

The PDF page loop, the record-staging loop and the route itself are methods (`ExtractPdf`,
`StoreRecords`, `UploadFile`), each proved against a specification function (`PdfText`,
`Records`, `UploadOutcome`); the properties are lemmas about those functions. Firestore's
collection and write batch are two small classes whose methods say exactly how they change.

Behaviour of the code worth noting:

- The JSON "raw text fallback" does not return text. The file is opened in text mode, so after a
  decode error `file.read()` is a `str` and `.decode('utf-8')` raises `AttributeError`, which
  the route does not catch. The model returns `Failure(JsonFallbackFailed)` and the route's
  reply is `Crash`, the uncaught exception that the web framework answers with status 500.
- An unknown declared type does not raise in `extract_text_from_file`: it returns `""`. The
  route never reaches that case, because its whitelist is exactly the five handled types
  (`Supported`).
- The route stores the records itself, through a Firestore batch, rather than handing them back.
- The extension check looks only at the text after the last dot, so a name without a dot is its
  own extension: a file called `PDF` is accepted as a PDF.
- `zip` truncates: when the embedder returns fewer vectors than chunks, fewer records are
  stored, and the route still answers 200.

## Model

| member | source | states |
|---|---|---|
| Chunker.SlicesFromBounds | utils.py:61 | every slice produced by the `range(0, len(text), size)` comprehension is non-empty and at most `size` long |
| Chunker.Chunks | utils.py:61 | joining the chunks in order gives back exactly the extracted text (no gap, no overlap); every chunk is between 1 and `size` long |
| Chunker.SlicesFromConcat | utils.py:61 | the slices taken from position `start` on join to `text[start..]` |
| Chunker.ChunkAt | utils.py:61 | chunk `i` is `text[i*size .. min((i+1)*size, len(text))]` and starts inside the text |
| Chunker.SlicesFromAt | utils.py:61 | slice `i` from position `start` exists only when its offset `start+i*size` is inside the text, and is `text[offset .. min(offset+size, len(text))]` |
| Chunker.ChunkCount | utils.py:61 | there are `ceil(len(text)/size)` chunks: `(len+size-1)/size`, the least `n` with `n*size >= len` |
| Chunker.SlicesFromCount | utils.py:61 | the number of slices from `start` is the least `n` with `n*size >= len(text)-start` |
| Chunker.ChunksEmptyIff | utils.py:61 | the chunk list is empty exactly when the text is empty |
| Chunker.ChunkLengths | utils.py:61 | every chunk but the last is exactly `size` long; the last is between 1 and `size` long |
| Extractor.PageContribution | utils.py:21-22 | a page adds nothing exactly when its text is empty, and otherwise its text followed by one newline |
| Extractor.PdfText | utils.py:19-22 | the text after visiting the pages in order; when not empty it ends in a newline |
| Extractor.ExtractPdf | utils.py:19-22 | the page loop's result equals `PdfText(pages)`: each page with text appended with a newline, in order |
| Extractor.PdfTextIsTerminatedPages | utils.py:19-22 | the PDF text is the in-order concatenation of `p + "\n"` over the pages `p` that have text |
| Extractor.NonEmptyPages | utils.py:21 | the kept pages all have text and come from the document, and every page with text is kept, as often as it occurs |
| Extractor.PdfTextEmptyIff | utils.py:19-22 | the PDF text is empty exactly when no page has text |
| Extractor.JoinLines | utils.py:26 | zero paragraphs give `""`; `k` paragraphs give their total length plus `k-1` separator characters |
| Extractor.SplitJoinLines | utils.py:26 | splitting the joined DOCX text at newlines gives back the paragraphs (at least one paragraph, none holding a newline) |
| Extractor.JoinLinesSeparators | utils.py:26 | zero paragraphs give `""`; `k` paragraphs add exactly `k-1` newlines to those they hold |
| Extractor.SplitLines | utils.py:26 | splitting at newlines always gives at least one piece (the partner of the join) |
| Extractor.FirstNewline | utils.py:26 | the position found holds a newline and no newline comes before it |
| Extractor.JsonText | utils.py:34-44 | a decoded string is returned verbatim, objects and arrays go to the pretty-printer, other values to `str`; a decode error is the one failure |
| Extractor.CsvText | utils.py:47-51 | a readable CSV gives the rendered table; a read error gives the prefix `Error processing CSV: ` followed by exactly the message |
| Extractor.ExtractTextFromFile | utils.py:10-53 | the dispatch (initial `""`, one reassignment per branch) returns `ExtractedText` of the view and the declared type |
| Extractor.ExtractedText | utils.py:10-53 | extraction yields a text for every declared type and fails only for a declared JSON file that does not decode; a type outside pdf, docx, txt, json, csv yields `""` |
| Extractor.CsvFailureIsReported | utils.py:46-53 | a CSV read error makes extraction succeed with the prefix and the message |
| Extractor.ParseAndChunk | utils.py:56-62 | fails exactly when extraction fails, with the same error; otherwise returns the chunks of the extracted text |
| Upload.AfterLastDot | app.py:28 | `split('.')[-1]` is the longest dot-free suffix: a suffix, without a dot, preceded by a dot or by nothing |
| Upload.Extension | app.py:28 | the extension holds no dot, is the lower-cased suffix after the last dot, and is preceded by a dot unless it is the whole name |
| Upload.ExtensionEdgeCases | app.py:28 | a name without a dot is its own (lower-cased) extension; a name ending in a dot has the extension `""` |
| Upload.ExtensionOfDottedName | app.py:28 | `name + "." + ext`, with `ext` dot-free, has the extension `ext` lower-cased |
| Upload.AfterLastDotOfDottedName | app.py:28 | the text after the last dot of `name + "." + ext` is `ext` |
| Upload.LowerKeepsDots | app.py:28 | lower-casing keeps the length and neither adds nor removes dots |
| Upload.Supported | app.py:30 | every whitelisted extension is a type the extraction handles |
| Upload.CheckRequest | app.py:23-31 | the request passes exactly when it has a file part with a whitelisted extension, and then yields the file name and `Extension(filename)`; otherwise the 400 reply of the failing guard |
| Upload.RejectedBeforeExtraction | app.py:23-31 | a missing file part or an extension off the whitelist is answered 400 and nothing is stored |
| Upload.Records | app.py:51-58 | `zip` gives `min(len(chunks), len(embeddings))` records whose contents are the first chunks, in order |
| Upload.RecordsKeepChunks | app.py:51-58 | record `i` is `(filename, i, chunks[i], embeddings[i])`: chunk `i` is paired with vector `i`; with enough embeddings the contents are all the chunks |
| Upload.WriteBatch.Set | app.py:53-58 | staging appends the record after those already staged |
| Upload.WriteBatch.Commit | app.py:60 | commit writes the staged records, in staging order, after the collection's documents, and only once |
| Upload.StoreRecords | app.py:49-60 | a fresh batch receives one record per pair, in index order, and one commit adds exactly `Records(...)` to the collection |
| Upload.UploadOutcome | app.py:22-63 | the route's reply and stored records; nothing is stored unless the reply is 200 |
| Upload.AcceptedOutcome | app.py:39-63 | after the guards: 200 exactly when extraction gives a non-empty text, 400 "No content" exactly when it gives `""`, records only on 200 |
| Upload.UploadFile | app.py:22-63 | the route's reply and the documents it adds are those of `UploadOutcome` |
| Upload.ProcessFile | app.py:39-63 | after the guards: a crash, a 400 on an empty chunk list, or a 200 after storing the records |
| Upload.AcceptedIff | app.py:23-63 | the reply is 200 exactly when the file is present, whitelisted and extracts to a non-empty text; it is 400 "No content" exactly when it extracts to `""` |
| Upload.AcceptedTextStoredWhole | app.py:39-60 | an accepted file with non-empty text is answered 200, record `i` carries index `i` and the file name, and with one embedding per chunk the stored contents join back to the extracted text |
| Upload.TextFileStored | app.py:28-60 | a `.txt` upload with non-empty text is answered 200 and stores the records of its chunks |
| Upload.TwelveHundredCharacterChunks | utils.py:61 | a 1200-character text gives three chunks of 500, 500 and 200 characters |
| Upload.TwelveHundredCharacterText | app.py:22-63 | a 1200-character `.txt` upload stores three records indexed 0, 1, 2 with 500, 500 and 200 characters |

## Left out

- Flask, CORS and dotenv (app.py:1-11, 66-67): the request is a value with an optional file part; the reply is a status and a message.
- Firebase initialisation, credentials and the auto-generated document IDs (app.py:14-16, 48, 52): the collection is a sequence of records; a commit is modelled as always succeeding.
- Saving the upload to the `uploads` folder and the `print` logging (app.py:18-19, 33-36, 45, 61): file I/O and side effects; a failing save is among the exceptions listed below.
- The parsing libraries (PyPDF2, python-docx, `json.load`, `json.dumps(indent=2)`, `str`, pandas `read_csv`/`to_string`): their outputs are inputs of the model (`FileView`, the two printer parameters); a page whose `extract_text()` gives `None` is given as `""`, which the source treats the same way.
- Exceptions raised outside the modelled logic (`file.save` failing, for instance for a name such as `x/notes.txt` whose directory does not exist under `uploads/`; a corrupt PDF or DOCX; text that is not UTF-8; a failing embedder or batch commit): these propagate out of the route in the source and end in a 500 reply; the model assumes they do not happen, except for the JSON decode error, which the source catches, so for such inputs the model answers where the service would fail.
- The embedding model (utils.py:8, 65-70): `embed` is an arbitrary function from chunk lists to lists of an opaque vector type; floating point, dimensionality and `.tolist()` are not modelled.
- Upload.Extension: lower-cases ASCII letters only; Python's `str.lower` also lower-cases non-ASCII letters.

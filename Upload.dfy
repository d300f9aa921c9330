/**
 * The `/upload` route of app.py: the guards that reject a request, the extraction and chunking
 * of an accepted file, and the loop that stages one record per chunk into a Firestore write
 * batch committed once. Flask, the Firestore client and the embedding model are not modelled:
 * the request is a plain value, the collection and the batch are small classes, and the model
 * is the function `embed`.
 */
module Upload {
  import opened Wrappers
  import Chunker
  import Extractor

  const SUPPORTED_EXTENSIONS: seq<string> := ["csv", "txt", "pdf", "docx", "json"]

  const NO_FILE := "No file provided"
  const UNSUPPORTED_TYPE := "Unsupported file type"
  const NO_CONTENT := "No content extracted from file."
  const STORED := "File processed, embedded, and stored successfully."

  /** The `file` part of a multipart request: its name and what the parsers make of it. */
  datatype FilePart = FilePart(filename: string, view: Extractor.FileView)

  /** An upload request; `file` is `None` when the request has no `file` part. */
  datatype Request = Request(file: Option<FilePart>)

  /**
   * The route's answer: a JSON error, a JSON message, or an exception the route does not
   * catch (which the web framework turns into a 500 response).
   */
  datatype Reply =
    | Error(status: int, error: string)
    | Message(status: int, message: string)
    | Crash(cause: Extractor.ExtractError)

  /** One Firestore document of the `document_embeddings` collection. */
  datatype Record<E> = Record(filename: string, chunkIndex: nat, content: string, embedding: E)

  // ---------------------------------------------------------------- file extension

  /** ASCII lower-casing of one character. */
  function LowerChar(c: char): char {
    if 'A' <= c <= 'Z' then (c as int + 32) as char else c
  }

  /** `s.lower()`, restricted to ASCII letters. */
  function Lower(s: string): string {
    seq(|s|, i requires 0 <= i < |s| => LowerChar(s[i]))
  }

  /** `s.split('.')[-1]`: the longest suffix of `s` that holds no dot. */
  function AfterLastDot(s: string): (r: string)
    ensures |r| <= |s| && r == s[|s| - |r|..]
    ensures '.' !in r
    ensures |r| == |s| || s[|s| - |r| - 1] == '.'
  {
    if |s| == 0 then ""
    else if s[|s| - 1] == '.' then ""
    else AfterLastDot(s[..|s| - 1]) + [s[|s| - 1]]
  }

  /** A dot stays a dot and nothing else becomes one under lower-casing. */
  lemma LowerKeepsDots(s: string)
    ensures |Lower(s)| == |s|
    ensures forall i :: 0 <= i < |s| ==> (Lower(s)[i] == '.' <==> s[i] == '.')
  {
  }

  /**
   * `filename.split('.')[-1].lower()`: the lower-cased text after the last dot of the name.
   */
  function Extension(filename: string): (ext: string)
    ensures |ext| <= |filename|
    ensures '.' !in ext
    ensures ext == Lower(filename[|filename| - |ext|..])
    ensures |ext| == |filename| || filename[|filename| - |ext| - 1] == '.'
  {
    var suffix := AfterLastDot(filename);
    LowerKeepsDots(suffix);
    assert forall c :: c in Lower(suffix) ==> c != '.';
    Lower(suffix)
  }

  /** A name without a dot is its own extension, lower-cased; a name ending in a dot has "". */
  lemma ExtensionEdgeCases(filename: string)
    ensures '.' !in filename ==> Extension(filename) == Lower(filename)
    ensures |filename| > 0 && filename[|filename| - 1] == '.' ==> Extension(filename) == ""
  {
    var ext := Extension(filename);
    if |ext| < |filename| {
      assert filename[|filename| - |ext| - 1] in filename;
    }
  }

  /** Appending `"." + ext` to any name gives `ext`, lower-cased, as the extension. */
  lemma {:induction false} AfterLastDotOfDottedName(name: string, ext: string)
    requires '.' !in ext
    ensures AfterLastDot(name + "." + ext) == ext
  {
    var s := name + "." + ext;
    if |ext| > 0 {
      var init, last := ext[..|ext| - 1], ext[|ext| - 1];
      assert last in ext;
      assert s[|s| - 1] == last;
      assert s[..|s| - 1] == name + "." + init;
      assert AfterLastDot(s) == AfterLastDot(name + "." + init) + [last];
      AfterLastDotOfDottedName(name, init);
      assert ext == init + [last];
    } else {
      assert s[|s| - 1] == '.';
    }
  }

  lemma ExtensionOfDottedName(name: string, ext: string)
    requires '.' !in ext
    ensures Extension(name + "." + ext) == Lower(ext)
  {
    AfterLastDotOfDottedName(name, ext);
  }

  /** The whitelist check; every accepted extension is one the extraction handles, so an
      accepted file never falls through to the "unknown type" branch. */
  predicate Supported(ext: string)
    ensures Supported(ext) ==> ext in Extractor.HANDLED_TYPES
  {
    ext in SUPPORTED_EXTENSIONS
  }

  /**
   * The guards before anything is saved: a missing `file` part, then an extension outside the
   * whitelist. On success, the file name and its extension.
   */
  function CheckRequest(req: Request): (r: Result<(string, string), Reply>)
    ensures r.Success? <==> req.file.Some? && Supported(Extension(req.file.value.filename))
    ensures req.file.None? ==> r == Failure(Error(400, NO_FILE))
    ensures req.file.Some? && !Supported(Extension(req.file.value.filename))
      ==> r == Failure(Error(400, UNSUPPORTED_TYPE))
    ensures r.Success? ==>
      r.value == (req.file.value.filename, Extension(req.file.value.filename)) &&
      r.value.1 in SUPPORTED_EXTENSIONS && '.' !in r.value.1
  {
    if req.file.None? then Failure(Error(400, NO_FILE))
    else
      var filename := req.file.value.filename;
      var ext := Extension(filename);
      if !Supported(ext) then Failure(Error(400, UNSUPPORTED_TYPE))
      else Success((filename, ext))
  }

  // ---------------------------------------------------------------- records and the batch

  /** `enumerate(zip(chunks, embeddings))`, one record per pair; `zip` stops at the shorter. */
  function Records<E>(filename: string, chunks: seq<string>, embeddings: seq<E>): (r: seq<Record<E>>)
    ensures |r| == Chunker.Min(|chunks|, |embeddings|)
    ensures Contents(r) == chunks[..|r|]
  {
    seq(Chunker.Min(|chunks|, |embeddings|),
        i requires 0 <= i < Chunker.Min(|chunks|, |embeddings|) =>
          Record(filename, i, chunks[i], embeddings[i]))
  }

  /** The `content` fields of `records`, in order. */
  function Contents<E>(records: seq<Record<E>>): (r: seq<string>)
    ensures |r| == |records|
  {
    seq(|records|, i requires 0 <= i < |records| => records[i].content)
  }

  /**
   * With at least one embedding per chunk, the records hold every chunk, in order, under its
   * position; otherwise the records stop at the last embedding.
   */
  lemma RecordsKeepChunks<E>(filename: string, chunks: seq<string>, embeddings: seq<E>)
    ensures |Records(filename, chunks, embeddings)| == Chunker.Min(|chunks|, |embeddings|)
    ensures |embeddings| >= |chunks| ==> Contents(Records(filename, chunks, embeddings)) == chunks
    ensures forall i :: 0 <= i < |Records(filename, chunks, embeddings)| ==>
      Records(filename, chunks, embeddings)[i] == Record(filename, i, chunks[i], embeddings[i])
  {
  }

  /** The Firestore collection `document_embeddings`: the documents committed so far. */
  class Collection<E> {
    var documents: seq<Record<E>>

    constructor ()
      ensures documents == []
    {
      documents := [];
    }
  }

  /** A Firestore write batch: records are staged with `Set` and written by one `Commit`. */
  class WriteBatch<E> {
    var staged: seq<Record<E>>
    var committed: bool

    constructor ()
      ensures staged == [] && !committed
    {
      staged := [];
      committed := false;
    }

    method Set(record: Record<E>)
      requires !committed
      modifies this
      ensures staged == old(staged) + [record] && !committed
    {
      staged := staged + [record];
    }

    /** Writes every staged record, in staging order, to `collection`; a batch commits once. */
    method Commit(collection: Collection<E>)
      requires !committed
      modifies this, collection
      ensures committed && staged == old(staged)
      ensures collection.documents == old(collection.documents) + staged
    {
      collection.documents := collection.documents + staged;
      committed := true;
    }
  }

  // ---------------------------------------------------------------- the route

  /** What the route answers and which records it writes, as a function of the request. */
  datatype Outcome<E> = Outcome(reply: Reply, stored: seq<Record<E>>)

  /** The route's outcome; nothing is written unless the route answers 200. */
  function UploadOutcome<E>(req: Request, dumps: Extractor.JsonValue -> string,
                            repr: Extractor.JsonValue -> string, embed: seq<string> -> seq<E>)
    : (o: Outcome<E>)
    ensures o.stored != [] ==> o.reply == Message(200, STORED)
    ensures !o.reply.Message? ==> o.stored == []
  {
    match CheckRequest(req)
    case Failure(reply) => Outcome(reply, [])
    case Success(accepted) =>
      AcceptedOutcome(accepted.0, Extractor.ExtractedText(req.file.value.view, accepted.1, dumps, repr), embed)
  }

  /**
   * The rest of the route once the request passed the guards, given the extraction's result:
   * 200 exactly when the extraction gave a non-empty text, and records only then.
   */
  function AcceptedOutcome<E>(filename: string, extracted: Result<string, Extractor.ExtractError>,
                              embed: seq<string> -> seq<E>)
    : (o: Outcome<E>)
    ensures o.reply.Message? <==> extracted.Success? && extracted.value != ""
    ensures o.reply == Error(400, NO_CONTENT) <==> extracted == Success("")
    ensures !o.reply.Message? ==> o.stored == []
  {
    match extracted
    case Failure(cause) => Outcome(Crash(cause), [])
    case Success(text) =>
      Chunker.ChunksEmptyIff(text, Chunker.DEFAULT_CHUNK_SIZE);
      var chunks := Chunker.Chunks(text, Chunker.DEFAULT_CHUNK_SIZE);
      if chunks == [] then Outcome(Error(400, NO_CONTENT), [])
      else Outcome(Message(200, STORED), Records(filename, chunks, embed(chunks)))
  }

  /**
   * The loop over `enumerate(zip(chunks, embeddings))`: a fresh batch, one `Set` per pair in
   * order, then a single `Commit`.
   */
  method StoreRecords<E>(db: Collection<E>, filename: string, chunks: seq<string>, embeddings: seq<E>)
    modifies db
    ensures db.documents == old(db.documents) + Records(filename, chunks, embeddings)
  {
    var batch := new WriteBatch<E>();
    var idx := 0;
    while idx < |chunks| && idx < |embeddings|
      invariant 0 <= idx <= Chunker.Min(|chunks|, |embeddings|)
      invariant !batch.committed
      invariant batch.staged == Records(filename, chunks, embeddings)[..idx]
      invariant db.documents == old(db.documents)
    {
      batch.Set(Record(filename, idx, chunks[idx], embeddings[idx]));
      idx := idx + 1;
    }
    assert batch.staged == Records(filename, chunks, embeddings);
    batch.Commit(db);
  }

  /**
   * `upload_file`: the two guards return early; an accepted file goes on to `ProcessFile`.
   */
  method UploadFile<E>(req: Request, db: Collection<E>, dumps: Extractor.JsonValue -> string,
                       repr: Extractor.JsonValue -> string, embed: seq<string> -> seq<E>)
    returns (reply: Reply)
    modifies db
    ensures reply == UploadOutcome(req, dumps, repr, embed).reply
    ensures db.documents == old(db.documents) + UploadOutcome(req, dumps, repr, embed).stored
  {
    if req.file.None? {
      return Error(400, NO_FILE);
    }
    var file := req.file.value;
    var filename := file.filename;
    var fileExt := Extension(filename);
    if fileExt !in SUPPORTED_EXTENSIONS {
      return Error(400, UNSUPPORTED_TYPE);
    }
    reply := ProcessFile(db, filename, fileExt, file.view, dumps, repr, embed);
  }

  /**
   * The part of `upload_file` after the guards: extract and chunk, reject an empty chunk list,
   * embed, and store one record per (chunk, embedding) pair.
   */
  method ProcessFile<E>(db: Collection<E>, filename: string, fileExt: string, view: Extractor.FileView,
                        dumps: Extractor.JsonValue -> string, repr: Extractor.JsonValue -> string,
                        embed: seq<string> -> seq<E>)
    returns (reply: Reply)
    modifies db
    ensures var o := AcceptedOutcome(filename, Extractor.ExtractedText(view, fileExt, dumps, repr), embed);
      reply == o.reply && db.documents == old(db.documents) + o.stored
  {
    var parsed := Extractor.ParseAndChunk(view, fileExt, Chunker.DEFAULT_CHUNK_SIZE, dumps, repr);
    if parsed.Failure? {
      return Crash(parsed.error);
    }
    var chunks := parsed.value;
    if |chunks| == 0 {
      return Error(400, NO_CONTENT);
    }
    var embeddings := embed(chunks);
    StoreRecords(db, filename, chunks, embeddings);
    return Message(200, STORED);
  }

  // ---------------------------------------------------------------- properties of the route

  /**
   * A request without a file part, or whose extension is not on the whitelist, is answered 400
   * before anything is extracted, and nothing is written.
   */
  lemma RejectedBeforeExtraction<E>(req: Request, dumps: Extractor.JsonValue -> string,
                                    repr: Extractor.JsonValue -> string, embed: seq<string> -> seq<E>)
    ensures req.file.None? ==>
      UploadOutcome(req, dumps, repr, embed) == Outcome(Error(400, NO_FILE), [])
    ensures req.file.Some? && !Supported(Extension(req.file.value.filename)) ==>
      UploadOutcome(req, dumps, repr, embed) == Outcome(Error(400, UNSUPPORTED_TYPE), [])
  {
  }

  /**
   * The route answers 200 exactly when the request has a file with a supported extension whose
   * extraction succeeds with a non-empty text; an empty text is answered 400 "No content".
   */
  lemma {:induction false} AcceptedIff<E>(req: Request, dumps: Extractor.JsonValue -> string,
                                          repr: Extractor.JsonValue -> string, embed: seq<string> -> seq<E>)
    ensures var o := UploadOutcome(req, dumps, repr, embed);
      o.reply.Message? <==>
        req.file.Some? && Supported(Extension(req.file.value.filename)) &&
        var text := Extractor.ExtractedText(req.file.value.view, Extension(req.file.value.filename), dumps, repr);
        text.Success? && text.value != ""
    ensures var o := UploadOutcome(req, dumps, repr, embed);
      o.reply == Error(400, NO_CONTENT) <==>
        req.file.Some? && Supported(Extension(req.file.value.filename)) &&
        Extractor.ExtractedText(req.file.value.view, Extension(req.file.value.filename), dumps, repr) == Success("")
  {
    if req.file.Some? && Supported(Extension(req.file.value.filename)) {
      var text := Extractor.ExtractedText(req.file.value.view, Extension(req.file.value.filename), dumps, repr);
      if text.Success? {
        Chunker.ChunksEmptyIff(text.value, Chunker.DEFAULT_CHUNK_SIZE);
      }
    }
  }

  /**
   * Once a request is accepted and its text is not empty, the route answers 200; with at least
   * one embedding per chunk, the stored records carry the file name, are indexed 0, 1, ... in
   * order, and their contents joined in order give back the extracted text.
   */
  lemma {:induction false} AcceptedTextStoredWhole<E>(filename: string, text: string,
                                                       embed: seq<string> -> seq<E>)
    requires text != ""
    ensures var o := AcceptedOutcome(filename, Success(text), embed);
      o.reply == Message(200, STORED) &&
      forall i :: 0 <= i < |o.stored| ==> o.stored[i].chunkIndex == i && o.stored[i].filename == filename
    ensures var chunks := Chunker.Chunks(text, Chunker.DEFAULT_CHUNK_SIZE);
      |embed(chunks)| >= |chunks| ==>
        Chunker.Concat(Contents(AcceptedOutcome(filename, Success(text), embed).stored)) == text
  {
    var chunks := Chunker.Chunks(text, Chunker.DEFAULT_CHUNK_SIZE);
    Chunker.ChunksEmptyIff(text, Chunker.DEFAULT_CHUNK_SIZE);
    RecordsKeepChunks(filename, chunks, embed(chunks));
  }

  /** A 1200-character text is cut into three chunks of 500, 500 and 200 characters. */
  lemma TwelveHundredCharacterChunks(text: string)
    requires |text| == 1200
    ensures var chunks := Chunker.Chunks(text, Chunker.DEFAULT_CHUNK_SIZE);
      |chunks| == 3 && |chunks[0]| == 500 && |chunks[1]| == 500 && |chunks[2]| == 200
  {
    Chunker.ChunkCount(text, Chunker.DEFAULT_CHUNK_SIZE);
    Chunker.ChunkLengths(text, Chunker.DEFAULT_CHUNK_SIZE);
    Chunker.ChunkAt(text, Chunker.DEFAULT_CHUNK_SIZE, 2);
  }

  /** A `.txt` upload with a non-empty text is answered 200 and stores the text's records. */
  lemma TextFileStored<E>(name: string, view: Extractor.FileView, dumps: Extractor.JsonValue -> string,
                          repr: Extractor.JsonValue -> string, embed: seq<string> -> seq<E>)
    requires view.utf8Text != ""
    ensures var chunks := Chunker.Chunks(view.utf8Text, Chunker.DEFAULT_CHUNK_SIZE);
      UploadOutcome(Request(Some(FilePart(name + ".txt", view))), dumps, repr, embed)
        == Outcome(Message(200, STORED), Records(name + ".txt", chunks, embed(chunks)))
  {
    var filename := name + ".txt";
    assert filename == name + "." + "txt";
    ExtensionOfDottedName(name, "txt");
    assert Lower("txt") == "txt";
    assert SUPPORTED_EXTENSIONS[1] == "txt";
    var req := Request(Some(FilePart(filename, view)));
    assert CheckRequest(req) == Success((filename, "txt"));
    assert Extractor.ExtractedText(view, "txt", dumps, repr) == Success(view.utf8Text);
    Chunker.ChunksEmptyIff(view.utf8Text, Chunker.DEFAULT_CHUNK_SIZE);
  }

  /**
   * A 1200-character text file is stored as three records, indexed 0, 1 and 2, holding
   * 500, 500 and 200 characters.
   */
  lemma TwelveHundredCharacterText<E>(name: string, view: Extractor.FileView,
                                      dumps: Extractor.JsonValue -> string,
                                      repr: Extractor.JsonValue -> string, embed: seq<string> -> seq<E>)
    requires |view.utf8Text| == 1200
    requires forall c :: |embed(c)| == |c|
    ensures var o := UploadOutcome(Request(Some(FilePart(name + ".txt", view))), dumps, repr, embed);
      o.reply == Message(200, STORED) && |o.stored| == 3 &&
      |o.stored[0].content| == 500 && |o.stored[1].content| == 500 && |o.stored[2].content| == 200 &&
      o.stored[0].chunkIndex == 0 && o.stored[1].chunkIndex == 1 && o.stored[2].chunkIndex == 2
  {
    TextFileStored(name, view, dumps, repr, embed);
    TwelveHundredCharacterChunks(view.utf8Text);
  }
}

/** DoclingProcessor.process_document (python-services/docling_service.py):
    the plain-text path, the loader path in markdown or chunk mode, and the
    handler that turns every raised Exception into a result record. The file
    system and the document loader are given as an Environment value. */
module Processor {
  import opened Text
  import opened Records
  import opened TxtChunker
  import opened LoaderResults

  /** The loader's two export types. */
  datatype ExportMode = Markdown | DocChunks

  /** export_type.lower() == "chunks" */
  predicate IsChunksType(exportType: string)
    ensures IsChunksType(exportType) ==> |exportType| == 6
  {
    Lower(exportType) == "chunks"
  }

  /** Chunk mode for "chunks" in any letter case and markdown for everything else. */
  function ModeOf(exportType: string): (m: ExportMode)
    ensures m == DocChunks <==>
              |exportType| == 6 && forall i :: 0 <= i < 6 ==>
                exportType[i] == "chunks"[i] || exportType[i] == "CHUNKS"[i] || (i == 4 && exportType[i] == '\U{212A}')
  {
    ChunksTypeSpelling(exportType);
    if IsChunksType(exportType) then DocChunks else Markdown
  }

  lemma LowerCharIs(c: char, x: char, upper: char)
    requires 'a' <= x <= 'z' && upper as int == x as int - 32
    ensures LowerChar(c) == x <==> c == x || c == upper || (x == 'k' && c == '\U{212A}')
  {
  }

  /** The spellings that select chunk mode: six letters, each one of "chunks"
      in either case, or the Kelvin sign in place of the k. */
  lemma ChunksTypeSpelling(t: string)
    ensures IsChunksType(t) <==>
              |t| == 6 && forall i :: 0 <= i < 6 ==>
                t[i] == "chunks"[i] || t[i] == "CHUNKS"[i] || (i == 4 && t[i] == '\U{212A}')
  {
    if |t| == 6 {
      forall i | 0 <= i < 6
        ensures LowerChar(t[i]) == "chunks"[i] <==>
                  t[i] == "chunks"[i] || t[i] == "CHUNKS"[i] || (i == 4 && t[i] == '\U{212A}')
      {
        LowerCharIs(t[i], "chunks"[i], "CHUNKS"[i]);
      }
      assert IsChunksType(t) <==> forall i :: 0 <= i < 6 ==> Lower(t)[i] == "chunks"[i];
    }
  }

  /** A text file as the plain-text path reads it: its decoded content and
      its size in bytes. */
  datatype TextFile = TextFile(content: string, size: nat)

  /** What process_document observes of the outside world for one call. */
  datatype Environment = Environment(
    fileExists: bool,                         // os.path.exists(file_path)
    extension: string,                        // Path(file_path).suffix.lower()
    readText: Outcome<TextFile>,              // open(file_path).read() and os.path.getsize(file_path)
    load: ExportMode -> Outcome<seq<Doc>>)    // DoclingLoader(file_path, export_type=mode).load()

  const TxtKeys: set<string> := {ProcessingMethodKey, ExportTypeKey, FileTypeKey, TotalLengthKey, FileSizeKey}

  function TxtMetadata(exportType: string, file: TextFile): (m: Metadata)
    ensures m.Keys == TxtKeys
    ensures && m[ProcessingMethodKey] == Str("langchain_docling_txt")
            && m[ExportTypeKey] == Str(exportType)
            && m[FileTypeKey] == Str("txt")
            && m[TotalLengthKey] == Int(|file.content|)
            && m[FileSizeKey] == Int(file.size)
  {
    map[
      ProcessingMethodKey := Str("langchain_docling_txt"),
      ExportTypeKey := Str(exportType),
      FileTypeKey := Str("txt"),
      TotalLengthKey := Int(|file.content|),
      FileSizeKey := Int(file.size)]
  }

  /** The plain-text path: the content is returned as it is in both modes; in
      chunk mode the line chunks and their count are added. */
  function TxtResult(path: string, exportType: string, file: TextFile): (r: ProcessingResult)
    ensures r.success && r.error.None? && r.markdownContent == file.content
    ensures && TxtKeys <= r.metadata.Keys
            && r.metadata[ProcessingMethodKey] == Str("langchain_docling_txt")
            && r.metadata[ExportTypeKey] == Str(exportType)
            && r.metadata[FileTypeKey] == Str("txt")
            && r.metadata[TotalLengthKey] == Int(|file.content|)
            && r.metadata[FileSizeKey] == Int(file.size)
    ensures IsChunksType(exportType) ==>
              && r.chunks == Some(TxtChunks(file.content, path))
              && r.metadata.Keys == TxtKeys + {TotalChunksKey}
              && r.metadata[TotalChunksKey] == Int(|r.chunks.value|)
    ensures !IsChunksType(exportType) ==> r.chunks.None? && r.metadata.Keys == TxtKeys
  {
    var metadata := TxtMetadata(exportType, file);
    assert TotalChunksKey !in TxtKeys;
    if IsChunksType(exportType) then
      var chunks := TxtChunks(file.content, path);
      ProcessingResult(true, file.content, metadata[TotalChunksKey := Int(|chunks|)], Some(chunks), None)
    else
      ProcessingResult(true, file.content, metadata, None, None)
  }

  /** process_document as a function of its inputs and the environment. Every
      Exception the environment raises is caught, so every failure is a result
      with success = false. */
  function Process(path: string, exportType: string, env: Environment): (r: ProcessingResult)
    ensures WellFormed(r)
    ensures r.success <==>
              env.fileExists
              && if env.extension == ".txt" then env.readText.Ok?
                 else env.load(ModeOf(exportType)).Ok? && |env.load(ModeOf(exportType)).value| > 0
    ensures r.chunks.Some? <==> r.success && IsChunksType(exportType)
    ensures r.success && env.extension == ".txt" ==> r.markdownContent == env.readText.value.content
    ensures r.success && env.extension != ".txt" ==>
              var docs := env.load(ModeOf(exportType)).value;
              var joined := Join(PageContents(docs), DocSeparator);
              r.markdownContent == if IsChunksType(exportType) then Strip(joined) else joined
    ensures !env.fileExists ==> r.error == Some("File not found: " + path)
    ensures env.fileExists && env.extension == ".txt" && env.readText.Raised? ==>
              r.error == Some(env.readText.message)
    ensures env.fileExists && env.extension != ".txt" && env.load(ModeOf(exportType)).Raised? ==>
              r.error == Some(env.load(ModeOf(exportType)).message)
    ensures env.fileExists && env.extension != ".txt" && env.load(ModeOf(exportType)) == Ok([]) ==>
              r.error == Some("No documents were processed")
  {
    if !env.fileExists then Failed("File not found: " + path)
    else if env.extension == ".txt" then
      match env.readText
      case Raised(e) => Failed(e)
      case Ok(file) => TxtResult(path, exportType, file)
    else
      var mode := ModeOf(exportType);
      match env.load(mode)
      case Raised(e) => Failed(e)
      case Ok(docs) =>
        if |docs| == 0 then Failed("No documents were processed")
        else if mode == Markdown then ShapeMarkdown(docs)
        else
          ChunkModeAgreesWithMarkdown(docs);
          ChunkModeResult(docs)
  }

  /** process_document as the source runs it, with the two chunking loops. */
  method ProcessDocument(path: string, exportType: string, env: Environment) returns (r: ProcessingResult)
    ensures r == Process(path, exportType, env)
  {
    if !env.fileExists {
      return Failed("File not found: " + path);
    }
    if env.extension == ".txt" {
      match env.readText {
        case Raised(e) =>
          return Failed(e);
        case Ok(file) =>
          var metadata := TxtMetadata(exportType, file);
          if IsChunksType(exportType) {
            var chunks := ChunkText(file.content, path);
            metadata := metadata[TotalChunksKey := Int(|chunks|)];
            return ProcessingResult(true, file.content, metadata, Some(chunks), None);
          }
          return ProcessingResult(true, file.content, metadata, None, None);
      }
    }
    var mode := ModeOf(exportType);
    match env.load(mode) {
      case Raised(e) =>
        return Failed(e);
      case Ok(docs) =>
        if |docs| == 0 {
          return Failed("No documents were processed");
        }
        if mode == Markdown {
          return ShapeMarkdown(docs);
        }
        r := ShapeChunks(docs);
    }
  }
}

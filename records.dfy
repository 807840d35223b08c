/** The records the processor exchanges: the loader's documents, chunk
    records and DocumentProcessingResult (python-services/docling_service.py). */
module Records {

  datatype Option<+T> = None | Some(value: T)

  /** What an external step (reading the file, running the loader) gives back:
      its value, or the string form of the Exception it raised. */
  datatype Outcome<+T> = Ok(value: T) | Raised(message: string)

  /** A metadata value. It stands for the `Any` of the open metadata
      dictionaries; the model only copies these values and never inspects them. */
  datatype Value =
    | Str(s: string)
    | Int(i: int)
    | Real(r: real)
    | Bool(b: bool)
    | Null
    | List(items: seq<Value>)
    | Object(fields: map<string, Value>)

  type Metadata = map<string, Value>

  /** One unit the document loader returns: its text and the metadata it attaches. */
  datatype Doc = Doc(pageContent: string, metadata: Metadata)

  /** A chunk record: {"chunk_id", "content", "metadata"}. */
  datatype Chunk = Chunk(chunkId: nat, content: string, metadata: Metadata)

  /** DocumentProcessingResult; `chunks` and `error` default to None. */
  datatype ProcessingResult = ProcessingResult(
    success: bool,
    markdownContent: string,
    metadata: Metadata,
    chunks: Option<seq<Chunk>>,
    error: Option<string>)

  // Metadata keys the processor writes.
  const ProcessingMethodKey := "processing_method"
  const ExportTypeKey := "export_type"
  const FileTypeKey := "file_type"
  const TotalLengthKey := "total_length"
  const FileSizeKey := "file_size"
  const TotalChunksKey := "total_chunks"
  const TotalDocumentsKey := "total_documents"
  const ChunkIndexKey := "chunk_index"
  const SourceKey := "source"

  /** The invariant every result of process_document keeps: a success carries
      no error; a failure carries an error and nothing else. */
  predicate WellFormed(r: ProcessingResult)
    ensures WellFormed(r) ==> (r.success <==> r.error.None?)
    ensures WellFormed(r) && !r.success ==> r == ProcessingResult(false, "", map[], None, Some(r.error.value))
  {
    if r.success then r.error.None?
    else r.markdownContent == "" && r.metadata == map[] && r.chunks.None? && r.error.Some?
  }

  /** The record built in the exception handler. */
  function Failed(message: string): (r: ProcessingResult)
    ensures WellFormed(r) && !r.success && r.error == Some(message)
  {
    ProcessingResult(false, "", map[], None, Some(message))
  }
}

# Docling document processor — a Dafny model

This project models `DoclingProcessor.process_document` of the LangChain Docling
processing service (`python-services/docling_service.py`). Given a file path and an
export type, the processor returns a `DocumentProcessingResult`:

- A `.txt` file is read directly. Its content is returned as it is. With export type
  "chunks" (in any letter case) the text is also split into lines, and the lines are
  packed greedily into chunks of about 500 characters.
- Any other file goes through the Docling loader. The loader runs in markdown mode or in
  chunk mode. Its units are joined into one markdown text, or each unit is wrapped as a
  chunk record. Either way, fixed processing fields are merged with the first unit's
  metadata.
- A missing file, an empty loader result and every raised `Exception` give a failure
  record. That record has `success = false`, empty content, empty metadata and the
  error text.

Modules:

- `Text`: Python's `str.isspace`, `strip`, `split('\n')`, `join` and `lower`.
- `Records`: the loader's units (`Doc`), chunk records, metadata values, the result
  record and the failure record.
- `TxtChunker`: the line-chunking loop as a method. It is proved equal to a packing
  function. That function is shown to be the unique greedy packing, and its chunks
  satisfy the id, size and blankness properties.
- `LoaderResults`: markdown-mode shaping as a function, and chunk-mode shaping as a
  method with its loop.
- `Processor`: the dispatch of `process_document`, over an `Environment` value. That
  value holds what the processor observes: whether the file exists, its lower-cased
  extension, the outcome of reading it, and the loader's outcome for each export mode.

## Model

| member | source | states |
|---|---|---|
| Text.Strip | python-services/docling_service.py:94-97 | `strip()` returns a slice no longer than its input. The slice starts and ends with a non-whitespace character. It is empty exactly when the input is all whitespace. |
| Text.StripIsSlice | python-services/docling_service.py:97 | The stripped text is one contiguous slice of the buffer, starting right after the leading whitespace. |
| Text.StripRemovesOnlySpace | python-services/docling_service.py:97 | Only whitespace lies on either side of that slice. |
| Text.StripDropsTrailingSpace | python-services/docling_service.py:101-103 | A buffer ending in whitespace, such as the newline the loop appends, loses at least that character to `strip()`. |
| Text.StripIgnoresTrailingSpace | python-services/docling_service.py:182-198 | Appending whitespace, such as each `"\n\n"` left at the end of `total_content`, never changes the stripped text. |
| Text.TrimStart | python-services/docling_service.py:97 | The left half of `strip()`: the suffix left after dropping the leading whitespace. |
| Text.TrimEnd | python-services/docling_service.py:97 | The right half of `strip()`: the prefix left after dropping the trailing whitespace. |
| Text.AllSpaceAppend | python-services/docling_service.py:94 | A concatenation is all whitespace exactly when both parts are. |
| Text.Split | python-services/docling_service.py:87 | `split('\n')` yields at least one piece. No piece contains a newline, and the pieces joined with newlines give back the text. |
| Text.SplitCons | python-services/docling_service.py:87 | A newline-free line followed by a newline splits off as the first line, and the rest splits on its own. |
| Text.SplitJoin | python-services/docling_service.py:87 | Splitting undoes joining for newline-free pieces, so the lines are exactly the maximal newline-free runs. |
| Text.Join | python-services/docling_service.py:151 | The join of no units is empty. Otherwise its length is the units' lengths plus one separator between each pair, and it starts with the first unit. |
| Text.JoinSnoc | python-services/docling_service.py:151 | Joining one more unit adds the separator and that unit at the end. |
| Text.IndexOf | python-services/docling_service.py:87 | Returns the position of the first separator, where `split` cuts. |
| Text.Lower | python-services/docling_service.py:85 | The modelled lowering keeps the length of the export type (see Text.Lower under Left out). |
| Records.WellFormed | python-services/docling_service.py:35-41 | A well-formed result succeeds exactly when it has no error. A well-formed failure is the handler's record (lines 205-210): empty content, empty metadata, no chunks, and only the error text. |
| Records.Failed | python-services/docling_service.py:203-210 | The exception handler's record fails, is well formed (no content, no metadata, no chunks), and carries the exception text as its error. |
| TxtChunker.Pack | python-services/docling_service.py:87-103 | The buffers the loop flushes are non-empty and, concatenated, give back the lines. |
| TxtChunker.PackFromGreedy | python-services/docling_service.py:92-103 | From any point of the loop (the lines already buffered and the lines still to come) the remaining packing is greedy, and its first buffer continues the current one. |
| TxtChunker.GreedyEnd | python-services/docling_service.py:105-111 | At the end of the lines the final flush closes the current buffer, which is a greedy packing of what it holds. |
| TxtChunker.GreedyFlushStep | python-services/docling_service.py:93-101 | A turn that flushes because the next line would pass 500 keeps the packing greedy. |
| TxtChunker.GreedyExtendStep | python-services/docling_service.py:102-103 | A turn that appends the line to the buffer keeps the packing greedy, and the buffer still starts with the lines it held. |
| TxtChunker.TxtChunks | python-services/docling_service.py:87-111 | Chunk k of the text has id k, non-empty content and metadata `{chunk_index: k, source: path}`. |
| TxtChunker.ChunksOfShape | python-services/docling_service.py:95-111 | The records built from the kept buffers of any packing have consecutive ids, matching chunk_index and source, and non-empty content. |
| TxtChunker.Flush | python-services/docling_service.py:94-111 | A flush emits the stripped buffer as the next record exactly when it is not blank. The record's id and chunk_index equal the number of records so far, and the counter moves on by one. A blank buffer emits nothing. |
| TxtChunker.FlushStep | python-services/docling_service.py:94-100 | The records of the buffers closed so far, plus the flushed buffer, are the previous records with one more record (the stripped buffer, numbered next) when that buffer is not blank. They are the previous records unchanged when it is blank. |
| TxtChunker.ChunkText | python-services/docling_service.py:85-111 | The loop returns exactly the chunks of the greedy packing of the lines. Chunk k has id k, metadata `{chunk_index: k, source: path}` and non-empty content. |
| TxtChunker.Kept | python-services/docling_service.py:94-100 | No more buffers are kept than were flushed. KeptSingle and KeptDistributes below pin down which ones and in what order. |
| TxtChunker.KeptSingle | python-services/docling_service.py:94 | A single buffer is kept exactly when its stripped text is non-empty, the test `if current_chunk.strip()`. |
| TxtChunker.KeptDistributes | python-services/docling_service.py:92-111 | Keeping commutes with concatenation. With KeptSingle this makes Kept the order- and multiplicity-preserving filter of the non-blank buffers: each flush decides alone whether its buffer becomes a chunk. |
| TxtChunker.KeptSnoc | python-services/docling_service.py:92-111 | Flushing one more buffer appends exactly what that buffer alone yields. |
| TxtChunker.KeptMembers | python-services/docling_service.py:94-100 | A buffer is among the kept ones exactly when it is one of the flushed buffers and is not blank. |
| TxtChunker.KeptEmpty | python-services/docling_service.py:94-111 | No buffer is kept exactly when every buffer is blank. |
| TxtChunker.PackIsGreedy | python-services/docling_service.py:87-103 | The loop's buffers hold whole lines, and every line lands in exactly one buffer, in input order. Each buffer admitted its lines only while the length stayed within 500. Each flush happened because the next line would have gone past 500. |
| TxtChunker.PackCharacterized | python-services/docling_service.py:92-103 | A partition of the lines meets the greedy rules exactly when it is the one the loop builds (both directions). |
| TxtChunker.GreedyCons | python-services/docling_service.py:93-101 | A buffer flushed because the next line did not fit, followed by a greedy packing of the remaining lines, is a greedy packing of all of them. |
| TxtChunker.GreedyPackingUnique | python-services/docling_service.py:92-103 | Two greedy packings of the same lines are equal. |
| TxtChunker.FitsAt | python-services/docling_service.py:93 | Every line after the first in a buffer passed the size check against the lines before it. |
| TxtChunker.GroupBound | python-services/docling_service.py:93-103 | A stripped buffer is at most 500 characters, unless the buffer is a single line longer than 500. |
| TxtChunker.TxtChunkShape | python-services/docling_service.py:90-111 | Chunk ids run 0..n-1 and each chunk_index equals its id. Chunk k is the stripped k-th kept buffer, is non-empty, and is at most 500 characters unless that buffer is one over-long line. |
| TxtChunker.KeptChunksShape | python-services/docling_service.py:94-111 | The records built from non-blank buffers that fit have consecutive ids with matching chunk_index. Each content is the stripped buffer, is non-empty, and meets the size bound. |
| TxtChunker.TxtChunksEmptyIffBlank | python-services/docling_service.py:94-111 | An all-whitespace (or empty) text yields no chunks, and any other text yields at least one. |
| LoaderResults.PageContents | python-services/docling_service.py:151 | The page contents, one per unit, in order. |
| LoaderResults.ShapeMarkdown | python-services/docling_service.py:149-168 | The content is the units' texts joined by `"\n\n"`. The metadata is the first unit's keys plus the four processing keys, and those four override any same-named keys. The values are `langchain_docling`, `markdown`, the unit count and the content length. Other keys keep the first unit's value. There are no chunks. |
| LoaderResults.TotalContent | python-services/docling_service.py:173-182 | With at least one unit, the running text ends with `"\n\n"`, which every unit appends. |
| LoaderResults.TotalContentLength | python-services/docling_service.py:182-189 | `total_length` counts every page plus two characters per unit. |
| LoaderResults.TotalContentIsJoin | python-services/docling_service.py:173-182 | For at least one unit, the running text is the `"\n\n"`-join plus one trailing `"\n\n"`. |
| LoaderResults.ChunkFields | python-services/docling_service.py:185-190 | The four processing fields of chunk mode: `langchain_docling`, `chunks`, the chunk count and the running text's length. |
| LoaderResults.CombinedMetadata | python-services/docling_service.py:185-194 | The combined metadata has the four processing keys and every key of the first unit's metadata. |
| LoaderResults.CombinedIsOverlay | python-services/docling_service.py:193-194 | Skipping the overlay when the first unit's metadata is empty changes nothing: the result is always the processing fields overlaid by that metadata. |
| LoaderResults.OverlayKeys | python-services/docling_service.py:194 | `dict.update` as a map overlay: the keys of either side, with the overlaid side's values winning. |
| LoaderResults.CombinedMetadataShape | python-services/docling_service.py:185-194 | Chunk-mode metadata has the first unit's keys plus the four processing keys. The first unit's values win, which is the opposite of markdown mode. Each processing field the unit lacks takes its own value: `langchain_docling`, `chunks`, the unit count, and the pages plus two per unit. |
| LoaderResults.LoaderChunksShape | python-services/docling_service.py:175-181 | There is one chunk record per unit, and record i has id i with the unit's text and metadata. |
| LoaderResults.ChunkModeResult | python-services/docling_service.py:172-201 | Chunk i is unit i's text and metadata with id i. The content is the stripped running text, and the metadata is the combined overlay. |
| LoaderResults.ShapeChunks | python-services/docling_service.py:172-201 | The chunk-mode loop computes exactly `ChunkModeResult`. |
| LoaderResults.ChunkModeAgreesWithMarkdown | python-services/docling_service.py:151-198 | For the same units, chunk mode's content is markdown mode's content stripped, and its running text is two characters longer. |
| Processor.IsChunksType | python-services/docling_service.py:85 | An export type equal to "chunks" after lowering has six characters. |
| Processor.ModeOf | python-services/docling_service.py:129-132 | Chunk mode is chosen exactly for the six-letter spellings of "chunks" in any case, with the Kelvin sign allowed for the k. Every other export type gives markdown mode. |
| Processor.LowerCharIs | python-services/docling_service.py:85 | A character lowers to a given ASCII letter exactly when it is that letter, its capital, or (for k) the Kelvin sign. |
| Processor.ChunksTypeSpelling | python-services/docling_service.py:129-132 | Chunk mode is chosen exactly for six-letter spellings of "chunks" in any case, with the Kelvin sign allowed for the k. Every other export type means markdown mode. |
| Processor.TxtMetadata | python-services/docling_service.py:77-83 | The `.txt` metadata has exactly five fields: `langchain_docling_txt`, the export type as given, `txt`, the content length and the file size. |
| Processor.TxtResult | python-services/docling_service.py:77-126 | The `.txt` result has the raw content in both modes. Its metadata has the five fields, with `total_length = len(content)` and `file_size`. In chunk mode it adds the line chunks and `total_chunks` equal to their number. Otherwise there are no chunks. |
| Processor.Process | python-services/docling_service.py:61-210 | Every result is well formed. The call succeeds exactly when the file exists and either the read succeeds (`.txt`) or the loader returns at least one unit. Chunks are present exactly on success in chunk mode. The content is the raw text, the join, or the stripped join. Each failure carries its error: "File not found: " + path, the exception text, or "No documents were processed". |
| Processor.ProcessDocument | python-services/docling_service.py:61-210 | The method, with both chunking loops, returns exactly `Process`. |

## Left out

- The FastAPI application, CORS middleware and HTTP endpoints, with their temporary upload files, status codes and service start-up. These are request plumbing around the processor.
- `print` logging (lines 62, 69, 73, 146 and 204) and `load_dotenv`: the calls are assumed not to raise. A `print` that raised at line 204 would escape the handler, and one raising earlier would produce a failure record. Under that assumption they do not change the result.
- `python-services/start_docling_service.py` is not part of this model. It is a process launcher that polls a health endpoint.
- The file system: `os.path.exists`, `open().read()` with UTF-8 decoding and `os.path.getsize` are inputs (`fileExists`, `readText`). A decoding or read error is a `Raised` outcome. Universal-newline translation during the read is taken to have happened already.
- `Path(file_path).suffix.lower()`: the lower-cased extension is an input (`extension`). Only its comparison with ".txt" is modelled.
- `DoclingLoader(...).load()` and `ExportType`: the loader is a library the model cannot see. It is an input function from export mode to a unit list or a raised error. Which file formats it supports is the library's concern.
- Exceptions raised while shaping the loader's output (for example a unit whose text is not a string) cannot happen with the typed model's inputs.
- Aliasing: markdown mode updates the loader's own metadata dictionary in place. The model states the resulting map and not the mutation of the loader's unit.
- Text.Lower: models only the case mappings that can produce "chunks" (A-Z and the Kelvin sign). Python lowers other characters too, some into several characters, but none of those results can compare equal to "chunks", so the chosen mode is the same.
- Text.Strip: uses Python's `str.isspace` set. Strings are sequences of Unicode scalar values. A Python `str` may also hold lone surrogates (U+D800 to U+DFFF), which a Dafny `char` cannot. Strict UTF-8 decoding of the file never yields them, so no text the processor reads is lost. There is no encoding step.
- Exceptions outside `Exception` (`KeyboardInterrupt`, `SystemExit`, `GeneratorExit`) are not caught by the handler at line 203 and escape `process_document` without a record. The environment is assumed never to raise them: every `Raised` outcome stands for an `Exception`.
- DocumentProcessingResult's pydantic validation and serialisation are not modelled. The record is a plain datatype.

## Notes

- The chunks do not reproduce the input lines exactly: the code strips each chunk and drops whitespace-only buffers. The buffers, though, restore the lines exactly (`Flatten(Pack(lines)) == lines`, in `TxtChunker.PackIsGreedy`).
- The size check compares `len(current_chunk) + len(line)` with 500 and ignores the newline appended afterwards, so a buffer can hold 501 characters before stripping. The bound proved (`TxtChunker.GroupBound`) is on the stripped text, which is what the code returns.
- When the first line alone is longer than 500 characters, the loop flushes the empty start buffer. That buffer strips to nothing and produces no chunk, and the packing function simply omits it (`TxtChunker.Close`).

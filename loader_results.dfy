/** Shaping of what the document loader returns for a non-text file into a
    DocumentProcessingResult (python-services/docling_service.py): markdown
    mode joins the units' texts, chunk mode wraps every unit as a chunk record.
    The loader itself is not modelled; its output is the input here. */
module LoaderResults {
  import opened Text
  import opened Records

  /** What markdown mode puts between units, and chunk mode after each unit. */
  const DocSeparator := "\n\n"

  const MarkdownKeys: set<string> := {ProcessingMethodKey, ExportTypeKey, TotalDocumentsKey, TotalLengthKey}
  const ChunkKeys: set<string> := {ProcessingMethodKey, ExportTypeKey, TotalChunksKey, TotalLengthKey}

  function PageContents(docs: seq<Doc>): (pages: seq<string>)
    ensures |pages| == |docs|
    ensures forall i :: 0 <= i < |docs| ==> pages[i] == docs[i].pageContent
  {
    seq(|docs|, i requires 0 <= i < |docs| => docs[i].pageContent)
  }

  /** The metadata of the first unit, or none when there is no unit. */
  function FirstMetadata(docs: seq<Doc>): Metadata
  {
    if |docs| > 0 then docs[0].metadata else map[]
  }

  /** Markdown mode: the units' texts joined by blank lines; the metadata is the
      first unit's, with the four processing fields written over it. */
  function ShapeMarkdown(docs: seq<Doc>): (r: ProcessingResult)
    ensures r.success && r.error.None? && r.chunks.None?
    ensures r.markdownContent == Join(PageContents(docs), DocSeparator)
    ensures r.metadata.Keys == FirstMetadata(docs).Keys + MarkdownKeys
    ensures && r.metadata[ProcessingMethodKey] == Str("langchain_docling")
            && r.metadata[ExportTypeKey] == Str("markdown")
            && r.metadata[TotalDocumentsKey] == Int(|docs|)
            && r.metadata[TotalLengthKey] == Int(|r.markdownContent|)
    ensures forall k :: k in FirstMetadata(docs) && k !in MarkdownKeys ==>
              r.metadata[k] == FirstMetadata(docs)[k]
  {
    var content := Join(PageContents(docs), DocSeparator);
    var metadata := FirstMetadata(docs) + map[
      ProcessingMethodKey := Str("langchain_docling"),
      ExportTypeKey := Str("markdown"),
      TotalDocumentsKey := Int(|docs|),
      TotalLengthKey := Int(|content|)];
    ProcessingResult(true, content, metadata, None, None)
  }

  /** Chunk mode's running text: every unit's text followed by a blank line. */
  function TotalContent(docs: seq<Doc>): (r: string)
    ensures |docs| > 0 ==> |r| >= 2 && r[|r| - 2..] == DocSeparator
  {
    if docs == [] then "" else TotalContent(docs[..|docs| - 1]) + docs[|docs| - 1].pageContent + DocSeparator
  }

  function PagesLength(docs: seq<Doc>): nat
  {
    if docs == [] then 0 else PagesLength(docs[..|docs| - 1]) + |docs[|docs| - 1].pageContent|
  }

  /** total_length in chunk mode counts two separator characters per unit. */
  lemma {:induction false} TotalContentLength(docs: seq<Doc>)
    ensures |TotalContent(docs)| == PagesLength(docs) + 2 * |docs|
  {
    if docs != [] {
      TotalContentLength(docs[..|docs| - 1]);
    }
  }

  /** Chunk mode's running text is markdown mode's content plus one more separator. */
  lemma {:induction false} TotalContentIsJoin(docs: seq<Doc>)
    requires |docs| > 0
    ensures TotalContent(docs) == Join(PageContents(docs), DocSeparator) + DocSeparator
  {
    var n := |docs|;
    if n > 1 {
      var init := docs[..n - 1];
      TotalContentIsJoin(init);
      assert PageContents(docs) == PageContents(init) + [docs[n - 1].pageContent];
      JoinSnoc(PageContents(init), docs[n - 1].pageContent, DocSeparator);
    } else {
      assert docs[..0] == [];
    }
  }

  function LoaderChunks(docs: seq<Doc>): seq<Chunk>
  {
    seq(|docs|, i requires 0 <= i < |docs| => Chunk(i, docs[i].pageContent, docs[i].metadata))
  }

  lemma LoaderChunksShape(docs: seq<Doc>)
    ensures |LoaderChunks(docs)| == |docs|
    ensures forall i :: 0 <= i < |docs| ==> LoaderChunks(docs)[i] == Chunk(i, docs[i].pageContent, docs[i].metadata)
  {
  }

  /** The four processing fields chunk mode starts its metadata with. */
  function ChunkFields(docs: seq<Doc>): (m: Metadata)
    ensures m.Keys == ChunkKeys
    ensures && m[ProcessingMethodKey] == Str("langchain_docling")
            && m[ExportTypeKey] == Str("chunks")
            && m[TotalChunksKey] == Int(|docs|)
            && m[TotalLengthKey] == Int(|TotalContent(docs)|)
  {
    map[
      ProcessingMethodKey := Str("langchain_docling"),
      ExportTypeKey := Str("chunks"),
      TotalChunksKey := Int(|docs|),
      TotalLengthKey := Int(|TotalContent(docs)|)]
  }

  /** The combined metadata of chunk mode: the four processing fields, with the
      first chunk's metadata written over them when it is not empty. */
  function CombinedMetadata(docs: seq<Doc>): (m: Metadata)
    ensures ChunkKeys <= m.Keys
    ensures |docs| > 0 ==> docs[0].metadata.Keys <= m.Keys
  {
    var combined := ChunkFields(docs);
    if |docs| > 0 && |docs[0].metadata| > 0 then combined + docs[0].metadata else combined
  }

  /** Skipping the overlay of an empty dictionary changes nothing: the combined
      metadata is the processing fields with the first unit's metadata on top. */
  lemma CombinedIsOverlay(docs: seq<Doc>)
    ensures CombinedMetadata(docs) == ChunkFields(docs) + FirstMetadata(docs)
  {
    if !(|docs| > 0 && |docs[0].metadata| > 0) {
      assert FirstMetadata(docs) == map[];
      assert ChunkFields(docs) + map[] == ChunkFields(docs);
    }
  }

  lemma OverlayKeys(base: Metadata, top: Metadata)
    ensures (base + top).Keys == base.Keys + top.Keys
    ensures forall k :: k in top ==> (base + top)[k] == top[k]
    ensures forall k :: k in base && k !in top ==> (base + top)[k] == base[k]
  {
  }

  /** The first unit's metadata keys win; the processing fields fill in the rest. */
  lemma CombinedMetadataShape(docs: seq<Doc>)
    ensures var m, first := CombinedMetadata(docs), FirstMetadata(docs);
            && m.Keys == first.Keys + ChunkKeys
            && (forall k :: k in first ==> m[k] == first[k])
            && (ProcessingMethodKey !in first ==> m[ProcessingMethodKey] == Str("langchain_docling"))
            && (ExportTypeKey !in first ==> m[ExportTypeKey] == Str("chunks"))
            && (TotalChunksKey !in first ==> m[TotalChunksKey] == Int(|docs|))
            && (TotalLengthKey !in first ==> m[TotalLengthKey] == Int(PagesLength(docs) + 2 * |docs|))
  {
    TotalContentLength(docs);
    CombinedIsOverlay(docs);
    OverlayKeys(ChunkFields(docs), FirstMetadata(docs));
  }

  /** Chunk mode: unit i becomes chunk i with the unit's own text and metadata;
      the content is the stripped running text; the first unit's metadata wins
      over the processing fields. */
  function ChunkModeResult(docs: seq<Doc>): (r: ProcessingResult)
    ensures r.success && r.error.None? && r.chunks.Some?
    ensures |r.chunks.value| == |docs|
    ensures forall i :: 0 <= i < |docs| ==>
              r.chunks.value[i] == Chunk(i, docs[i].pageContent, docs[i].metadata)
    ensures r.markdownContent == Strip(TotalContent(docs))
    ensures r.metadata == CombinedMetadata(docs)
  {
    LoaderChunksShape(docs);
    ProcessingResult(true, Strip(TotalContent(docs)), CombinedMetadata(docs), Some(LoaderChunks(docs)), None)
  }

  /** The chunk-mode loop over the loader's units. */
  method ShapeChunks(docs: seq<Doc>) returns (r: ProcessingResult)
    ensures r == ChunkModeResult(docs)
  {
    var chunks: seq<Chunk> := [];
    var totalContent := "";
    for i := 0 to |docs|
      invariant |chunks| == i
      invariant forall k :: 0 <= k < i ==> chunks[k] == Chunk(k, docs[k].pageContent, docs[k].metadata)
      invariant totalContent == TotalContent(docs[..i])
    {
      assert docs[..i + 1][..i] == docs[..i];
      chunks := chunks + [Chunk(i, docs[i].pageContent, docs[i].metadata)];
      totalContent := totalContent + docs[i].pageContent + DocSeparator;
    }
    assert docs[..|docs|] == docs;
    var combined: Metadata := map[
      ProcessingMethodKey := Str("langchain_docling"),
      ExportTypeKey := Str("chunks"),
      TotalChunksKey := Int(|chunks|),
      TotalLengthKey := Int(|totalContent|)];
    assert combined == ChunkFields(docs);
    if |chunks| > 0 && |chunks[0].metadata| > 0 {
      combined := combined + chunks[0].metadata;
    }
    assert chunks == LoaderChunks(docs);
    assert combined == CombinedMetadata(docs);
    r := ProcessingResult(true, Strip(totalContent), combined, Some(chunks), None);
  }

  /** For the same units, chunk mode's content is markdown mode's content
      stripped, and its total_length (before any overlay) is two more. */
  lemma ChunkModeAgreesWithMarkdown(docs: seq<Doc>)
    requires |docs| > 0
    ensures ChunkModeResult(docs).markdownContent == Strip(ShapeMarkdown(docs).markdownContent)
    ensures |TotalContent(docs)| == |ShapeMarkdown(docs).markdownContent| + 2
  {
    TotalContentIsJoin(docs);
    StripIgnoresTrailingSpace(Join(PageContents(docs), DocSeparator), DocSeparator);
  }
}

/** The line chunker of the plain-text path of process_document
    (python-services/docling_service.py, export type "chunks"): the text is
    split on '\n', whole lines are packed greedily into a buffer that is
    flushed when the next line would take it past 500 characters, and every
    flushed buffer that is not blank becomes a chunk. */
module TxtChunker {
  import opened Text
  import opened Records

  /** The limit the chunker compares the buffer length plus the next line with. */
  const MaxChunkChars := 500

  /** The lines that one buffer holds between two flushes. */
  type Group = seq<string>

  /** The buffer text after the loop has taken the lines of `g`: each line
      followed by a newline. */
  function BufferText(g: Group): string
  {
    if g == [] then "" else BufferText(g[..|g| - 1]) + g[|g| - 1] + "\n"
  }

  /** The group a flush closes. Closing the empty start buffer yields none: its
      stripped text is empty, so the source emits nothing for it either. */
  function Close(cur: Group): seq<Group>
  {
    if cur == [] then [] else [cur]
  }

  /** The packing the loop performs, as a function: `cur` holds the lines
      already in the buffer, `rest` the lines still to come. */
  function PackFrom(cur: Group, rest: seq<string>): (r: seq<Group>)
    decreases |rest|
  {
    if rest == [] then Close(cur)
    else if |BufferText(cur)| + |rest[0]| > MaxChunkChars then Close(cur) + PackFrom([rest[0]], rest[1..])
    else PackFrom(cur + [rest[0]], rest[1..])
  }

  /** The buffers of the loop: non-empty runs of whole lines that together
      give back the lines, in order. */
  function Pack(lines: seq<string>): (r: seq<Group>)
    ensures Flatten(r) == lines
    ensures forall k :: 0 <= k < |r| ==> r[k] != []
  {
    PackFromGreedy([], lines);
    assert [] + lines == lines;
    PackFrom([], lines)
  }

  /** A buffer the source drops because its stripped text is empty. */
  predicate Blank(g: Group)
  {
    Strip(BufferText(g)) == ""
  }

  /** The groups that become chunks, in order: exactly the non-blank ones. */
  function Kept(gs: seq<Group>): (r: seq<Group>)
    ensures |r| <= |gs|
  {
    if gs == [] then []
    else Kept(gs[..|gs| - 1]) + (if Blank(gs[|gs| - 1]) then [] else [gs[|gs| - 1]])
  }

  /** Every kept group is a non-blank group of the input, and every non-blank
      group of the input is kept. */
  lemma {:induction false} KeptMembers(gs: seq<Group>)
    ensures forall g :: g in Kept(gs) ==> g in gs && !Blank(g)
    ensures forall g :: g in gs && !Blank(g) ==> g in Kept(gs)
    decreases |gs|
  {
    if gs != [] {
      var init := gs[..|gs| - 1];
      var last := gs[|gs| - 1];
      assert gs == init + [last];
      KeptMembers(init);
    }
  }

  /** Kept on a single group keeps it exactly when it is not blank. */
  lemma KeptSingle(g: Group)
    ensures Kept([g]) == if Blank(g) then [] else [g]
  {
    assert [g][..0] == [];
  }

  /** Appending one group appends what Kept makes of that group alone. */
  lemma KeptSnoc(gs: seq<Group>, g: Group)
    ensures Kept(gs + [g]) == Kept(gs) + Kept([g])
  {
    assert (gs + [g])[..|gs|] == gs;
    KeptSingle(g);
  }

  /** Kept distributes over concatenation. With KeptSingle this makes it the
      order- and multiplicity-preserving filter of the non-blank groups. */
  lemma {:induction false} KeptDistributes(a: seq<Group>, b: seq<Group>)
    ensures Kept(a + b) == Kept(a) + Kept(b)
    decreases |b|
  {
    if b == [] {
      assert a + b == a;
      assert Kept(a) + Kept(b) == Kept(a) + [] == Kept(a);
    } else {
      var init := b[..|b| - 1];
      var g := b[|b| - 1];
      var front := a + init;
      assert b == init + [g];
      assert a + b == front + [g];
      KeptSnoc(front, g);
      KeptSnoc(init, g);
      KeptDistributes(a, init);
      ConcatAssoc(Kept(a), Kept(init), Kept([g]));
    }
  }

  lemma ConcatAssoc(x: seq<Group>, y: seq<Group>, z: seq<Group>)
    ensures x + (y + z) == (x + y) + z
  {
  }

  /** The chunk record the source builds for a flushed buffer. */
  function TxtChunk(id: nat, content: string, source: string): Chunk
  {
    Chunk(id, content, map[ChunkIndexKey := Int(id), SourceKey := Str(source)])
  }

  /** Chunk k of a list of kept groups: the k-th group's stripped buffer, with id k. */
  function ChunksOf(kept: seq<Group>, source: string): seq<Chunk>
  {
    seq(|kept|, k requires 0 <= k < |kept| => TxtChunk(k, Strip(BufferText(kept[k])), source))
  }

  /** The chunks of `content`: chunk k is the stripped text of the k-th
      non-blank group of the greedy packing of its lines. */
  function TxtChunks(content: string, source: string): (r: seq<Chunk>)
    ensures forall k :: 0 <= k < |r| ==>
              r[k].chunkId == k && r[k].content != ""
              && r[k].metadata == map[ChunkIndexKey := Int(k), SourceKey := Str(source)]
  {
    var gs := Pack(Split(content, '\n'));
    ChunksOfShape(gs, source);
    ChunksOf(Kept(gs), source)
  }

  /** The chunking loop of the plain-text path. */
  method ChunkText(content: string, source: string) returns (chunks: seq<Chunk>)
    ensures chunks == TxtChunks(content, source)
    ensures forall k :: 0 <= k < |chunks| ==>
              chunks[k].chunkId == k && chunks[k].content != ""
              && chunks[k].metadata == map[ChunkIndexKey := Int(k), SourceKey := Str(source)]
  {
    var lines := Split(content, '\n');
    chunks := [];
    var current := "";
    var chunkId := 0;
    ghost var packed := Pack(lines);
    ghost var done: seq<Group> := [];
    ghost var cur: Group := [];
    for i := 0 to |lines|
      invariant current == BufferText(cur)
      invariant packed == done + PackFrom(cur, lines[i..])
      invariant chunks == ChunksOf(Kept(done), source)
      invariant chunkId == |chunks|
    {
      var line := lines[i];
      if |current| + |line| > MaxChunkChars {
        FlushTurn(lines, packed, i, done, cur);
        FlushStep(done, cur, chunks, source);
        chunks, chunkId := Flush(current, chunks, chunkId, source);
        current := line + "\n";
        done := done + Close(cur);
        cur := [line];
      } else {
        AddTurn(lines, packed, i, done, cur);
        current := current + line + "\n";
        cur := cur + [line];
      }
    }
    FlushStep(done, cur, chunks, source);
    chunks, chunkId := Flush(current, chunks, chunkId, source);
    assert lines[|lines|..] == [];
    done := done + Close(cur);
    assert done == packed;
  }

  /** The flush the loop performs at an over-long line and once more at the
      end: the stripped buffer becomes the next chunk unless it is blank. */
  method Flush(current: string, chunks: seq<Chunk>, chunkId: nat, source: string)
      returns (chunks': seq<Chunk>, chunkId': nat)
    requires chunkId == |chunks|
    ensures chunkId' == |chunks'|
    ensures Strip(current) == "" ==> chunks' == chunks
    ensures Strip(current) != "" ==> chunks' == chunks + [TxtChunk(|chunks|, Strip(current), source)]
  {
    chunks', chunkId' := chunks, chunkId;
    var stripped := Strip(current);
    if stripped != "" {
      chunks' := chunks' + [TxtChunk(chunkId', stripped, source)];
      chunkId' := chunkId' + 1;
    }
  }

  /** A turn of the loop that flushes the buffer and restarts it with the line. */
  lemma FlushTurn(lines: seq<string>, packed: seq<Group>, i: nat, done: seq<Group>, cur: Group)
    requires i < |lines| && |BufferText(cur)| + |lines[i]| > MaxChunkChars
    requires packed == done + PackFrom(cur, lines[i..])
    ensures packed == (done + Close(cur)) + PackFrom([lines[i]], lines[i + 1..])
    ensures BufferText([lines[i]]) == lines[i] + "\n"
  {
    var rest := lines[i..];
    assert rest[0] == lines[i] && rest[1..] == lines[i + 1..];
    assert PackFrom(cur, rest) == Close(cur) + PackFrom([lines[i]], lines[i + 1..]);
    assert BufferText([lines[i]]) == BufferText([]) + lines[i] + "\n";
  }

  /** A turn of the loop that adds the line to the buffer. */
  lemma AddTurn(lines: seq<string>, packed: seq<Group>, i: nat, done: seq<Group>, cur: Group)
    requires i < |lines| && |BufferText(cur)| + |lines[i]| <= MaxChunkChars
    requires packed == done + PackFrom(cur, lines[i..])
    ensures packed == done + PackFrom(cur + [lines[i]], lines[i + 1..])
    ensures BufferText(cur + [lines[i]]) == BufferText(cur) + lines[i] + "\n"
  {
    assert lines[i..][1..] == lines[i + 1..];
    assert (cur + [lines[i]])[..|cur|] == cur;
  }

  /** A flush appends one chunk exactly when the closed buffer is not blank. */
  lemma FlushStep(done: seq<Group>, cur: Group, chunks: seq<Chunk>, source: string)
    requires chunks == ChunksOf(Kept(done), source)
    ensures Strip(BufferText(cur)) == "" ==> ChunksOf(Kept(done + Close(cur)), source) == chunks
    ensures Strip(BufferText(cur)) != "" ==>
              ChunksOf(Kept(done + Close(cur)), source)
              == chunks + [TxtChunk(|chunks|, Strip(BufferText(cur)), source)]
  {
    KeptAppend(done, cur);
    if Strip(BufferText(cur)) != "" {
      ChunksOfAppend(Kept(done), cur, source);
    }
  }

  lemma KeptAppend(done: seq<Group>, cur: Group)
    ensures Kept(done + Close(cur)) == if cur == [] || Blank(cur) then Kept(done) else Kept(done) + [cur]
  {
    if cur == [] {
      assert done + Close(cur) == done;
    } else {
      assert (done + [cur])[..|done|] == done;
    }
  }

  lemma ChunksOfAppend(kept: seq<Group>, g: Group, source: string)
    ensures ChunksOf(kept + [g], source) == ChunksOf(kept, source) + [TxtChunk(|kept|, Strip(BufferText(g)), source)]
  {
    var a := ChunksOf(kept + [g], source);
    var b := ChunksOf(kept, source) + [TxtChunk(|kept|, Strip(BufferText(g)), source)];
    assert |a| == |b|;
    forall k | 0 <= k < |a| ensures a[k] == b[k] {
      if k < |kept| { assert (kept + [g])[k] == kept[k]; }
    }
  }

  lemma ChunksOfShape(gs: seq<Group>, source: string)
    ensures var cs := ChunksOf(Kept(gs), source);
            forall k :: 0 <= k < |cs| ==>
              cs[k].chunkId == k && cs[k].content != ""
              && cs[k].metadata == map[ChunkIndexKey := Int(k), SourceKey := Str(source)]
  {
    var kept := Kept(gs);
    KeptMembers(gs);
    forall k | 0 <= k < |kept| ensures !Blank(kept[k]) {
      assert kept[k] in kept;
    }
  }

  // ---------------------------------------------------------------------
  // An independent description of the packing: a partition of the lines
  // into non-empty groups where every line after the first of its group was
  // admitted by the size check, and every group boundary was forced by it.

  function Flatten(gs: seq<Group>): seq<string>
  {
    if gs == [] then [] else gs[0] + Flatten(gs[1..])
  }

  /** Every line after the first was added while the buffer plus the line
      stayed within the limit: the group without its last line fits, and the
      last line was admitted. */
  ghost predicate Fits(g: Group)
    decreases |g|
  {
    |g| <= 1 || (Fits(g[..|g| - 1]) && |BufferText(g[..|g| - 1])| + |g[|g| - 1]| <= MaxChunkChars)
  }

  /** In a group that fits, line j was admitted to the buffer of the lines before it. */
  lemma {:induction false} FitsAt(g: Group, j: nat)
    requires Fits(g) && 1 <= j < |g|
    ensures |BufferText(g[..j])| + |g[j]| <= MaxChunkChars
    decreases |g|
  {
    if j < |g| - 1 {
      var init := g[..|g| - 1];
      FitsAt(init, j);
      assert init[..j] == g[..j];
    }
  }

  ghost predicate IsGreedyPacking(lines: seq<string>, gs: seq<Group>)
  {
    && Flatten(gs) == lines
    && (forall k :: 0 <= k < |gs| ==> gs[k] != [] && Fits(gs[k]))
    && (forall k :: 0 <= k < |gs| - 1 ==> |BufferText(gs[k])| + |gs[k + 1][0]| > MaxChunkChars)
  }

  /** What PackFromGreedy proves of one call of PackFrom: a greedy packing,
      whose first group starts with the lines already in the buffer. */
  ghost predicate GreedyFrom(cur: Group, rest: seq<string>)
  {
    var gs := PackFrom(cur, rest);
    && IsGreedyPacking(cur + rest, gs)
    && (cur != [] ==> |gs| > 0 && |cur| <= |gs[0]| && gs[0][..|cur|] == cur)
  }

  lemma {:induction false} PackFromGreedy(cur: Group, rest: seq<string>)
    requires Fits(cur)
    ensures GreedyFrom(cur, rest)
    decreases |rest|
  {
    if rest == [] {
      GreedyEnd(cur);
    } else if |BufferText(cur)| + |rest[0]| > MaxChunkChars {
      PackFromGreedy([rest[0]], rest[1..]);
      GreedyFlushStep(cur, rest);
    } else {
      var cur' := cur + [rest[0]];
      assert cur'[..|cur'| - 1] == cur;
      PackFromGreedy(cur', rest[1..]);
      GreedyExtendStep(cur, rest);
    }
  }

  lemma GreedyEnd(cur: Group)
    requires Fits(cur)
    ensures GreedyFrom(cur, [])
  {
    assert cur + [] == cur;
    if cur != [] {
      assert [cur][1..] == [];
    }
  }

  lemma GreedyFlushStep(cur: Group, rest: seq<string>)
    requires Fits(cur) && rest != [] && |BufferText(cur)| + |rest[0]| > MaxChunkChars
    requires GreedyFrom([rest[0]], rest[1..])
    ensures GreedyFrom(cur, rest)
  {
    var tail := PackFrom([rest[0]], rest[1..]);
    assert IsGreedyPacking(rest, tail) && tail != [] by {
      assert [rest[0]] + rest[1..] == rest;
    }
    if cur == [] {
      GreedyFlushEmpty(rest, tail);
    } else {
      GreedyFlushGroup(cur, rest, tail);
    }
  }

  lemma GreedyFlushEmpty(rest: seq<string>, tail: seq<Group>)
    requires rest != [] && |BufferText([])| + |rest[0]| > MaxChunkChars
    requires tail == PackFrom([rest[0]], rest[1..]) && IsGreedyPacking(rest, tail)
    ensures GreedyFrom([], rest)
  {
    var none: Group := [];
    assert Close(none) == [];
    assert PackFrom(none, rest) == Close(none) + tail;
    assert Close(none) + tail == tail;
    assert none + rest == rest;
  }

  lemma GreedyFlushGroup(cur: Group, rest: seq<string>, tail: seq<Group>)
    requires Fits(cur) && cur != [] && rest != [] && |BufferText(cur)| + |rest[0]| > MaxChunkChars
    requires tail == PackFrom([rest[0]], rest[1..]) && IsGreedyPacking(rest, tail) && tail != []
    ensures GreedyFrom(cur, rest)
  {
    assert PackFrom(cur, rest) == [cur] + tail;
    GreedyCons(cur, rest, tail);
    assert ([cur] + tail)[0] == cur;
    assert cur[..|cur|] == cur;
  }

  lemma GreedyExtendStep(cur: Group, rest: seq<string>)
    requires rest != [] && |BufferText(cur)| + |rest[0]| <= MaxChunkChars
    requires GreedyFrom(cur + [rest[0]], rest[1..])
    ensures GreedyFrom(cur, rest)
  {
    var gs := PackFrom(cur + [rest[0]], rest[1..]);
    assert PackFrom(cur, rest) == gs;
    MoveFirst(cur, rest);
    if cur != [] {
      PrefixOfExtension(gs[0], cur, rest[0]);
    }
  }

  lemma MoveFirst(cur: Group, rest: seq<string>)
    requires rest != []
    ensures (cur + [rest[0]]) + rest[1..] == cur + rest
  {
    assert rest == [rest[0]] + rest[1..];
  }

  lemma PrefixOfExtension(x: Group, cur: Group, line: string)
    requires |cur + [line]| <= |x| && x[..|cur + [line]|] == cur + [line]
    ensures |cur| <= |x| && x[..|cur|] == cur
  {
    assert x[..|cur|] == x[..|cur + [line]|][..|cur|];
    assert (cur + [line])[..|cur|] == cur;
  }

  /** A fitting group whose successor line would not fit, put in front of a
      greedy packing of the remaining lines, is a greedy packing. */
  lemma GreedyCons(g: Group, rest: seq<string>, tail: seq<Group>)
    requires g != [] && Fits(g) && rest != []
    requires IsGreedyPacking(rest, tail) && tail != []
    requires |BufferText(g)| + |rest[0]| > MaxChunkChars
    ensures IsGreedyPacking(g + rest, [g] + tail)
  {
    var gs := [g] + tail;
    assert gs[1..] == tail;
    assert Flatten(gs) == g + rest;
    assert rest == tail[0] + Flatten(tail[1..]);
    assert tail[0][0] == rest[0];
    forall k | 0 <= k < |gs| ensures gs[k] != [] && Fits(gs[k]) {
      if k > 0 { assert gs[k] == tail[k - 1]; }
    }
    forall k | 0 <= k < |gs| - 1 ensures |BufferText(gs[k])| + |gs[k + 1][0]| > MaxChunkChars {
      if k > 0 { assert gs[k] == tail[k - 1] && gs[k + 1] == tail[k]; }
    }
  }

  /** The loop's packing is a greedy packing of the lines: every line lands in
      exactly one buffer, in order, and no buffer breaks the size rule. */
  lemma PackIsGreedy(lines: seq<string>)
    ensures IsGreedyPacking(lines, Pack(lines))
  {
    PackFromGreedy([], lines);
  }

  lemma FlattenNonEmpty(gs: seq<Group>)
    requires forall k :: 0 <= k < |gs| ==> gs[k] != []
    ensures Flatten(gs) == [] <==> gs == []
  {
  }

  lemma GreedyTail(lines: seq<string>, gs: seq<Group>)
    requires IsGreedyPacking(lines, gs) && gs != []
    ensures |gs[0]| <= |lines| && lines[..|gs[0]|] == gs[0]
    ensures IsGreedyPacking(lines[|gs[0]|..], gs[1..])
  {
    assert lines == gs[0] + Flatten(gs[1..]);
    var tail := gs[1..];
    forall k | 0 <= k < |tail| ensures tail[k] != [] && Fits(tail[k]) {
      assert tail[k] == gs[k + 1];
    }
    forall k | 0 <= k < |tail| - 1 ensures |BufferText(tail[k])| + |tail[k + 1][0]| > MaxChunkChars {
      assert tail[k] == gs[k + 1] && tail[k + 1] == gs[k + 2];
    }
  }

  /** When lines remain after the first group, the first of them did not fit. */
  lemma BoundaryForced(lines: seq<string>, gs: seq<Group>)
    requires IsGreedyPacking(lines, gs) && gs != []
    ensures |gs[0]| < |lines| ==> |BufferText(gs[0])| + |lines[|gs[0]|]| > MaxChunkChars
  {
    GreedyTail(lines, gs);
    var tail := gs[1..];
    FlattenNonEmpty(tail);
    if |gs[0]| < |lines| {
      assert Flatten(tail) == lines[|gs[0]|..];
      assert tail[0] == gs[1];
      assert Flatten(tail) == gs[1] + Flatten(tail[1..]);
      assert gs[1][0] == lines[|gs[0]|];
    }
  }

  /** The line at position n of the first group was admitted by the size check. */
  lemma FitsPrefix(lines: seq<string>, gs: seq<Group>, n: nat)
    requires IsGreedyPacking(lines, gs) && gs != []
    ensures 1 <= n < |gs[0]| ==> |BufferText(lines[..n])| + |lines[n]| <= MaxChunkChars
  {
    GreedyTail(lines, gs);
    var g := gs[0];
    if 1 <= n < |g| {
      FitsAt(g, n);
      assert lines[..n] == g[..n];
      assert lines[n] == g[n];
    }
  }

  /** In two greedy packings of the same lines, the first group of one is no
      shorter than the first group of the other. */
  lemma FirstGroupNotShorter(lines: seq<string>, gs1: seq<Group>, gs2: seq<Group>)
    requires IsGreedyPacking(lines, gs1) && IsGreedyPacking(lines, gs2)
    requires gs1 != [] && gs2 != []
    ensures |gs1[0]| >= |gs2[0]|
  {
    var a, b := gs1[0], gs2[0];
    GreedyTail(lines, gs1);
    GreedyTail(lines, gs2);
    BoundaryForced(lines, gs1);
    FitsPrefix(lines, gs2, |gs1[0]|);
  }

  /** Greedy packings are unique. */
  lemma {:induction false} GreedyPackingUnique(lines: seq<string>, gs1: seq<Group>, gs2: seq<Group>)
    requires IsGreedyPacking(lines, gs1) && IsGreedyPacking(lines, gs2)
    ensures gs1 == gs2
    decreases |lines|
  {
    FlattenNonEmpty(gs1);
    FlattenNonEmpty(gs2);
    if gs1 != [] && gs2 != [] {
      FirstGroupNotShorter(lines, gs1, gs2);
      FirstGroupNotShorter(lines, gs2, gs1);
      GreedyTail(lines, gs1);
      GreedyTail(lines, gs2);
      assert gs1[0] == gs2[0];
      GreedyPackingUnique(lines[|gs1[0]|..], gs1[1..], gs2[1..]);
      assert gs1 == [gs1[0]] + gs1[1..];
      assert gs2 == [gs2[0]] + gs2[1..];
    }
  }

  /** The loop's packing is THE greedy packing: a partition of the lines is
      greedy exactly when it is the one the loop builds. */
  lemma PackCharacterized(lines: seq<string>, gs: seq<Group>)
    ensures IsGreedyPacking(lines, gs) <==> gs == Pack(lines)
  {
    PackIsGreedy(lines);
    if IsGreedyPacking(lines, gs) {
      GreedyPackingUnique(lines, gs, Pack(lines));
    }
  }

  // ---------------------------------------------------------------------
  // Sizes.

  /** A buffer's stripped text is within the limit unless the buffer holds a
      single line that is itself longer than the limit. The size check ignores
      the newline the loop appends, so a buffer may reach 501 characters; the
      strip removes that trailing newline. */
  lemma GroupBound(g: Group)
    requires g != [] && Fits(g)
    ensures |Strip(BufferText(g))| <= MaxChunkChars || (|g| == 1 && |g[0]| > MaxChunkChars)
  {
    var n := |g|;
    var b := BufferText(g);
    assert b == BufferText(g[..n - 1]) + g[n - 1] + "\n";
    StripDropsTrailingSpace(b);
    if n == 1 {
      assert g[..0] == [];
    }
  }

  /** Chunk ids run 0, 1, ..., n-1 with matching chunk_index; chunk k is the
      stripped k-th kept buffer, is never empty, and is at most 500 characters
      unless that buffer is one line longer than that. */
  lemma TxtChunkShape(content: string, source: string)
    ensures var kept := Kept(Pack(Split(content, '\n')));
            var cs := TxtChunks(content, source);
            |cs| == |kept|
            && forall k :: 0 <= k < |cs| ==>
                 && cs[k].chunkId == k
                 && cs[k].metadata[ChunkIndexKey] == Int(k)
                 && cs[k].content == Strip(BufferText(kept[k])) != ""
                 && (|cs[k].content| <= MaxChunkChars || (|kept[k]| == 1 && |kept[k][0]| > MaxChunkChars))
  {
    var lines := Split(content, '\n');
    var gs := Pack(lines);
    PackIsGreedy(lines);
    KeptGroupsFit(gs);
    KeptChunksShape(Kept(gs), source);
  }

  /** The chunk records of fitting, non-blank buffers. */
  lemma KeptChunksShape(kept: seq<Group>, source: string)
    requires forall k :: 0 <= k < |kept| ==> kept[k] != [] && Fits(kept[k]) && !Blank(kept[k])
    ensures var cs := ChunksOf(kept, source);
            |cs| == |kept|
            && forall k :: 0 <= k < |cs| ==>
                 && cs[k].chunkId == k
                 && cs[k].metadata[ChunkIndexKey] == Int(k)
                 && cs[k].content == Strip(BufferText(kept[k])) != ""
                 && (|cs[k].content| <= MaxChunkChars || (|kept[k]| == 1 && |kept[k][0]| > MaxChunkChars))
  {
    var cs := ChunksOf(kept, source);
    forall k | 0 <= k < |cs|
      ensures |cs[k].content| <= MaxChunkChars || (|kept[k]| == 1 && |kept[k][0]| > MaxChunkChars)
    {
      GroupBound(kept[k]);
    }
  }

  lemma KeptGroupsFit(gs: seq<Group>)
    requires forall k :: 0 <= k < |gs| ==> gs[k] != [] && Fits(gs[k])
    ensures forall k :: 0 <= k < |Kept(gs)| ==> Kept(gs)[k] != [] && Fits(Kept(gs)[k]) && !Blank(Kept(gs)[k])
  {
    var kept := Kept(gs);
    KeptMembers(gs);
    forall k | 0 <= k < |kept| ensures kept[k] != [] && Fits(kept[k]) && !Blank(kept[k]) {
      assert kept[k] in kept;
    }
  }

  // ---------------------------------------------------------------------
  // Blank input.

  predicate AllLinesSpace(lines: seq<string>)
  {
    forall k :: 0 <= k < |lines| ==> AllSpace(lines[k])
  }

  lemma {:induction false} BufferBlank(g: Group)
    ensures AllSpace(BufferText(g)) <==> AllLinesSpace(g)
    decreases |g|
  {
    if g != [] {
      var init := g[..|g| - 1];
      var last := g[|g| - 1];
      BufferBlank(init);
      AllSpaceAppend(BufferText(init), last);
      AllSpaceAppend(BufferText(init) + last, "\n");
      assert g == init + [last];
      assert AllLinesSpace(g) <==> AllLinesSpace(init) && AllSpace(last) by {
        if AllLinesSpace(init) && AllSpace(last) {
          forall k | 0 <= k < |g| ensures AllSpace(g[k]) {
            if k < |init| { assert g[k] == init[k]; }
          }
        }
        if AllLinesSpace(g) {
          forall k | 0 <= k < |init| ensures AllSpace(init[k]) {
            assert g[k] == init[k];
          }
        }
      }
    }
  }

  lemma {:induction false} FlattenBlank(gs: seq<Group>)
    ensures AllLinesSpace(Flatten(gs)) <==> forall k :: 0 <= k < |gs| ==> AllLinesSpace(gs[k])
    decreases |gs|
  {
    if gs != [] {
      FlattenBlank(gs[1..]);
      var f := Flatten(gs);
      var a, t := gs[0], Flatten(gs[1..]);
      assert f == a + t;
      assert AllLinesSpace(f) <==> AllLinesSpace(a) && AllLinesSpace(t) by {
        if AllLinesSpace(a) && AllLinesSpace(t) {
          forall k | 0 <= k < |f| ensures AllSpace(f[k]) {
            if k < |a| { assert f[k] == a[k]; } else { assert f[k] == t[k - |a|]; }
          }
        }
        if AllLinesSpace(f) {
          forall k | 0 <= k < |a| ensures AllSpace(a[k]) { assert f[k] == a[k]; }
          forall k | 0 <= k < |t| ensures AllSpace(t[k]) { assert f[|a| + k] == t[k]; }
        }
      }
      if forall k :: 0 <= k < |gs| - 1 ==> AllLinesSpace(gs[1..][k]) {
        forall k | 1 <= k < |gs| ensures AllLinesSpace(gs[k]) { assert gs[k] == gs[1..][k - 1]; }
      }
    }
  }

  lemma {:induction false} JoinBlank(parts: seq<string>, sep: string)
    requires AllSpace(sep)
    ensures AllSpace(Join(parts, sep)) <==> AllLinesSpace(parts)
    decreases |parts|
  {
    if |parts| > 1 {
      var t := Join(parts[1..], sep);
      JoinBlank(parts[1..], sep);
      AllSpaceAppend(parts[0], sep);
      AllSpaceAppend(parts[0] + sep, t);
      assert AllLinesSpace(parts) <==> AllSpace(parts[0]) && AllLinesSpace(parts[1..]) by {
        if AllSpace(parts[0]) && AllLinesSpace(parts[1..]) {
          forall k | 1 <= k < |parts| ensures AllSpace(parts[k]) { assert parts[k] == parts[1..][k - 1]; }
        }
      }
    }
  }

  lemma KeptEmpty(gs: seq<Group>)
    ensures Kept(gs) == [] <==> forall k :: 0 <= k < |gs| ==> Blank(gs[k])
  {
    var r := Kept(gs);
    KeptMembers(gs);
    if r != [] {
      assert r[0] in r;
    }
    if r == [] {
      forall k | 0 <= k < |gs| ensures Blank(gs[k]) {
        assert gs[k] in gs;
      }
    }
  }

  /** Text that is empty or all whitespace yields no chunk at all, and any
      other text yields at least one. */
  lemma TxtChunksEmptyIffBlank(content: string, source: string)
    ensures TxtChunks(content, source) == [] <==> AllSpace(content)
  {
    var lines := Split(content, '\n');
    var gs := Pack(lines);
    PackIsGreedy(lines);
    KeptEmpty(gs);
    JoinBlank(lines, "\n");
    FlattenBlank(gs);
    forall k | 0 <= k < |gs| ensures Blank(gs[k]) <==> AllLinesSpace(gs[k]) {
      BufferBlank(gs[k]);
    }
  }
}

/** The line reassembler: every text chunk of the plaintext stream is split on
    CRLF and its pieces are emitted in order. A line that straddles two chunks
    comes out as two lines; nothing is carried from one chunk to the next. */
module LineStream {
  import opened Text

  /** The lines of one chunk. */
  function ChunkLines(chunk: string): seq<string>
  {
    Split(chunk, CRLF)
  }

  /** The line sequence produced from a sequence of chunks. */
  function Lines(chunks: seq<string>): seq<string>
  {
    if chunks == [] then [] else ChunkLines(chunks[0]) + Lines(chunks[1..])
  }

  /** The number of lines a chunk contributes: one per CRLF pair, plus one. */
  function LineCount(chunks: seq<string>): nat
  {
    if chunks == [] then 0 else CountCrlf(chunks[0]) + 1 + LineCount(chunks[1..])
  }

  /** Lines are never merged across chunk boundaries: the output for two
      runs of chunks is the output for the first followed by that for the
      second, and no chunks give no lines. */
  lemma {:induction false} LinesAppend(xs: seq<string>, ys: seq<string>)
    ensures Lines(xs + ys) == Lines(xs) + Lines(ys)
    ensures Lines([]) == []
    decreases |xs|
  {
    if xs == [] {
      assert xs + ys == ys;
    } else {
      assert (xs + ys)[1..] == xs[1..] + ys;
      LinesAppend(xs[1..], ys);
    }
  }

  /** No emitted line contains a CRLF pair. */
  lemma {:induction false} LinesHaveNoCrlf(chunks: seq<string>)
    ensures forall line :: line in Lines(chunks) ==> Free(line, CRLF)
  {
    if chunks != [] {
      SplitPartsFree(chunks[0], CRLF);
      LinesHaveNoCrlf(chunks[1..]);
    }
  }

  /** Each chunk contributes exactly one line more than it has CRLF pairs;
      in particular an empty chunk contributes one empty line. */
  lemma {:induction false} LinesLength(chunks: seq<string>)
    ensures |Lines(chunks)| == LineCount(chunks)
    ensures ChunkLines("") == [""]
  {
    if chunks != [] {
      SplitCrlfCount(chunks[0]);
      LinesLength(chunks[1..]);
    }
  }

  /** Joining one chunk's lines with CRLF reproduces the chunk. */
  lemma ChunkRoundTrip(chunk: string)
    ensures Join(ChunkLines(chunk), CRLF) == chunk
  {
    JoinSplit(chunk, CRLF);
  }

  /** A chunk made by joining CRLF-free lines yields exactly those lines. */
  lemma LinesOfJoined(lines: seq<string>)
    requires |lines| >= 1
    requires forall line :: line in lines ==> Free(line, CRLF)
    ensures Lines([Join(lines, CRLF)]) == lines
  {
    SplitJoinCrlf(lines);
    assert [Join(lines, CRLF)][1..] == [];
  }
}

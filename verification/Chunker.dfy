/** The greedy line chunker of the code index. Characters stand for bytes, as `len` counts bytes. */
module Chunker {
  import opened Prelude
  import opened TextLines

  datatype ContentChunk = ContentChunk(index: nat, lineStart: nat, lineEnd: nat, content: string)

  function StripReturn(line: string): string {
    if line != "" && line[|line| - 1] == '\r' then line[..|line| - 1] else line
  }

  function StripReturns(lines: seq<string>): (r: seq<string>)
    ensures |r| == |lines| && forall i :: 0 <= i < |r| ==> r[i] == StripReturn(lines[i])
  {
    if lines == [] then [] else [StripReturn(lines[0])] + StripReturns(lines[1..])
  }

  /** `str::lines`: the line ending is "\n" or "\r\n", and a last line may lack it. */
  function SourceLines(content: string): seq<string> {
    StripReturns(Lines(content)) + if Rest(content) == "" then [] else [Rest(content)]
  }

  /**
   * The lines of a file: those ended by a line feed, without one carriage return
   * before it, and then what follows the last line feed, taken as it is.
   */
  lemma SourceLinesMeaning(content: string)
    ensures var found, ended := SourceLines(content), Lines(content);
            && |found| == |ended| + (if Rest(content) == "" then 0 else 1)
            && (forall i :: 0 <= i < |ended| ==>
                  if EndsInReturn(ended[i]) then ended[i] == found[i] + "\r" else found[i] == ended[i])
            && (Rest(content) != "" ==> found[|ended|] == Rest(content))
  {
    var found, ended := SourceLines(content), Lines(content);
    forall i | 0 <= i < |ended|
      ensures if EndsInReturn(ended[i]) then ended[i] == found[i] + "\r" else found[i] == ended[i]
    {
      StripReturnMeaning(ended[i]);
    }
  }

  ghost predicate EndsInReturn(line: string) {
    exists l :: line == l + "\r"
  }

  lemma StripReturnMeaning(line: string)
    ensures if EndsInReturn(line) then line == StripReturn(line) + "\r" else StripReturn(line) == line
  {
    if line != "" && line[|line| - 1] == '\r' {
      assert line == line[..|line| - 1] + "\r";
    }
  }

  /** The lines a..b, each followed by a newline. */
  function Part(lines: seq<string>, a: nat, b: nat): string
    requires a <= b <= |lines|
  {
    Terminated(lines[a..b], "\n")
  }

  /** A single line always fits; more lines must not exceed the chunk size, not counting the last newline. */
  ghost predicate Fits(lines: seq<string>, chunkSize: nat, a: nat, b: nat)
    requires a < b <= |lines|
  {
    b == a + 1 || |Part(lines, a, b)| <= chunkSize + 1
  }

  /** The part between the boundaries k and k + 1 is not empty and fits. */
  ghost predicate PartFits(lines: seq<string>, chunkSize: nat, cuts: seq<nat>, k: nat)
    requires k + 1 < |cuts|
  {
    cuts[k] < cuts[k + 1] <= |lines| && Fits(lines, chunkSize, cuts[k], cuts[k + 1])
  }

  /** Boundaries that split the first n lines into consecutive non-empty parts that fit. */
  ghost predicate IsSplit(lines: seq<string>, chunkSize: nat, cuts: seq<nat>, n: nat) {
    && cuts != [] && cuts[0] == 0 && cuts[|cuts| - 1] == n <= |lines|
    && forall k :: 0 <= k < |cuts| - 1 ==> PartFits(lines, chunkSize, cuts, k)
  }

  /** The part after boundary k could not have taken one line more. */
  ghost predicate PartFull(lines: seq<string>, chunkSize: nat, cuts: seq<nat>, k: nat)
    requires k + 1 < |cuts|
  {
    cuts[k] <= cuts[k + 1] < |lines| ==> !Fits(lines, chunkSize, cuts[k], cuts[k + 1] + 1)
  }

  ghost predicate IsMaximal(lines: seq<string>, chunkSize: nat, cuts: seq<nat>) {
    forall k :: 0 <= k < |cuts| - 1 ==> PartFull(lines, chunkSize, cuts, k)
  }

  ghost predicate IsChunkAt(lines: seq<string>, cuts: seq<nat>, k: nat, chunk: ContentChunk)
    requires k + 1 < |cuts|
  {
    && cuts[k] <= cuts[k + 1] <= |lines|
    && chunk == ContentChunk(k, cuts[k] + 1, cuts[k + 1], Part(lines, cuts[k], cuts[k + 1]))
  }

  ghost predicate ChunksOf(lines: seq<string>, cuts: seq<nat>, chunks: seq<ContentChunk>) {
    && |chunks| + 1 == |cuts|
    && forall k :: 0 <= k < |chunks| ==> IsChunkAt(lines, cuts, k, chunks[k])
  }

  /** The chunks are exactly the parts of a greedy split of the first n lines. */
  ghost predicate GreedyChunks(lines: seq<string>, chunkSize: nat, cuts: seq<nat>, n: nat, chunks: seq<ContentChunk>) {
    IsSplit(lines, chunkSize, cuts, n) && IsMaximal(lines, chunkSize, cuts) && ChunksOf(lines, cuts, chunks)
  }

  lemma {:induction false} TerminatedAppend(a: seq<string>, b: seq<string>, terminator: string)
    ensures Terminated(a + b, terminator) == Terminated(a, terminator) + Terminated(b, terminator)
  {
    if a == [] {
      assert a + b == b;
    } else {
      assert a + b == [a[0]] + (a[1..] + b);
      TerminatedAppend(a[1..], b, terminator);
      TerminatedCons(a[0], a[1..] + b, terminator, "");
      var x, y, z := a[0] + terminator, Terminated(a[1..], terminator), Terminated(b, terminator);
      assert x + (y + z) == (x + y) + z;
    }
  }

  lemma PartJoin(lines: seq<string>, a: nat, b: nat, c: nat)
    requires a <= b <= c <= |lines|
    ensures Part(lines, a, c) == Part(lines, a, b) + Part(lines, b, c)
  {
    assert lines[a..c] == lines[a..b] + lines[b..c];
    TerminatedAppend(lines[a..b], lines[b..c], "\n");
  }

  lemma PartOne(lines: seq<string>, a: nat)
    requires a < |lines|
    ensures Part(lines, a, a + 1) == lines[a] + "\n"
  {
    assert lines[a..a + 1] == [lines[a]] + [];
    TerminatedCons(lines[a], [], "\n", "");
  }

  /** Closing the part that starts at line n before line `next`. */
  lemma CloseChunk(lines: seq<string>, chunkSize: nat, cuts: seq<nat>, n: nat, chunks: seq<ContentChunk>, next: nat)
    requires GreedyChunks(lines, chunkSize, cuts, n, chunks)
    requires n < next <= |lines| && Fits(lines, chunkSize, n, next)
    requires next < |lines| ==> !Fits(lines, chunkSize, n, next + 1)
    ensures GreedyChunks(lines, chunkSize, cuts + [next], next,
                         chunks + [ContentChunk(|chunks|, n + 1, next, Part(lines, n, next))])
  {
    var all := cuts + [next];
    forall k | 0 <= k < |all| - 1
      ensures PartFits(lines, chunkSize, all, k) && PartFull(lines, chunkSize, all, k)
    {
      if k < |cuts| - 1 {
        assert PartFits(lines, chunkSize, cuts, k) && PartFull(lines, chunkSize, cuts, k);
      }
    }
    var added := chunks + [ContentChunk(|chunks|, n + 1, next, Part(lines, n, next))];
    forall k | 0 <= k < |added|
      ensures IsChunkAt(lines, all, k, added[k])
    {
      if k < |chunks| {
        assert IsChunkAt(lines, cuts, k, chunks[k]);
      }
    }
  }

  lemma ExtendPart(lines: seq<string>, chunkSize: nat, n: nat, idx: nat)
    requires n <= idx < |lines|
    ensures Part(lines, n, idx + 1) == Part(lines, n, idx) + lines[idx] + "\n"
    ensures Part(lines, idx, idx) == ""
    ensures Fits(lines, chunkSize, n, idx + 1) <==> n == idx || |Part(lines, n, idx)| + |lines[idx]| <= chunkSize
    ensures Fits(lines, chunkSize, idx, idx + 1)
    ensures Part(lines, n, idx + 1) != ""
  {
    PartJoin(lines, n, idx, idx + 1);
    PartOne(lines, idx);
    assert lines[idx..idx] == [];
    assert Part(lines, n, idx) + (lines[idx] + "\n") == Part(lines, n, idx) + lines[idx] + "\n";
  }

  /** The loop of `chunk_content`, line by line. */
  method ChunkLines(lines: seq<string>, chunkSize: nat) returns (chunks: seq<ContentChunk>, ghost cuts: seq<nat>)
    ensures GreedyChunks(lines, chunkSize, cuts, |lines|, chunks)
  {
    chunks, cuts := [], [0];
    if lines == [] {
      return;
    }
    var currentChunk := "";
    var chunkStart: nat := 1;
    var currentLen := 0;
    var idx: nat := 0;
    ExtendPart(lines, chunkSize, 0, 0);
    while idx < |lines|
      invariant 0 <= idx <= |lines| && 1 <= chunkStart <= idx + 1
      invariant idx > 0 ==> chunkStart <= idx && Fits(lines, chunkSize, chunkStart - 1, idx)
      invariant currentChunk == Part(lines, chunkStart - 1, idx) && currentLen == |currentChunk|
      invariant currentChunk == "" <==> idx == 0
      invariant GreedyChunks(lines, chunkSize, cuts, chunkStart - 1, chunks)
    {
      var line := lines[idx];
      var lineNum := idx + 1;
      ExtendPart(lines, chunkSize, chunkStart - 1, idx);
      if currentLen + |line| > chunkSize && currentChunk != "" {
        CloseChunk(lines, chunkSize, cuts, chunkStart - 1, chunks, idx);
        chunks := chunks + [ContentChunk(|chunks|, chunkStart, lineNum - 1, currentChunk)];
        cuts := cuts + [idx];
        currentChunk := "";
        chunkStart := lineNum;
        currentLen := 0;
        ExtendPart(lines, chunkSize, idx, idx);
      }
      currentChunk := currentChunk + line + "\n";
      currentLen := currentLen + |line| + 1;
      idx := idx + 1;
    }
    if currentChunk != "" {
      CloseChunk(lines, chunkSize, cuts, chunkStart - 1, chunks, |lines|);
      chunks := chunks + [ContentChunk(|chunks|, chunkStart, |lines|, currentChunk)];
      cuts := cuts + [|lines|];
    }
  }

  // ---- Optimality ------------------------------------------------------------

  /** A part of a part that fits fits. */
  lemma SubPartFits(lines: seq<string>, chunkSize: nat, a: nat, b: nat, a': nat, b': nat)
    requires a <= a' < b' <= b <= |lines| && Fits(lines, chunkSize, a, b)
    ensures Fits(lines, chunkSize, a', b')
  {
    PartJoin(lines, a, a', b);
    PartJoin(lines, a', b', b);
  }

  /** After as many parts, the greedy split is never behind another one. */
  lemma {:induction false} GreedyStaysAhead(lines: seq<string>, chunkSize: nat, greedy: seq<nat>, other: seq<nat>,
                                            k: nat)
    requires IsSplit(lines, chunkSize, greedy, |lines|) && IsMaximal(lines, chunkSize, greedy)
    requires IsSplit(lines, chunkSize, other, |lines|)
    requires k < |greedy| && k < |other|
    ensures other[k] <= greedy[k] <= |lines|
  {
    if k == 0 {
    } else {
      GreedyStaysAhead(lines, chunkSize, greedy, other, k - 1);
      assert PartFits(lines, chunkSize, greedy, k - 1) && PartFull(lines, chunkSize, greedy, k - 1);
      assert PartFits(lines, chunkSize, other, k - 1);
      if greedy[k] < other[k] {
        SubPartFits(lines, chunkSize, other[k - 1], other[k], greedy[k - 1], greedy[k] + 1);
        assert false;
      }
    }
  }

  /** The part is a single line or, without its last newline, within the chunk size. */
  ghost predicate PartWithin(lines: seq<string>, chunkSize: nat, cuts: seq<nat>, k: nat)
    requires k + 1 < |cuts|
  {
    && cuts[k] < cuts[k + 1] <= |lines|
    && (cuts[k + 1] == cuts[k] + 1 || |Terminated(lines[cuts[k]..cuts[k + 1]], "\n")| - 1 <= chunkSize)
  }

  /** Boundaries of consecutive parts of that kind. */
  ghost predicate SplitsWithin(lines: seq<string>, chunkSize: nat, cuts: seq<nat>) {
    && cuts != [] && cuts[0] == 0 && cuts[|cuts| - 1] == |lines|
    && forall k :: 0 <= k < |cuts| - 1 ==> PartWithin(lines, chunkSize, cuts, k)
  }

  /** Among all such splits the chunker's has the fewest parts. */
  lemma FewestChunks(lines: seq<string>, chunkSize: nat, greedy: seq<nat>, chunks: seq<ContentChunk>, other: seq<nat>)
    requires GreedyChunks(lines, chunkSize, greedy, |lines|, chunks)
    requires SplitsWithin(lines, chunkSize, other)
    ensures |chunks| <= |other| - 1
  {
    forall k | 0 <= k < |other| - 1
      ensures PartFits(lines, chunkSize, other, k)
    {
      assert PartWithin(lines, chunkSize, other, k);
    }
    if |other| < |greedy| {
      var k := |other| - 1;
      assert PartFits(lines, chunkSize, greedy, k);
      GreedyStaysAhead(lines, chunkSize, greedy, other, k);
    }
  }

  /**
   * Each chunk holds the lines of its range; it is a single line or, without its
   * last newline, within the chunk size; and one line more would have been too much.
   */
  lemma ChunkSizes(lines: seq<string>, chunkSize: nat, cuts: seq<nat>, chunks: seq<ContentChunk>, k: nat)
    requires GreedyChunks(lines, chunkSize, cuts, |lines|, chunks) && k < |chunks|
    ensures var c := chunks[k];
            && 1 <= c.lineStart <= c.lineEnd <= |lines|
            && c.content == Terminated(lines[c.lineStart - 1..c.lineEnd], "\n")
            && (c.lineStart < c.lineEnd ==> |c.content| - 1 <= chunkSize)
            && (c.lineEnd < |lines| ==> |c.content| + |lines[c.lineEnd]| > chunkSize)
  {
    assert IsChunkAt(lines, cuts, k, chunks[k]);
    assert PartFits(lines, chunkSize, cuts, k) && PartFull(lines, chunkSize, cuts, k);
    if cuts[k + 1] < |lines| {
      ExtendPart(lines, chunkSize, cuts[k], cuts[k + 1]);
    }
  }

  // ---- Tiling ----------------------------------------------------------------

  ghost function ContentsOf(chunks: seq<ContentChunk>): string {
    if chunks == [] then "" else ContentsOf(chunks[..|chunks| - 1]) + chunks[|chunks| - 1].content
  }

  lemma {:induction false} ChunksTile(lines: seq<string>, cuts: seq<nat>, chunks: seq<ContentChunk>, k: nat)
    requires ChunksOf(lines, cuts, chunks) && cuts[0] == 0 && k <= |chunks|
    ensures cuts[k] <= |lines| || chunks == []
    ensures chunks != [] ==> ContentsOf(chunks[..k]) == Part(lines, 0, cuts[k])
  {
    if k > 0 {
      ChunksTile(lines, cuts, chunks, k - 1);
      assert IsChunkAt(lines, cuts, k - 1, chunks[k - 1]);
      assert chunks[..k][..k - 1] == chunks[..k - 1];
      PartJoin(lines, 0, cuts[k - 1], cuts[k]);
    } else if chunks != [] {
      assert IsChunkAt(lines, cuts, 0, chunks[0]);
      assert lines[0..0] == [];
    }
  }

  /** Consecutive indices, contiguous line ranges that cover 1..n, and together every line followed by a newline. */
  lemma ChunksCoverFile(lines: seq<string>, chunkSize: nat, cuts: seq<nat>, chunks: seq<ContentChunk>)
    requires GreedyChunks(lines, chunkSize, cuts, |lines|, chunks)
    ensures ContentsOf(chunks) == Terminated(lines, "\n")
    ensures forall k :: 0 <= k < |chunks| ==> chunks[k].index == k && chunks[k].lineStart <= chunks[k].lineEnd
    ensures forall k :: 0 < k < |chunks| ==> chunks[k].lineStart == chunks[k - 1].lineEnd + 1
    ensures if chunks == [] then lines == [] else chunks[0].lineStart == 1 && chunks[|chunks| - 1].lineEnd == |lines|
  {
    forall k | 0 <= k < |chunks|
      ensures chunks[k].index == k && chunks[k].lineStart == cuts[k] + 1 && chunks[k].lineEnd == cuts[k + 1]
      ensures cuts[k] < cuts[k + 1]
    {
      assert IsChunkAt(lines, cuts, k, chunks[k]) && PartFits(lines, chunkSize, cuts, k);
    }
    ChunksTile(lines, cuts, chunks, |chunks|);
    assert chunks[..|chunks|] == chunks && lines[0..|lines|] == lines;
  }

  function Join(lines: seq<string>): string {
    if lines == [] then "" else if |lines| == 1 then lines[0] else lines[0] + "\n" + Join(lines[1..])
  }

  lemma {:induction false} JoinTerminated(lines: seq<string>)
    requires lines != []
    ensures Terminated(lines, "\n") == Join(lines) + "\n"
  {
    assert lines == [lines[0]] + lines[1..];
    TerminatedCons(lines[0], lines[1..], "\n", "");
    if |lines| > 1 {
      JoinTerminated(lines[1..]);
      var x, y := lines[0] + "\n", Join(lines[1..]);
      assert x + (y + "\n") == (x + y) + "\n";
    }
  }

  /** `get_file_lines`, by line numbers from 1; None where the slice would panic. */
  function GetFileLines(lines: seq<string>, start: nat, end: nat): Option<string> {
    var startIdx := if start == 0 then 0 else start - 1;
    var endIdx := if end <= |lines| then end else |lines|;
    if startIdx >= |lines| then Some("")
    else if startIdx > endIdx then None
    else Some(Join(lines[startIdx..endIdx]))
  }

  /**
   * Reading a range of lines panics exactly if it begins within the file and ends
   * more than one line before that. Otherwise it gives the lines with these
   * numbers that the file has, with newlines between them.
   */
  lemma FileLinesMeaning(lines: seq<string>, start: nat, end: nat)
    ensures var range := GetFileLines(lines, start, end);
            var first, last := if start == 0 then 1 else start, if end < |lines| then end else |lines|;
            && (range == None <==> end + 1 < start <= |lines|)
            && (range.Some? && first > last ==> range.value == "")
            && (range.Some? && first <= last ==> range.value + "\n" == Terminated(lines[first - 1..last], "\n"))
  {
    var first, last := if start == 0 then 1 else start, if end < |lines| then end else |lines|;
    if first <= last {
      JoinTerminated(lines[first - 1..last]);
    }
  }

  /** For an unchanged file, a chunk's line range gives back its content, but for the last newline. */
  lemma RangeGivesChunk(lines: seq<string>, chunkSize: nat, cuts: seq<nat>, chunks: seq<ContentChunk>, k: nat)
    requires GreedyChunks(lines, chunkSize, cuts, |lines|, chunks) && k < |chunks|
    ensures var range := GetFileLines(lines, chunks[k].lineStart, chunks[k].lineEnd);
            range.Some? && range.value + "\n" == chunks[k].content
  {
    assert IsChunkAt(lines, cuts, k, chunks[k]) && PartFits(lines, chunkSize, cuts, k);
    JoinTerminated(lines[cuts[k]..cuts[k + 1]]);
  }

  lemma {:induction false} StripReturnsSame(lines: seq<string>)
    ensures StripReturns(lines) == lines <==> forall l :: l in lines ==> StripReturn(l) == l
  {
    if lines == [] {
    } else {
      StripReturnsSame(lines[1..]);
      assert lines == [lines[0]] + lines[1..];
      assert StripReturns(lines)[1..] == StripReturns(lines[1..]);
    }
  }

  /**
   * The chunks of a file concatenate to the file itself exactly if it ends in a
   * newline (or is empty) and none of its lines ends in a carriage return.
   */
  lemma ChunksGiveBackFileIff(content: string, chunkSize: nat, cuts: seq<nat>, chunks: seq<ContentChunk>)
    requires GreedyChunks(SourceLines(content), chunkSize, cuts, |SourceLines(content)|, chunks)
    ensures ContentsOf(chunks) == content <==>
              Rest(content) == "" && forall l :: l in Lines(content) ==> !EndsInReturn(l)
  {
    forall l | l in Lines(content)
      ensures StripReturn(l) == l <==> !EndsInReturn(l)
    {
      StripReturnMeaning(l);
    }
    ChunksCoverFile(SourceLines(content), chunkSize, cuts, chunks);
    SourceLinesGiveBackIff(content);
  }

  lemma SourceLinesHaveNoNewline(content: string)
    ensures forall l :: l in SourceLines(content) ==> '\n' !in l
  {
    LinesRoundTrip(content);
    var stripped := StripReturns(Lines(content));
    forall l | l in stripped
      ensures '\n' !in l
    {
      var i :| 0 <= i < |stripped| && stripped[i] == l;
      assert Lines(content)[i] in Lines(content);
    }
  }

  lemma SourceLinesGiveBackIff(content: string)
    ensures Terminated(SourceLines(content), "\n") == content <==>
              Rest(content) == "" && forall l :: l in Lines(content) ==> StripReturn(l) == l
  {
    var lines, found := Lines(content), SourceLines(content);
    StripReturnsSame(lines);
    if Terminated(found, "\n") == content {
      SourceLinesHaveNoNewline(content);
      LinesUnique(found, "");
      assert Terminated(found, "\n") + "" == content;
      assert Rest(content) == "";
      assert found == StripReturns(lines);
    }
    if Rest(content) == "" && StripReturns(lines) == lines {
      LinesRoundTrip(content);
      assert found == lines;
      assert Terminated(lines, "\n") + "" == Terminated(lines, "\n");
    }
  }

  /** `chunk_content`: every line once and in order, in as few chunks as the chunk size allows. */
  method ChunkContent(content: string, chunkSize: nat) returns (chunks: seq<ContentChunk>)
    ensures exists cuts :: GreedyChunks(SourceLines(content), chunkSize, cuts, |SourceLines(content)|, chunks)
    ensures ContentsOf(chunks) == Terminated(SourceLines(content), "\n")
    ensures forall cuts :: SplitsWithin(SourceLines(content), chunkSize, cuts) ==> |chunks| <= |cuts| - 1
  {
    ghost var cuts;
    var lines := SourceLines(content);
    chunks, cuts := ChunkLines(lines, chunkSize);
    ChunksCoverFile(lines, chunkSize, cuts, chunks);
    forall other | SplitsWithin(lines, chunkSize, other)
      ensures |chunks| <= |other| - 1
    {
      FewestChunks(lines, chunkSize, cuts, chunks, other);
    }
  }
}

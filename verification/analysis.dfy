// The per-text analysis both entry points perform: the comment spans, the
// chunks of `split` with their labels, the length statistics, and the
// percentage whose computation fails on an empty text.
module Analysis {
  import opened Wrappers
  import opened CommentScanner
  import opened ChunkLabels

  // The one error the analysis raises: a percentage of a zero total.
  datatype Error = ZeroDivisionError

  // `{'source_length': …, 'code_length': …, 'comments_length': …}`.
  datatype FileStats = FileStats(sourceLength: int, codeLength: int, commentsLength: int)

  // Both counts are non-negative and add up to the length of the source.
  predicate Conserved(st: FileStats) {
    0 <= st.codeLength && 0 <= st.commentsLength && st.codeLength + st.commentsLength == st.sourceLength
  }

  // `100 * n / float(m)`, exactly: the rounding to one decimal place is not
  // modelled.  Division by a zero total fails.
  function Pct(n: int, m: int): (r: Result<real, Error>)
    ensures r.Failure? <==> m == 0
  {
    if m == 0 then Failure(ZeroDivisionError) else Success(100.0 * (n as real) / (m as real))
  }

  // The percentage is the share n of m out of 100; for a part of a positive
  // whole it lies between 0 and 100.
  lemma PctWithin(n: int, m: int)
    requires 0 <= n <= m && 0 < m
    ensures Pct(n, m).Success?
    ensures Pct(n, m).value * (m as real) == 100.0 * (n as real)
    ensures 0.0 <= Pct(n, m).value <= 100.0
  {
    var p := Pct(n, m).value;
    assert p * (m as real) == 100.0 * (n as real);
    assert p * (m as real) <= 100.0 * (m as real);
  }

  // The whole of a positive total is 100 percent of it, and nothing of it is 0 percent.
  lemma PctOfWhole(m: int)
    requires 0 < m
    ensures Pct(m, m) == Success(100.0)
    ensures Pct(0, m) == Success(0.0)
  {
    PctWithin(m, m);
    var p, w := Pct(m, m).value, m as real;
    assert (p - 100.0) * w == 0.0;
  }

  // The statistics of one text: its length, the total length of the matched
  // comments, and the rest as code.
  function Stats(source: string): (r: FileStats)
    ensures r.sourceLength == |source|
    ensures 0 <= r.codeLength && 0 <= r.commentsLength && r.codeLength + r.commentsLength == r.sourceLength
  {
    LengthsAddUp(source);
    var commentsLength := SumLengths(FindAll(source));
    FileStats(|source|, |source| - commentsLength, commentsLength)
  }

  // The comments length is the total length of the comment chunks of `split`,
  // and the code length, computed as what remains, is the total length of its
  // code chunks.
  lemma StatsCountChunks(source: string)
    ensures Stats(source).commentsLength == SumLengths(CommentChunks(Split(source)))
    ensures Stats(source).codeLength == SumLengths(CodeChunks(Split(source)))
  {
    LengthsAddUp(source);
    SplitAlternates(source);
  }

  // What one analysis produces: the labelled chunks it prints and the statistics it returns.
  datatype FileReport = FileReport(chunks: seq<LabelledChunk>, stats: FileStats)

  // `analyze(source, re_prog)`: the percentage is computed before anything is
  // printed, so an empty text fails with a division by zero; otherwise the
  // report is the labelled chunks of `split` and the statistics.
  function Analyze(source: string): (r: Result<FileReport, Error>)
    ensures r.Failure? <==> source == []
    ensures r.Success? ==> r.value.stats == Stats(source) && r.value.chunks == Label(Split(source))
  {
    var st := Stats(source);
    match Pct(st.commentsLength, st.sourceLength)
    case Failure(e) => Failure(e)
    case Success(_) => Success(FileReport(Label(Split(source)), st))
  }

  // The report of a text that is not empty: an odd number of chunks, numbered
  // from 1, alternating code and comment from a code chunk, which joined give
  // back the text; and counts that add up to its length.
  lemma AnalyzeReport(source: string)
    requires source != []
    ensures Analyze(source).Success?
    ensures var rep := Analyze(source).value;
      && |rep.chunks| % 2 == 1
      && (forall i :: 0 <= i < |rep.chunks| ==>
            rep.chunks[i] == LabelledChunk(i + 1, if i % 2 == 0 then Code else Comment, Split(source)[i]))
      && Concat(Split(source)) == source
      && rep.stats.sourceLength == |source| && Conserved(rep.stats)
  {
    LabelsFollowParity(source);
    SplitAlternates(source);
    SplitReconstructs(source);
  }
}

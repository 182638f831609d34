// The single-file entry point: analyze one text and report its statistics
// with the comments percentage.
module SingleFileMode {
  import opened Wrappers
  import opened CommentScanner
  import opened ChunkLabels
  import opened Analysis

  // What `summarize` prints: the labelled chunks, then the total, code and
  // comments lengths and the comments content percentage.
  datatype Summary = Summary(chunks: seq<LabelledChunk>, stats: FileStats, commentsPct: real)

  // `summarize(source, re_prog)`: the same analysis as the directory entry
  // point, then the percentage, which fails on an empty text before any chunk
  // is printed.
  function Summarize(source: string): (r: Result<Summary, Error>)
    ensures r.Failure? <==> source == []
    ensures r.Success? ==> r.value.stats.sourceLength == |source| && Conserved(r.value.stats)
    ensures r.Success? ==> r.value.stats.commentsLength == SumLengths(FindAll(source))
    ensures r.Success? ==> r.value.chunks == Label(Split(source)) && Concat(Split(source)) == source
    ensures r.Success? ==> |r.value.chunks| == 2 * |FindAll(source)| + 1
    ensures r.Success? ==> forall i :: 0 <= i < |r.value.chunks| ==>
      r.value.chunks[i] == LabelledChunk(i + 1, if i % 2 == 0 then Code else Comment, Split(source)[i])
    ensures r.Success? ==> 0.0 <= r.value.commentsPct <= 100.0
    ensures r.Success? ==> r.value.commentsPct == Pct(r.value.stats.commentsLength, |source|).value
  {
    match Analyze(source)
    case Failure(e) => Failure(e)
    case Success(report) =>
      var st := report.stats;
      SplitAlternates(source);
      SplitReconstructs(source);
      LabelsFollowParity(source);
      PctWithin(st.commentsLength, st.sourceLength);
      Success(Summary(report.chunks, st, Pct(st.commentsLength, st.sourceLength).value))
  }
}

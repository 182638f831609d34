// The labels the print loop gives the chunks of `split`: each chunk is
// numbered from 1 and called a comment when the pattern matches at its start.
module ChunkLabels {
  import opened CommentPattern
  import opened CommentScanner

  datatype Kind = Code | Comment

  // `bool(re_prog.match(chunk))`: whether the pattern matches at the start of the chunk.
  function Classify(chunk: string): Kind {
    if MatchAt(chunk, 0).Some? then Comment else Code
  }

  // One labelled chunk of the report: `Chunk <number> [<kind>]:` and its text.
  datatype LabelledChunk = LabelledChunk(number: nat, kind: Kind, text: string)

  // The labelled chunks in the order the loop emits them.
  function Label(chunks: seq<string>): (r: seq<LabelledChunk>)
    ensures |r| == |chunks|
  {
    seq(|chunks|, i requires 0 <= i < |chunks| => LabelledChunk(i + 1, Classify(chunks[i]), chunks[i]))
  }

  // A piece of the text where no comment starts is labelled code, even when it is empty.
  lemma GapIsCode(s: string, a: nat, b: nat)
    requires a <= b <= |s| && NoCommentStartsIn(s, a, b)
    ensures Classify(s[a..b]) == Code
  {
    PrefixMatchLifts(s, a, b);
    MatchAtSound(s, a);
  }

  // The chunks of a leftmost-first cut are labelled by their position: code at
  // even 0-based positions, comment at odd ones.
  lemma {:induction false} ChunkKindsFrom(s: string, spans: seq<Span>, from: nat)
    requires from <= |s| && Tiled(spans, from, |s|) && LeftmostFrom(s, from, spans)
    decreases |spans|
    ensures forall i :: 0 <= i < |ChunksFrom(s, spans, from)| ==>
      Classify(ChunksFrom(s, spans, from)[i]) == if i % 2 == 0 then Code else Comment
  {
    var chunks := ChunksFrom(s, spans, from);
    if spans == [] {
      GapIsCode(s, from, |s|);
      assert s[from..|s|] == s[from..];
    } else {
      var st, en := spans[0].start, spans[0].end;
      GapIsCode(s, from, st);
      CommentMatchesItself(s, st, en);
      ChunkKindsFrom(s, spans[1..], en);
      var rest := ChunksFrom(s, spans[1..], en);
      forall i | 2 <= i < |chunks| ensures chunks[i] == rest[i - 2] { }
    }
  }

  // The print loop labels the chunks of `split` by position: chunk n (from 1)
  // is a comment exactly when n is even, that is when it is one of the matched
  // comments, the item of `findall` at the same rank.
  lemma LabelsFollowParity(s: string)
    ensures forall i :: 0 <= i < |Split(s)| ==>
      Label(Split(s))[i] == LabelledChunk(i + 1, if i % 2 == 0 then Code else Comment, Split(s)[i])
    ensures forall i :: 0 <= i < |Split(s)| ==>
      (Label(Split(s))[i].kind == Comment <==> i % 2 == 1 && Split(s)[i] == FindAll(s)[i / 2])
  {
    ScanIsLeftmost(s, 0);
    ChunkKindsFrom(s, Scan(s), 0);
    SplitAlternates(s);
    forall i | 0 <= i < |Split(s)| && i % 2 == 1 ensures Split(s)[i] == FindAll(s)[i / 2] {
      assert i == 2 * (i / 2) + 1;
    }
  }
}

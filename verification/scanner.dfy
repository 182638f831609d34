// The three uses the program makes of the compiled comment pattern on a whole
// text: `findall` (the comments, in order), `split` (code and comment chunks,
// alternating) and the leftmost-first scan both of them rest on.
module CommentScanner {
  import opened Wrappers
  import opened CommentPattern

  // A matched comment: the half-open range [start, end) of the text.
  datatype Span = Span(start: nat, end: nat)

  // The spans are non-empty, in order, do not overlap, and lie in [from, n).
  predicate Tiled(spans: seq<Span>, from: nat, n: nat)
    decreases |spans|
  {
    spans == [] || (from <= spans[0].start < spans[0].end <= n && Tiled(spans[1..], spans[0].end, n))
  }

  // ---------------------------------------------------------------------------
  // The scan

  // The matches of the pattern in s[i..], found the way the regular-expression
  // engine finds them: try the pattern at each position, and after a match
  // resume at its end.
  function ScanFrom(s: string, i: nat): (r: seq<Span>)
    requires i <= |s|
    decreases |s| - i
    ensures Tiled(r, i, |s|)
  {
    if i == |s| then []
    else match MatchAt(s, i)
      case Some(e) => [Span(i, e)] + ScanFrom(s, e)
      case None => ScanFrom(s, i + 1)
  }

  function Scan(s: string): seq<Span> {
    ScanFrom(s, 0)
  }

  // The texts of the spans, in order.
  function Texts(s: string, spans: seq<Span>, from: nat): (r: seq<string>)
    requires Tiled(spans, from, |s|)
    decreases |spans|
    ensures |r| == |spans|
  {
    if spans == [] then []
    else [s[spans[0].start..spans[0].end]] + Texts(s, spans[1..], spans[0].end)
  }

  // s[from..] cut at the spans: the text before each span, the span, and after
  // the last span what remains.
  function ChunksFrom(s: string, spans: seq<Span>, from: nat): (r: seq<string>)
    requires from <= |s| && Tiled(spans, from, |s|)
    decreases |spans|
    ensures |r| == 2 * |spans| + 1
  {
    if spans == [] then [s[from..]]
    else [s[from..spans[0].start], s[spans[0].start..spans[0].end]] + ChunksFrom(s, spans[1..], spans[0].end)
  }

  // `re_prog.findall(s)`: the pattern has one group, around the whole
  // pattern, so each item is the matched text.
  function FindAll(s: string): seq<string> {
    Texts(s, Scan(s), 0)
  }

  // `re_prog.split(s)`: the group captures each match, so each match appears
  // as its own item between the pieces of text it separates.
  function Split(s: string): seq<string> {
    ChunksFrom(s, Scan(s), 0)
  }

  // ---------------------------------------------------------------------------
  // Views of a chunk list

  // `''.join(chunks)`.
  function Concat(chunks: seq<string>): string {
    if chunks == [] then [] else chunks[0] + Concat(chunks[1..])
  }

  // `sum(len(c) for c in chunks)`.
  function SumLengths(chunks: seq<string>): nat {
    if chunks == [] then 0 else |chunks[0]| + SumLengths(chunks[1..])
  }

  // The chunks at even 0-based positions.
  function CodeChunks(chunks: seq<string>): (r: seq<string>)
    ensures |r| == (|chunks| + 1) / 2
  {
    seq((|chunks| + 1) / 2, k requires 0 <= k < (|chunks| + 1) / 2 => chunks[2 * k])
  }

  // The chunks at odd 0-based positions.
  function CommentChunks(chunks: seq<string>): (r: seq<string>)
    ensures |r| == |chunks| / 2
  {
    seq(|chunks| / 2, k requires 0 <= k < |chunks| / 2 => chunks[2 * k + 1])
  }

  // ---------------------------------------------------------------------------
  // The leftmost-first scan, stated without a search

  // No comment starts in [lo, hi).
  ghost predicate NoCommentStartsIn(s: string, lo: nat, hi: nat) {
    forall p: nat, e: nat :: lo <= p < hi ==> !CommentAt(s, p, e)
  }

  // spans is the list of comments of s[i..] chosen leftmost first: each starts
  // at the first position after the previous one where some comment starts.
  ghost predicate LeftmostFrom(s: string, i: nat, spans: seq<Span>)
    decreases |spans|
  {
    i <= |s| &&
    if spans == [] then NoCommentStartsIn(s, i, |s|)
    else
      i <= spans[0].start && NoCommentStartsIn(s, i, spans[0].start)
      && CommentAt(s, spans[0].start, spans[0].end)
      && LeftmostFrom(s, spans[0].end, spans[1..])
  }

  // The scan chooses comments leftmost first.
  lemma {:induction false} ScanIsLeftmost(s: string, i: nat)
    requires i <= |s|
    decreases |s| - i
    ensures LeftmostFrom(s, i, ScanFrom(s, i))
  {
    if i < |s| {
      match MatchAt(s, i)
      case Some(e) =>
        MatchAtSound(s, i);
        ScanIsLeftmost(s, e);
        var rest := ScanFrom(s, e);
        assert ScanFrom(s, i) == [Span(i, e)] + rest;
        assert ([Span(i, e)] + rest)[1..] == rest;
      case None =>
        ScanIsLeftmost(s, i + 1);
        forall e: nat ensures !CommentAt(s, i, e) {
          if CommentAt(s, i, e) { MatchAtComplete(s, i, e); }
        }
        LeftmostStepBack(s, i, ScanFrom(s, i + 1));
    }
  }

  // A position where no comment starts can be added in front of a leftmost list.
  lemma LeftmostStepBack(s: string, i: nat, spans: seq<Span>)
    requires i < |s| && LeftmostFrom(s, i + 1, spans)
    requires forall e: nat :: !CommentAt(s, i, e)
    ensures LeftmostFrom(s, i, spans)
  {
    if spans == [] {
      assert NoCommentStartsIn(s, i, |s|);
    } else {
      assert NoCommentStartsIn(s, i, spans[0].start);
    }
  }

  // There is only one leftmost-first list of comments: the scan is the only answer.
  lemma {:induction false} LeftmostUnique(s: string, i: nat, a: seq<Span>, b: seq<Span>)
    requires LeftmostFrom(s, i, a) && LeftmostFrom(s, i, b)
    decreases |a|
    ensures a == b
  {
    if a != [] && b != [] {
      assert a[0].start == b[0].start;
      MatchAtComplete(s, a[0].start, a[0].end);
      MatchAtComplete(s, b[0].start, b[0].end);
      LeftmostUnique(s, a[0].end, a[1..], b[1..]);
    }
  }

  // Every span of a leftmost list is a comment, and so is matched where it starts.
  lemma {:induction false} LeftmostSpansAreComments(s: string, i: nat, spans: seq<Span>, k: nat)
    requires LeftmostFrom(s, i, spans) && k < |spans|
    decreases k
    ensures CommentAt(s, spans[k].start, spans[k].end)
    ensures MatchAt(s, spans[k].start) == Some(spans[k].end)
  {
    if k == 0 {
      MatchAtComplete(s, spans[0].start, spans[0].end);
    } else {
      LeftmostSpansAreComments(s, spans[0].end, spans[1..], k - 1);
    }
  }

  // The order of tiled spans: an earlier one ends before a later one starts.
  lemma {:induction false} TiledOrder(spans: seq<Span>, from: nat, n: nat, j: nat, k: nat)
    requires Tiled(spans, from, n) && j < k < |spans|
    decreases j
    ensures from <= spans[j].start < spans[j].end <= spans[k].start < spans[k].end <= n
  {
    if j == 0 {
      TiledBounds(spans[1..], spans[0].end, n, k - 1);
    } else {
      TiledOrder(spans[1..], spans[0].end, n, j - 1, k - 1);
    }
  }

  lemma {:induction false} TiledBounds(spans: seq<Span>, from: nat, n: nat, k: nat)
    requires Tiled(spans, from, n) && k < |spans|
    decreases k
    ensures from <= spans[k].start < spans[k].end <= n
  {
    if k > 0 {
      TiledBounds(spans[1..], spans[0].end, n, k - 1);
      assert spans[0].end <= spans[k].start;
    }
  }

  // ---------------------------------------------------------------------------
  // Properties of findall and split

  // Two chunks in front of a chunk list shift its code and comment views by one.
  lemma ViewsOfPair(c: string, t: string, rest: seq<string>)
    requires |rest| % 2 == 1
    ensures CodeChunks([c, t] + rest) == [c] + CodeChunks(rest)
    ensures CommentChunks([c, t] + rest) == [t] + CommentChunks(rest)
  {
    var all := [c, t] + rest;
    assert CodeChunks(all)[1..] == CodeChunks(rest);
    assert CommentChunks(all)[1..] == CommentChunks(rest);
  }

  // Cutting s[from..] into chunks loses nothing: the chunks concatenate back to
  // s[from..], the comment chunks are the span texts, and the lengths add up.
  lemma {:induction false} ChunksFromFacts(s: string, spans: seq<Span>, from: nat)
    requires from <= |s| && Tiled(spans, from, |s|)
    decreases |spans|
    ensures Concat(ChunksFrom(s, spans, from)) == s[from..]
    ensures CommentChunks(ChunksFrom(s, spans, from)) == Texts(s, spans, from)
    ensures SumLengths(CodeChunks(ChunksFrom(s, spans, from))) + SumLengths(Texts(s, spans, from)) == |s| - from
  {
    if spans != [] {
      var st, en := spans[0].start, spans[0].end;
      var rest := ChunksFrom(s, spans[1..], en);
      ChunksFromFacts(s, spans[1..], en);
      ViewsOfPair(s[from..st], s[st..en], rest);
      var all := [s[from..st], s[st..en]] + rest;
      assert all[1..] == [s[st..en]] + rest;
      assert ([s[st..en]] + rest)[1..] == rest;
      assert s[from..st] + (s[st..en] + s[en..]) == s[from..];
      assert ([s[from..st]] + CodeChunks(rest))[1..] == CodeChunks(rest);
      assert Texts(s, spans, from)[1..] == Texts(s, spans[1..], en);
    }
  }

  // Joining the chunks of `split` gives back the text.
  lemma SplitReconstructs(s: string)
    ensures Concat(Split(s)) == s
  {
    ChunksFromFacts(s, Scan(s), 0);
    assert s[0..] == s;
  }

  // The chunks of `split` alternate code and comment: there is an odd number of
  // them, the first and the last are code, and the comment chunks in order are
  // the items of `findall`.
  lemma SplitAlternates(s: string)
    ensures |Split(s)| == 2 * |FindAll(s)| + 1
    ensures CommentChunks(Split(s)) == FindAll(s)
    ensures forall k :: 0 <= k < |FindAll(s)| ==> Split(s)[2 * k + 1] == FindAll(s)[k]
  {
    ChunksFromFacts(s, Scan(s), 0);
    forall k | 0 <= k < |FindAll(s)| ensures Split(s)[2 * k + 1] == FindAll(s)[k] {
      assert CommentChunks(Split(s))[k] == Split(s)[2 * k + 1];
    }
  }

  // The lengths of the comments and of the code chunks add up to the length of the text.
  lemma LengthsAddUp(s: string)
    ensures SumLengths(FindAll(s)) <= |s|
    ensures SumLengths(CodeChunks(Split(s))) + SumLengths(FindAll(s)) == |s|
  {
    ChunksFromFacts(s, Scan(s), 0);
  }

  // Each item of `findall` is a comment of s, chosen leftmost first, and no
  // match starts inside another one: in particular a `//` inside a matched
  // block comment is not a match of its own.
  lemma FindAllAreComments(s: string, k: nat)
    requires k < |Scan(s)|
    ensures CommentAt(s, Scan(s)[k].start, Scan(s)[k].end)
    ensures FindAll(s)[k] == s[Scan(s)[k].start..Scan(s)[k].end]
    ensures forall j :: 0 <= j < |Scan(s)| ==> !(Scan(s)[k].start < Scan(s)[j].start < Scan(s)[k].end)
  {
    ScanIsLeftmost(s, 0);
    LeftmostSpansAreComments(s, 0, Scan(s), k);
    TextsAt(s, Scan(s), 0, k);
    forall j | 0 <= j < |Scan(s)| ensures !(Scan(s)[k].start < Scan(s)[j].start < Scan(s)[k].end) {
      if j < k { TiledOrder(Scan(s), 0, |s|, j, k); }
      else if k < j { TiledOrder(Scan(s), 0, |s|, k, j); }
    }
  }

  lemma {:induction false} TextsAt(s: string, spans: seq<Span>, from: nat, k: nat)
    requires Tiled(spans, from, |s|) && k < |spans|
    decreases k
    ensures spans[k].start <= spans[k].end <= |s|
    ensures Texts(s, spans, from)[k] == s[spans[k].start..spans[k].end]
  {
    if k > 0 {
      TextsAt(s, spans[1..], spans[0].end, k - 1);
    }
  }

  // A `/*` that no later `*/` closes is not a match: no item of `findall`
  // starts there.
  lemma UnclosedBlockIsNotMatched(s: string, i: nat)
    requires OpensBlock(s, i)
    requires forall k :: i + 2 <= k ==> !ClosesBlock(s, k)
    ensures MatchAt(s, i) == None
    ensures forall k :: 0 <= k < |Scan(s)| ==> Scan(s)[k].start != i
  {
    assert FindClose(s, i + 2) == None;
    ScanIsLeftmost(s, 0);
    forall k | 0 <= k < |Scan(s)| ensures Scan(s)[k].start != i {
      LeftmostSpansAreComments(s, 0, Scan(s), k);
    }
  }

  // ---------------------------------------------------------------------------
  // Texts with at most one comment

  // A comment starts with a slash.
  lemma CommentStartsWithSlash(s: string, p: nat, e: nat)
    requires CommentAt(s, p, e)
    ensures p < |s| && s[p] == '/'
  {
    assert s[p..e][0] == s[p];
  }

  // A comment starts with `/*` or `//`.
  lemma CommentOpens(s: string, p: nat, e: nat)
    ensures CommentAt(s, p, e) ==> OpensBlock(s, p) || OpensLine(s, p)
  {
    if CommentAt(s, p, e) {
      assert s[p..e][0] == s[p] && s[p..e][1] == s[p + 1];
    }
  }

  // No comment starts in a stretch of text without a slash.
  lemma NoSlashNoComment(s: string, lo: nat, hi: nat)
    requires hi <= |s| && forall p :: lo <= p < hi ==> s[p] != '/'
    ensures NoCommentStartsIn(s, lo, hi)
  {
    forall p: nat, e: nat | lo <= p < hi ensures !CommentAt(s, p, e) {
      if CommentAt(s, p, e) { CommentStartsWithSlash(s, p, e); }
    }
  }

  // Text with no `//` and no `/*` that a later `*/` closes has no match:
  // `split` gives the whole text as its one chunk and `findall` nothing.
  lemma SplitWithoutComments(s: string)
    requires forall i :: !OpensLine(s, i)
    requires forall i, k :: OpensBlock(s, i) && i + 2 <= k ==> !ClosesBlock(s, k)
    ensures Scan(s) == [] && FindAll(s) == []
    ensures Split(s) == [s]
  {
    forall p: nat, e: nat | p < |s| ensures !CommentAt(s, p, e) {
      if CommentAt(s, p, e) {
        MatchAtComplete(s, p, e);
      }
    }
    assert LeftmostFrom(s, 0, []);
    ScanIsLeftmost(s, 0);
    LeftmostUnique(s, 0, Scan(s), []);
    assert s[0..] == s;
  }

  // One comment after a stretch of text without a slash and before one where
  // no `/*` or `//` starts (a line comment followed by the end of its line) is
  // the one match: `split` gives the text before it, the comment and the text
  // after it.
  lemma {:induction false} SplitOfOneComment(code: string, c: string, tail: string)
    requires '/' !in code
    requires forall p :: !OpensBlock(tail, p) && !OpensLine(tail, p)
    requires IsBlockComment(c) || (IsLineComment(c) && (tail == [] || tail[0] == '\n'))
    ensures Scan(code + c + tail) == [Span(|code|, |code| + |c|)]
    ensures FindAll(code + c + tail) == [c]
    ensures Split(code + c + tail) == [code, c, tail]
  {
    var s := code + c + tail;
    var a, b := |code|, |code| + |c|;
    assert s[a..b] == c;
    assert s[..a] == code && s[0..a] == code;
    assert s[b..] == tail;
    assert CommentAt(s, a, b);
    forall p | 0 <= p < a ensures s[p] != '/' { assert s[p] == code[p]; }
    NoSlashNoComment(s, 0, a);
    forall p: nat, e: nat | b <= p < |s| ensures !CommentAt(s, p, e) {
      CommentOpens(s, p, e);
      assert OpensBlock(tail, p - b) == OpensBlock(s, p) && OpensLine(tail, p - b) == OpensLine(s, p);
    }
    assert LeftmostFrom(s, b, []);
    assert LeftmostFrom(s, 0, [Span(a, b)]);
    ScanIsLeftmost(s, 0);
    LeftmostUnique(s, 0, Scan(s), [Span(a, b)]);
    assert [Span(a, b)][1..] == [];
    assert ChunksFrom(s, [Span(a, b)], 0) == [s[0..a], s[a..b]] + ChunksFrom(s, [], b);
  }
}

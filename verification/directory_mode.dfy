// The directory entry point: select the Scala and Java files among those the
// walk of the tree yields, analyze each in turn, sum their statistics and take
// the comments percentage of the totals.  The walk and the reading of each file
// are not modelled: the run receives the files the walk yields, in order, each
// with its decoded content.
module DirectoryMode {
  import opened Wrappers
  import opened Analysis

  // A file the walk yields: its path and its decoded text.
  datatype SourceFile = SourceFile(path: string, content: string)

  // `s.endswith(suffix)`.
  predicate EndsWith(s: string, suffix: string) {
    |suffix| <= |s| && s[|s| - |suffix|..] == suffix
  }

  // `fpath.endswith('.scala') or fpath.endswith('.java')`.
  predicate IsSourcePath(path: string) {
    EndsWith(path, ".scala") || EndsWith(path, ".java")
  }

  // A path is selected exactly when it is some name followed by `.scala` or
  // `.java`, letter case included.
  lemma SelectedPaths(stem: string)
    ensures IsSourcePath(stem + ".scala") && IsSourcePath(stem + ".java")
    ensures !IsSourcePath(stem + ".txt") && !IsSourcePath(stem + ".JAVA") && !IsSourcePath(stem + ".Scala")
  {
    var sc, j := stem + ".scala", stem + ".java";
    assert sc[|sc| - 6..] == ".scala";
    assert j[|j| - 5..] == ".java";
    var t, uj, us := stem + ".txt", stem + ".JAVA", stem + ".Scala";
    assert t[|t| - 1] == 't';
    assert uj[|uj| - 1] == 'A';
    assert us[|us| - 5] == 'S' && us[|us| - 6] == '.';
    SuffixAt(t, ".scala", 5);
    SuffixAt(t, ".java", 4);
    SuffixAt(uj, ".scala", 5);
    SuffixAt(uj, ".java", 4);
    SuffixAt(us, ".scala", 1);
    SuffixAt(us, ".java", 0);
  }

  lemma SuffixAt(s: string, suffix: string, k: nat)
    requires k < |suffix|
    ensures EndsWith(s, suffix) ==> s[|s| - |suffix| + k] == suffix[k]
  {
    if EndsWith(s, suffix) {
      assert s[|s| - |suffix|..][k] == suffix[k];
    }
  }

  // Conversely, a selected path is a name followed by `.scala` or `.java`.
  lemma SelectedPathHasExtension(path: string)
    requires IsSourcePath(path)
    ensures (|path| >= 6 && path == path[..|path| - 6] + ".scala") || path == path[..|path| - 5] + ".java"
  {
    if EndsWith(path, ".scala") {
      assert path == path[..|path| - 6] + path[|path| - 6..];
    } else {
      assert path == path[..|path| - 5] + path[|path| - 5..];
    }
  }

  // The generator expression that keeps the files with a selected path, in walk order.
  function Selected(tree: seq<SourceFile>): (r: seq<SourceFile>)
    ensures |r| <= |tree|
  {
    if tree == [] then []
    else (if IsSourcePath(tree[0].path) then [tree[0]] else []) + Selected(tree[1..])
  }

  // A file is selected exactly when the walk yields it and its path has a
  // selected extension; the others are skipped without an error.
  lemma {:induction false} SelectedExactly(tree: seq<SourceFile>, f: SourceFile)
    ensures f in Selected(tree) <==> f in tree && IsSourcePath(f.path)
  {
    if tree != [] {
      SelectedExactly(tree[1..], f);
      assert tree == [tree[0]] + tree[1..];
    }
  }

  // Selection keeps the walk's order: selecting from two runs of files one
  // after the other is selecting from each and putting the results together.
  lemma {:induction false} SelectedKeepsOrder(a: seq<SourceFile>, b: seq<SourceFile>)
    ensures Selected(a + b) == Selected(a) + Selected(b)
  {
    if a == [] {
      assert a + b == b;
    } else {
      var head := if IsSourcePath(a[0].path) then [a[0]] else [];
      assert (a + b)[0] == a[0] && (a + b)[1..] == a[1..] + b;
      SelectedKeepsOrder(a[1..], b);
      calc {
        Selected(a + b);
        head + Selected(a[1..] + b);
        head + (Selected(a[1..]) + Selected(b));
        (head + Selected(a[1..])) + Selected(b);
      }
    }
  }

  // Field-wise sum of two statistics records.
  function Add(x: FileStats, y: FileStats): FileStats {
    FileStats(x.sourceLength + y.sourceLength, x.codeLength + y.codeLength, x.commentsLength + y.commentsLength)
  }

  // `source_total`, `code_total` and `comments_total`: each field summed over
  // the files.
  function Total(stats: seq<FileStats>): FileStats {
    if stats == [] then FileStats(0, 0, 0) else Add(stats[0], Total(stats[1..]))
  }

  // When every file's counts add up, so do the totals.
  lemma {:induction false} TotalConserved(stats: seq<FileStats>)
    requires forall i :: 0 <= i < |stats| ==> Conserved(stats[i])
    ensures Conserved(Total(stats))
  {
    if stats != [] {
      assert forall i :: 0 <= i < |stats[1..]| ==> stats[1..][i] == stats[i + 1];
      TotalConserved(stats[1..]);
    }
  }

  // Files that are not all empty have a positive total length.
  lemma {:induction false} TotalPositive(stats: seq<FileStats>)
    requires stats != []
    requires forall i :: 0 <= i < |stats| ==> stats[i].sourceLength > 0
    ensures Total(stats).sourceLength > 0
  {
    if |stats| > 1 {
      assert forall i :: 0 <= i < |stats[1..]| ==> stats[1..][i] == stats[i + 1];
      TotalPositive(stats[1..]);
    }
  }

  // The totals of two runs of files together are the sums of their totals.
  lemma {:induction false} TotalOfAppend(a: seq<FileStats>, b: seq<FileStats>)
    ensures Total(a + b) == Add(Total(a), Total(b))
  {
    if a == [] {
      assert a + b == b;
    } else {
      assert (a + b)[1..] == a[1..] + b;
      TotalOfAppend(a[1..], b);
    }
  }

  // The totals of analyzed files add up.
  lemma TotalsOfFilesConserved(files: seq<SourceFile>)
    ensures Conserved(Total(StatsOf(files)))
  {
    TotalConserved(StatsOf(files));
  }

  // Files that are not empty have a positive total length.
  lemma TotalsOfFilesPositive(files: seq<SourceFile>)
    requires files != []
    requires forall k :: 0 <= k < |files| ==> files[k].content != []
    ensures Total(StatsOf(files)).sourceLength > 0
  {
    TotalPositive(StatsOf(files));
  }

  // The statistics of each file, in order.
  function StatsOf(files: seq<SourceFile>): (r: seq<FileStats>)
    ensures |r| == |files|
  {
    seq(|files|, k requires 0 <= k < |files| => Stats(files[k].content))
  }

  // What a successful run reports: each analyzed file with its labelled
  // chunks and statistics, the totals, and the comments percentage.
  datatype Summary = Summary(files: seq<(string, FileReport)>, totals: FileStats, commentsPct: real)

  // The loop of `main` that analyzes each selected file in walk order and
  // appends its statistics: the first empty file stops it with a division by
  // zero.
  method AnalyzeAll(sources: seq<SourceFile>) returns (r: Result<seq<(string, FileReport)>, Error>)
    ensures r.Failure? <==> exists k :: 0 <= k < |sources| && sources[k].content == []
    ensures r.Success? ==> |r.value| == |sources|
    ensures r.Success? ==> forall k :: 0 <= k < |sources| ==>
      r.value[k].0 == sources[k].path && Analyze(sources[k].content) == Success(r.value[k].1)
  {
    var reports: seq<(string, FileReport)> := [];
    for i := 0 to |sources|
      invariant |reports| == i
      invariant forall k :: 0 <= k < i ==>
        reports[k].0 == sources[k].path && Analyze(sources[k].content) == Success(reports[k].1)
    {
      var analyzed := Analyze(sources[i].content);
      if analyzed.Failure? {
        assert sources[i].content == [];
        return Failure(analyzed.error);
      }
      reports := reports + [(sources[i].path, analyzed.value)];
    }
    r := Success(reports);
  }

  // `main`: analyze the selected files, sum their statistics and take the
  // comments percentage of the totals; a tree with no selected file has zero
  // totals and fails with a division by zero.
  method RunDirectory(tree: seq<SourceFile>) returns (r: Result<Summary, Error>)
    ensures r.Failure? <==>
      Selected(tree) == [] || exists k :: 0 <= k < |Selected(tree)| && Selected(tree)[k].content == []
    ensures r.Success? ==> |r.value.files| == |Selected(tree)|
    ensures r.Success? ==> forall k :: 0 <= k < |Selected(tree)| ==>
      r.value.files[k].0 == Selected(tree)[k].path && Analyze(Selected(tree)[k].content) == Success(r.value.files[k].1)
    ensures r.Success? ==> r.value.totals == Total(StatsOf(Selected(tree)))
    ensures r.Success? ==> Pct(r.value.totals.commentsLength, r.value.totals.sourceLength) == Success(r.value.commentsPct)
  {
    var sources := Selected(tree);
    var analyzed := AnalyzeAll(sources);
    if analyzed.Failure? {
      return Failure(analyzed.error);
    }
    var reports := analyzed.value;
    var totals := Total(StatsOf(sources));
    if sources != [] {
      TotalsOfFilesPositive(sources);
    }
    var pct := Pct(totals.commentsLength, totals.sourceLength);
    if pct.Failure? {
      return Failure(pct.error);
    }
    r := Success(Summary(reports, totals, pct.value));
  }
}

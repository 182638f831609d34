// The behaviour of the comment pattern and of the analysis on particular
// texts: the shapes the matching rules single out, and small worked examples.
module Cases {
  import opened Wrappers
  import opened CommentPattern
  import opened CommentScanner
  import opened ChunkLabels
  import opened Analysis
  import opened SingleFileMode

  // A text that is one line comment is split into an empty code chunk, the
  // comment and an empty code chunk; all of it is comment.
  lemma LoneLineComment(s: string)
    requires IsLineComment(s)
    ensures Split(s) == ["", s, ""] && FindAll(s) == [s]
    ensures Stats(s) == FileStats(|s|, 0, |s|)
    ensures Label(Split(s)) == [LabelledChunk(1, Code, ""), LabelledChunk(2, Comment, s), LabelledChunk(3, Code, "")]
  {
    assert "" + s + "" == s;
    SplitOfOneComment("", s, "");
    LabelsFollowParity(s);
  }

  // A text with no comment is one code chunk and has no comment length.
  lemma NoComments(s: string)
    requires forall i :: !OpensLine(s, i)
    requires forall i, k :: OpensBlock(s, i) && i + 2 <= k ==> !ClosesBlock(s, k)
    ensures Split(s) == [s] && FindAll(s) == []
    ensures Stats(s) == FileStats(|s|, |s|, 0)
    ensures Label(Split(s)) == [LabelledChunk(1, Code, s)]
  {
    SplitWithoutComments(s);
    LabelsFollowParity(s);
  }

  // The comments percentage of a text that is one line comment is 100.
  lemma LoneLineCommentPct(s: string)
    requires IsLineComment(s)
    ensures Summarize(s).Success? && Summarize(s).value.commentsPct == 100.0
  {
    LoneLineComment(s);
    var r := Summarize(s);
    assert r.Success? && r.value.stats == Stats(s);
    PctOfWhole(|s|);
  }

  // The comments percentage of a text with no comment, when it is not empty, is 0.
  lemma NoCommentsPct(s: string)
    requires s != []
    requires forall i :: !OpensLine(s, i)
    requires forall i, k :: OpensBlock(s, i) && i + 2 <= k ==> !ClosesBlock(s, k)
    ensures Summarize(s).Success? && Summarize(s).value.commentsPct == 0.0
  {
    NoComments(s);
    var r := Summarize(s);
    assert r.Success? && r.value.stats == Stats(s);
    PctOfWhole(|s|);
  }

  // A line comment stops before the newline, which stays code.
  lemma LineCommentExample()
    ensures Split("int x = 1; // set x\n") == ["int x = 1; ", "// set x", "\n"]
    ensures Stats("int x = 1; // set x\n") == FileStats(20, 12, 8)
  {
    assert "int x = 1; // set x\n" == "int x = 1; " + "// set x" + "\n";
    SplitOfOneComment("int x = 1; ", "// set x", "\n");
  }

  // A carriage return before the newline belongs to the line comment.
  lemma CarriageReturnInLineComment()
    ensures FindAll("a // b\r\nc") == ["// b\r"]
  {
    assert "a // b\r\nc" == "a " + "// b\r" + "\nc";
    SplitOfOneComment("a ", "// b\r", "\nc");
  }

  // A block comment at the start leaves an empty code chunk before it.
  lemma BlockCommentExample()
    ensures Split("/* header */\ncode();") == ["", "/* header */", "\ncode();"]
    ensures Stats("/* header */\ncode();") == FileStats(20, 8, 12)
  {
    assert "/* header */\ncode();" == "" + "/* header */" + "\ncode();";
    SplitOfOneComment("", "/* header */", "\ncode();");
  }

  // A block comment may span lines, and a `//` inside it is part of it.
  lemma BlockCommentSpansLines()
    ensures FindAll("x /* a\n // b */ y") == ["/* a\n // b */"]
  {
    assert "x /* a\n // b */ y" == "x " + "/* a\n // b */" + " y";
    SplitOfOneComment("x ", "/* a\n // b */", " y");
  }

  // The `*/` must start after the opening `/*`: in `/*/ x */` the slash
  // right after the star does not close the comment.
  lemma SlashAfterOpeningDoesNotClose()
    ensures Split("/*/ x */") == ["", "/*/ x */", ""]
    ensures Stats("/*/ x */") == FileStats(8, 0, 8)
  {
    assert "/*/ x */" == "" + "/*/ x */" + "";
    SplitOfOneComment("", "/*/ x */", "");
  }

  // A block comment ends at the nearest `*/`; what follows is code.
  lemma BlockCommentEndsAtNearestClose()
    ensures Split("/* a */ b */") == ["", "/* a */", " b */"]
  {
    assert "/* a */ b */" == "" + "/* a */" + " b */";
    SplitOfOneComment("", "/* a */", " b */");
  }

  // A block comment that is never closed is code.
  lemma UnclosedBlockExample()
    ensures Split("/* never closes") == ["/* never closes"]
    ensures Stats("/* never closes") == FileStats(15, 15, 0)
    ensures Label(Split("/* never closes")) == [LabelledChunk(1, Code, "/* never closes")]
  {
    var s := "/* never closes";
    assert forall k :: 0 <= k < |s| ==> s[k] == '*' ==> k == 1;
    NoComments(s);
  }

  // An empty text fails the analysis with a division by zero.
  lemma EmptyTextFails()
    ensures Analyze("") == Failure(ZeroDivisionError)
  {
  }
}

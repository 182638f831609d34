# codestats comment scanner, in Dafny

codestats reports how much of a source file is comments. Both of its entry
points compile one regular expression, `(/\*.*?\*/|//.*?$)` with the
`MULTILINE` and `DOTALL` flags, and use it three ways:

- `findall` lists the comments;
- `split` cuts the text into chunks that alternate code and comment;
- `match` labels each chunk `[CODE]` or `[COMMENT]`, numbered from 1.

From these come the statistics record `{source_length, code_length,
comments_length}` and a comments percentage. The two entry points differ in
scope:

- `codestats.py` walks a directory and keeps the `.scala` and `.java` files.
  It analyzes each one, sums the records field by field into totals, and takes
  the percentage of the totals.
- `codstats.py` summarizes one file.

The model has these modules:

- `CommentPattern` (pattern.dfy) tries the pattern at one position
  (`MatchAt`). The block alternative is tried first: `/*` up to the nearest
  `*/` that starts after the opening two characters. Otherwise the line
  alternative: `//` up to the first `\n` or the end of the text. `MatchAt` is
  proved sound and complete against a declarative definition of a comment
  (`CommentAt`).
- `CommentScanner` (scanner.dfy) holds the leftmost-first scan that resumes
  after each match, as the regular-expression engine does. It also defines
  `FindAll` and `Split`, and proves the facts about chunks: they join back to
  the text, they alternate, the comment chunks are the `findall` items, and
  the lengths add up.
- `ChunkLabels` (labels.dfy) labels each chunk the way the print loop does,
  by matching the pattern at the chunk's start. It proves that this labelling
  is exactly the chunk's parity.
- `Analysis` (analysis.dfy) covers `analyze`: the statistics and the
  percentage. The percentage is a division that fails on a zero total.
- `DirectoryMode` (directory_mode.dfy) covers the extension filter, the
  analysis loop of `main`, the totals and their percentage.
- `SingleFileMode` (single_file_mode.dfy) covers `summarize`.
- `Cases` (cases.dfy) holds the behaviour on the shapes the matching rules
  single out, plus small worked texts.

Three behaviours of the code worth knowing, which the model keeps:

- An empty text makes `pct` divide by zero (codestats.py:27,
  codstats.py:25). The error is raised before any chunk is printed and is
  not caught. So `Analyze` and `Summarize` fail on an empty text. In the
  directory run, the first empty selected file stops the whole run.
- The directory run also fails when no file is selected, because the totals
  are then zero (codestats.py:76). This includes a root that is missing or is
  not a directory, which the walk treats as having no files.
- `split` always returns code chunks on both sides of each comment, even when
  they are empty. A text that is only a line comment therefore splits as
  `["", comment, ""]`, and `"/* header */\ncode();"` starts with an empty
  code chunk.

## Model

| member | source | states |
|---|---|---|
| CommentPattern.FindClose | codestats.py:61 | the lazy `.*?\*/`: the first `*/` at or after a position, or none there and beyond |
| CommentPattern.FindLineEnd | codestats.py:61 | the lazy `.*?$` under MULTILINE: the first position at or after j that is a `\n` or the end of the text, with no `\n` before it |
| CommentPattern.MatchAt | codestats.py:61 | a match of the pattern at a position is at least two characters long and lies inside the text |
| CommentPattern.MatchAtSound | codestats.py:61 | what the pattern matches at a position is a block comment closed at its nearest `*/`, or a line comment that ends at a `\n` or at the end of the text |
| CommentPattern.MatchAtComplete | codestats.py:61 | every comment starting at a position is exactly what the pattern matches there, so the match is unique |
| CommentPattern.PrefixMatchLifts | codestats.py:30 | a match at the start of a piece of the text is also a match at the same place in the whole text |
| CommentPattern.CommentMatchesItself | codestats.py:30 | a matched comment, cut out and matched on its own, matches as a whole |
| CommentScanner.ScanFrom | codestats.py:22-23 | the matches are non-empty, in order, do not overlap and lie in the text |
| CommentScanner.Texts | codestats.py:22 | findall yields one item per match |
| CommentScanner.ChunksFrom | codestats.py:23 | split yields 2n+1 chunks for n matches |
| CommentScanner.ScanIsLeftmost | codestats.py:22-23 | the scan picks comments leftmost first: none starts between the end of one match and the start of the next, or after the last |
| CommentScanner.LeftmostStepBack | codestats.py:22-23 | a position where no comment starts can be prepended to a leftmost list |
| CommentScanner.LeftmostUnique | codestats.py:22-23 | there is only one leftmost-first list of comments, so the scan is determined by the comment definition |
| CommentScanner.LeftmostSpansAreComments | codestats.py:22-23 | every span of a leftmost list is a comment, and the pattern matches it where it starts |
| CommentScanner.TiledOrder | codestats.py:22-23 | an earlier match ends no later than a later one starts |
| CommentScanner.ChunksFromFacts | codestats.py:23-26 | cutting at the matches loses nothing: the chunks join back, the odd chunks are the match texts, and code and comment lengths add up to the length |
| CommentScanner.SplitReconstructs | codestats.py:23 | joining the chunks of split gives back the text exactly |
| CommentScanner.SplitAlternates | codestats.py:22-23 | split has 2n+1 chunks for n findall items, and its chunks at odd positions are the findall items in order |
| CommentScanner.LengthsAddUp | codestats.py:24-26 | the comment lengths never exceed the text length, and with the code chunk lengths they add up to it |
| CommentScanner.FindAllAreComments | codestats.py:22 | each findall item is a comment of the text at its span, and no match starts inside another, so a `//` inside a block comment is not a match |
| CommentScanner.UnclosedBlockIsNotMatched | codestats.py:61 | a `/*` with no later `*/` is not matched, and no findall item starts there |
| CommentScanner.SplitWithoutComments | codstats.py:20-21 | a text with no `//` and no closed `/*` has no match, and split gives the whole text as its one chunk |
| CommentScanner.SplitOfOneComment | codstats.py:20-21 | a slash-free prefix, one comment, and a tail with no comment start split into exactly those three chunks, and findall gives the comment |
| ChunkLabels.Label | codstats.py:27-32 | one label per chunk |
| ChunkLabels.GapIsCode | codstats.py:28 | a chunk where no comment starts, including an empty one, does not match and is labelled code |
| ChunkLabels.ChunkKindsFrom | codstats.py:27-32 | the chunks of a leftmost cut that match at their start are exactly those at odd positions |
| ChunkLabels.LabelsFollowParity | codestats.py:29-34 | chunk i+1 is labelled comment exactly when i is odd, and then it is findall item i/2; all other chunks are code |
| Analysis.Pct | codestats.py:15-17 | the percentage fails with a division error exactly when the total is zero |
| Analysis.PctWithin | codstats.py:13-15 | for a part of a positive whole, the percentage times the whole is 100 times the part, and it lies in [0, 100] |
| Analysis.PctOfWhole | codstats.py:13-15 | all of a positive total is 100 percent, and none of it is 0 percent |
| Analysis.Stats | codestats.py:24-26 | the source length is the text length; code and comment lengths are non-negative and add up to it |
| Analysis.StatsCountChunks | codestats.py:22-26 | comments_length is the total length of split's comment chunks, and code_length, computed as the remainder, is the total length of its code chunks |
| Analysis.Analyze | codestats.py:20-41 | analyze fails exactly on an empty text; otherwise its report is split's labelled chunks and the statistics |
| Analysis.AnalyzeReport | codestats.py:20-41 | for a non-empty text: an odd number of chunks numbered from 1, alternating code and comment from code, joining back to the text, with conserved counts |
| DirectoryMode.SelectedPaths | codestats.py:63-66 | names ending in `.scala` or `.java` are selected; `.txt`, `.JAVA` and `.Scala` are not, because the test is case-sensitive |
| DirectoryMode.SelectedPathHasExtension | codestats.py:65 | a selected path is some name followed by `.scala` or `.java` |
| DirectoryMode.Selected | codestats.py:63-66 | filtering never adds files |
| DirectoryMode.SelectedExactly | codestats.py:63-66 | a file is selected exactly when the walk yields it and its path ends with `.scala` or `.java`; others are skipped without error |
| DirectoryMode.SelectedKeepsOrder | codestats.py:63-66 | selection keeps walk order: selecting from a concatenation concatenates the selections |
| DirectoryMode.TotalConserved | codestats.py:73-75 | when each file's counts add up, so do the field-wise totals |
| DirectoryMode.TotalPositive | codestats.py:73 | at least one file, all non-empty, gives a positive source total |
| DirectoryMode.TotalOfAppend | codestats.py:73-75 | the totals of two runs of files together are the field-wise sums of their totals |
| DirectoryMode.TotalsOfFilesConserved | codestats.py:73-75 | code_total + comments_total == source_total for any analyzed files, both non-negative |
| DirectoryMode.TotalsOfFilesPositive | codestats.py:73 | the source total of a non-empty list of non-empty files is positive |
| DirectoryMode.StatsOf | codestats.py:71 | one statistics record per analyzed file |
| DirectoryMode.AnalyzeAll | codestats.py:68-71 | the loop fails exactly when some selected file is empty; otherwise it yields each file's path and analysis, in order |
| DirectoryMode.RunDirectory | codestats.py:57-76 | the run fails exactly when no file is selected or a selected file is empty; otherwise it reports each selected file's analysis in walk order, the field-wise totals, and the percentage of the totals |
| SingleFileMode.Summarize | codstats.py:18-40 | fails exactly on an empty text; otherwise the chunks are the labelled chunks of split, chunk i+1 labelled code at even i and comment at odd i, with texts that join back to the source; there are 2n+1 of them for n findall items; the length is the text's, the counts are conserved, comments are findall's total length, and the percentage is the exact share in [0, 100] |
| Cases.LoneLineComment | codstats.py:20-33 | a text that is one line comment splits into `["", comment, ""]`, is all comment, and is labelled code, comment, code |
| Cases.LoneLineCommentPct | codstats.py:25 | its comments percentage is 100 |
| Cases.NoComments | codstats.py:20-33 | a text with no `//` and no closed `/*` is one code chunk, with comments length 0 |
| Cases.NoCommentsPct | codstats.py:25 | its comments percentage, when it is not empty, is 0 |
| Cases.LineCommentExample | codestats.py:22-26 | `"int x = 1; // set x\n"` splits at the comment, leaves the newline as code, and has lengths 20, 12 and 8 |
| Cases.CarriageReturnInLineComment | codestats.py:61 | a `\r` before the newline belongs to the line comment |
| Cases.BlockCommentExample | codestats.py:22-26 | `"/* header */\ncode();"` splits into an empty code chunk, the comment and the rest, with lengths 20, 8 and 12 |
| Cases.BlockCommentSpansLines | codestats.py:61 | a block comment may span lines and contain `//` |
| Cases.SlashAfterOpeningDoesNotClose | codestats.py:61 | in `/*/ x */` the slash after the opening star does not close the comment: the whole text is one comment between two empty code chunks, all of its 8 characters comment |
| Cases.BlockCommentEndsAtNearestClose | codestats.py:61 | a block comment ends at the nearest `*/`, and a later `*/` is code |
| Cases.UnclosedBlockExample | codestats.py:61 | `"/* never closes"` is one code chunk with comments length 0 |
| Cases.EmptyTextFails | codestats.py:27 | an empty text fails with a division by zero |

## Left out

- Directory traversal (`find_files`, codestats.py:50-54) is filesystem I/O. The run takes as a parameter the files the walk yields, in order.
- Reading the files is I/O. This includes `open(..., 'rb')` with UTF-8 decoding under `'ignore'` (codestats.py:46-47) and `open(filename)` in text mode (codstats.py:49-50). The model receives each file's decoded text as it reaches the analysis. So it does not capture what reading does to the bytes. In single-file mode, text mode's universal newlines turn both `\r\n` and a lone `\r` into `\n`. Decoding there uses the locale's encoding and is strict, so malformed input raises an error instead of being dropped as in codestats.py:47.
- Python's `re` engine is not modelled in general. Only this one pattern is, as an explicit matcher and scanner.
- Analysis.Pct: computes `100 * n / m` as an exact real. It does not model floating point, `round(..., 1)` or `%.1f` formatting.
- Printing is not modelled. This covers the `Analyzing` lines, the chunk texts and the summary lines, plus the `sys.argv` handling in both `main`s. The labelled chunk list and the summary values are modelled instead.
- DirectoryMode.RunDirectory: a failed run reports only the error. It does not capture the chunks and `Analyzing` lines printed for the files before the one that failed.
- DirectoryMode.RunDirectory: its contract does not repeat that the totals are conserved and positive. Those facts are the lemmas TotalsOfFilesConserved and TotalsOfFilesPositive about the same `Total(StatsOf(...))`.
- A missing single file is not modelled: `open(filename)` at codstats.py:49 raises an I/O error before any analysis.
- A missing command-line argument is not modelled: `argv[1]` at codestats.py:60 and codstats.py:46 raises IndexError.
- A directory root that is missing or is not a directory is not a separate case. `os.walk` at codestats.py:52 ignores the failure to list it, so the walk yields no files. That is the empty tree, and `RunDirectory` fails on it with the division by zero of an empty selection.

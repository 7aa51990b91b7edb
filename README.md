# git-analytics core in Dafny

This project models the pipeline that turns the text printed by
`git log --all -M -C --numstat --date=iso --pretty=format:+++%H\t%ad\t%an\t%s` into two
tagged tables: one row per commit and one row per changed file. It proves properties of
that model. The repository holds two iterations of the code (`src/` and
`git_analytics/`), and both are modelled where they differ.

## What is modelled

- **Log parser.** The log parser exists in two versions. `GitLogParsing` models
  `src/git_log_parsing.py` and `AnalyticsGitLogParsing` models
  `git_analytics/git_log_parsing.py`.
  - The parse proceeds in steps:
    - the log is cut at the `+++` marker and the text before the first marker is dropped;
    - the last block gets a trailing newline;
    - each header is split on tabs, and a subject that held tabs is glued back with spaces;
    - the last two lines of each block are dropped and the stat lines become file rows;
    - the rows become two tables.
  - Every Python failure of the parse is an error value of `ParseError`:
    - no marker (the `IndexError` of `log[-1]`);
    - a short stat line;
    - a count `int` refuses;
    - rows that do not fit the four column names of the table.
  - The parser object is a `class`. Its fields are updated as the source updates them, including
    the partial lists left behind by a failed parse. Its getters fetch and parse only while
    no table is stored. The git text is a parameter of each getter.
- **Git output format.** `GitLogFormat` builds the text git prints for a list of
  commits. A commit that changed files prints its header, its numstat lines and a blank
  line before the next marker. A commit without numstat lines (a merge, which the log
  shows without a diff, or an empty commit) prints its header alone. For commits whose
  fields the format prints unambiguously (`WellFormed`, see "Left out"), it proves that
  parsing that text gives back exactly those commits and their file rows, in order.
- **Rename resolution.** `FileRenaming` models the rename handling of
  `src/data_preparation.py`:
  - the regex `([A-z\./0-9\-_]*){{0,1}([A-z\./0-9\-_]*) => ([A-z\./0-9\-_]*)}{0,1}([A-z\./0-9\-_]*)`,
    written out character by character with Python's leftmost, greedy matching;
  - the root-file rule as written (the corrected rule of the finding below is modelled beside it);
  - path rebuilding with `//` collapsed;
  - the in-place update of the renamed rows;
  - the one-step chain merge;
  - the last-wins dictionary;
  - the whole-value replacement.
- **Data preparation.** `DataPreparation` models:
  - author alias replacement;
  - the order in which the tagging steps run;
  - the code-line columns;
  - the many-to-one left join.
- **Path tagging.** `PathTagging` holds the per-path rules. `CommitFilesTagging` and
  `AnalyticsCommitFilesTagging` hold the two tagger classes, which write columns into a
  table in place. The per-path rules are:
  - the language extension;
  - the source-path prefix test;
  - the component found by `re` alternation, leftmost position first, then list order;
  - the module segment with its extension, component names and trailing separator removed.
- **Author grouping.** `AuthorGrouping` models the greedy single-pass alias grouping of
  `scripts/find_similar_author_nm.py`. The similarity is an arbitrary function.
- **Chart operation suites.** `FigGeneration` and `AnalyticsFigGeneration` model the
  `Transformer` and `FigGenerator` of the two `fig_generation.py` files:
  - the in-place rewrite of the `agg` placeholder;
  - the operation-argument table;
  - the dispatch classification;
  - the `$`-literal rule for figure arguments;
  - the integer dimension formula.
- **Tables.** `Frames` holds the two tables as classes with one field per column, so the
  tagging and rename steps can update them in place. A column not yet added is `None`,
  and a missing cell is `None`.
- **Shared text functions.** `Text` holds Python's `str.split`, `str.join` and
  `str.replace`, and `int` on decimal text. `Wrappers` holds `Option` and `Result`.

Where a reader might expect otherwise, the model follows the code:
- the extension match is case-sensitive;
- rename chains are followed one step only;
- the alias file is applied as loaded, not inverted;
- only the `src/` tagger treats a source path of `.` specially.

## Model

| member | source | states |
|---|---|---|
| GitLogParsing.ChunksOfPieces | src/git_log_parsing.py:71-73 | A log that starts with a marker yields one block per marker: the text between markers, with a newline added to the last block |
| GitLogParsing.ChunksCount | src/git_log_parsing.py:71-73 | Splitting fails (the `IndexError` of `log[-1]`) exactly when the log holds no marker, and then the whole parse fails with that error; otherwise there is one block per marker |
| GitLogParsing.HandleTabInCommitMsg | src/git_log_parsing.py:62-67 | More than four header fields become exactly four: the first three unchanged, the fourth the remaining fields joined by single spaces |
| GitLogParsing.CommitInfo | src/git_log_parsing.py:81-84 | A header row always has between one and four fields |
| GitLogParsing.DropLastTwo | src/git_log_parsing.py:39 | All lines but the last two, in order; nothing when there are fewer than two |
| GitLogParsing.FilesInfo | src/git_log_parsing.py:42-58 | On success, one row per stat line, and every row carries the commit id of its block |
| GitLogParsing.InvalidCountFails | src/git_log_parsing.py:46-51 | A first field that is neither `-` nor a decimal integer makes the line fail with that text (the `ValueError` of `int`) |
| GitLogParsing.FilesInfoAll | src/git_log_parsing.py:42-60 | Stat lines that each read as a row read together as exactly those rows, in line order |
| GitLogParsing.FilesInfoSticks | src/git_log_parsing.py:42-51 | The first failing stat line decides the result, whatever lines follow it |
| GitLogParsing.GetFilesInfo | src/git_log_parsing.py:37-60 | The loop over the stat lines returns the rows of all lines but the last two, or the error of the first line that fails |
| GitLogParsing.ParseChunks | src/git_log_parsing.py:78-89 | Without an error the loop leaves exactly one header row per block, and every header row has one to four fields |
| GitLogParsing.ChunkFilesOwned | src/git_log_parsing.py:81-86 | Every file row of a block carries field 0 of that block's header |
| GitLogParsing.FilesReferenceCommits | src/git_log_parsing.py:78-89 | Every file row produced belongs to a header row produced before it or with it |
| GitLogParsing.ReferencesLast | src/git_log_parsing.py:88 | Appending a header row makes its id referenced |
| GitLogParsing.ParseChunksSticks | src/git_log_parsing.py:78-89 | After a failing block, later blocks change neither the lists nor the error |
| GitLogParsing.ParseChunksStep | src/git_log_parsing.py:78-89 | One more block either appends its header row and its file rows or records its error, leaving what came before unchanged |
| GitLogParsing.ParseChunksAppend | src/git_log_parsing.py:86-89 | A block that parses appends its header row to the commits and its file rows after the earlier file rows |
| GitLogParsing.ParseChunksAll | src/git_log_parsing.py:78-89 | Blocks that each parse give every header row in block order and the file rows grouped by block, in order, without error |
| GitLogParsing.MaxWidth | src/git_log_parsing.py:91-94 | The width of the widest row: no row is wider and some row is exactly that wide |
| GitLogParsing.CommitTable | src/git_log_parsing.py:91-94 | When the table can be built, it has one commit per header row |
| GitLogParsing.ParseLogOk | src/git_log_parsing.py:69-98 | The parse succeeds with the given tables when splitting, every block and the table all succeed |
| GitLogParsing.CommitCount | src/git_log_parsing.py:71-94 | A successful parse has exactly one commit row per marker in the log |
| GitLogParsing.GitLogParser.constructor | src/git_log_parsing.py:15-17 | Stores the repository path; no lists, no tables, no fetch yet |
| GitLogParsing.GitLogParser.ParseLog | src/git_log_parsing.py:69-98 | Succeeds exactly when `ParseLogSpec` does, and fails with its error otherwise. Without a marker nothing changes. Otherwise the lists are the state the block loop leaves. Both tables are set together, only on success |
| GitLogParsing.GitLogParser.ParseChunksIntoLists | src/git_log_parsing.py:75-89 | Resets both lists, then leaves them and the error as `ParseChunks` says |
| GitLogParsing.GitLogParser.GetParsedCommits | src/git_log_parsing.py:101-106 | A stored table is returned without fetching, and the parser's lists stay as they were. Otherwise git is fetched once and parsed: the result or the parse error is returned, and the two lists hold what the block loop built, or stay as they were when the text has no marker |
| GitLogParsing.GitLogParser.GetParsedCommitsFiles | src/git_log_parsing.py:108-114 | The same rule for the commit-file table, with the same effect on the parser's lists |
| GitLogParsing.ParseOnce | src/git_log_parsing.py:101-114 | When the first getter's parse succeeds, both getters answer from that parse after a single fetch. When it fails, the second getter fetches again |
| GitLogFormat.HeaderSplit | src/git_log_parsing.py:9 | A header printed by the format splits on tabs into id, date and author, then the pieces of the subject |
| GitLogFormat.HeaderFields | src/git_log_parsing.py:81-84 | A printed header reads back as its four fields, with the subject's tabs turned into spaces |
| GitLogFormat.TabbedSubject | test/test_git_log_parsing.py:57-74 | A subject of three plain words separated by tabs, as in the `Add`, `README`, `ovidentia` example, reads back as one fourth field holding the words separated by spaces |
| GitLogFormat.StatLineFields | src/git_log_parsing.py:44 | A numstat line splits back into its two count texts (or `-`, `-`) and its path |
| GitLogFormat.StatLineRow | src/git_log_parsing.py:44-58 | A numstat line reads back as the row it stands for; `-` counts read as 0 |
| GitLogFormat.StatLinesRows | src/git_log_parsing.py:42-60 | A commit's numstat lines read back as its rows, in order |
| GitLogFormat.BlockLinesPlain | src/git_log_parsing.py:80 | No line of a printed block holds a newline or the marker |
| GitLogFormat.BlockParses | src/git_log_parsing.py:80-86 | A printed block followed by a newline parses to the commit's fields and its file rows; a header printed alone gives no file row |
| GitLogFormat.NoMarkerInBlock | src/git_log_parsing.py:71 | No marker starts inside a block, nor across the block, the newline after it and the next marker |
| GitLogFormat.PieceNoMarker | src/git_log_parsing.py:71 | The text after each marker holds no marker, nor one that would start before the next marker |
| GitLogFormat.GitOutputSplit | src/git_log_parsing.py:71 | Splitting git's output at the marker gives an empty text, then each commit's text in order |
| GitLogFormat.GitOutputChunks | src/git_log_parsing.py:71-73 | The blocks the parser loops over are exactly the commits' blocks, each closed by a blank line |
| GitLogFormat.PiecesClosed | src/git_log_parsing.py:73 | Adding the newline to the last text makes every block end the same way |
| GitLogFormat.ChunksParse | src/git_log_parsing.py:78-89 | The loop over those blocks yields each commit's fields in log order and its file rows grouped by commit in log order |
| GitLogFormat.FieldRowsTable | src/git_log_parsing.py:91-98 | Four-field rows build the commit table without padding, one commit per row |
| GitLogFormat.HeaderOnlyOutput | src/git_log_parsing.py:71-73 | A commit without numstat lines prints as its header alone, ended by a newline when another commit follows and by nothing when it is the last |
| GitLogFormat.ParseGitOutput | src/git_log_parsing.py:69-98 | Parsing the text git prints for a non-empty history of well-formed commits, merges and empty commits included, gives back exactly its commits and file rows, in order |
| Frames.CommitFilesFrame.constructor | src/git_log_parsing.py:95-98 | The file table holds the four parsed columns and no tags |
| Frames.CommitsFrame.constructor | src/git_log_parsing.py:91-94 | The commit table holds its four columns |
| AnalyticsGitLogParsing.GitLogParser.constructor | git_analytics/git_log_parsing.py:10-12 | Stores the directory path; neither attribute is assigned; no fetch yet |
| AnalyticsGitLogParsing.GitLogParser.ParseLog | git_analytics/git_log_parsing.py:62-91 | Succeeds exactly when `ParseLogSpec` does. Without a marker nothing is assigned. On success both attributes hold the tables. On a later failure both attributes hold the partial lists of the block loop |
| AnalyticsGitLogParsing.GitLogParser.ParseChunksIntoAttrs | git_analytics/git_log_parsing.py:68-82 | Both attributes become lists, left as `ParseChunks` says |
| AnalyticsGitLogParsing.GitLogParser.GetCommitsInfo | git_analytics/git_log_parsing.py:94-99 | An assigned attribute (table or partial list) is returned without fetching. Otherwise there is one fetch and parse. Afterwards the attribute holds the table, the partial list, or nothing when there was no marker |
| AnalyticsGitLogParsing.GitLogParser.GetCommitsFilesInfo | git_analytics/git_log_parsing.py:101-107 | The same rule for the file attribute |
| AnalyticsGitLogParsing.RetryAfterFailedParse | git_analytics/git_log_parsing.py:68-99 | After a parse that fails inside the block loop, the next call returns the partial commit list and fetches nothing |
| AnalyticsGitLogParsing.RetryAfterMissingMarker | git_analytics/git_log_parsing.py:64-107 | A log without a marker assigns nothing, so the next call fetches and parses again |
| FileRenaming.RunEnd | src/data_preparation.py:94 | A greedy run of the character class stays inside the path |
| FileRenaming.RunEndIsRun | src/data_preparation.py:94 | The run holds only class characters and stops at the first other character or the end |
| FileRenaming.RunEndAt | src/data_preparation.py:94 | A stretch of class characters followed by another character or the end is exactly the run |
| FileRenaming.ArrowMatched | src/data_preparation.py:94-106 | A path holding ` => ` at or after the start position has a regex match |
| FileRenaming.ContainsArrow | src/data_preparation.py:96-106 | Every row the filter selects yields extracted groups |
| FileRenaming.BracelessGroups | src/data_preparation.py:94-107 | `a => b` (no braces) gives prefix `a`, an empty old part and new part `b` |
| FileRenaming.BracedMatch | src/data_preparation.py:94-107 | A path laid out as prefix, `{`, old, arrow, new, `}`, suffix, whose runs end at those marks, gives those four parts |
| FileRenaming.BracedGroups | src/data_preparation.py:94-107 | `p{o => n}x` gives its four parts as prefix, old, new and suffix |
| FileRenaming.RootFiles | src/data_preparation.py:52-59 | As written: an empty old part with a prefix free of `/` moves the prefix into the old part; any other row is unchanged |
| FileRenaming.RootFilesFixed | src/data_preparation.py:52-59 | Corrected: the brace-less form always moves its prefix into the old part; the braced form follows the written rule |
| FileRenaming.HandleRootFiles | src/data_preparation.py:52-59 | Every row of the mapping table is rewritten in place by the root-file rule as written, which moves the prefix into an empty old part only when the prefix holds no `/` |
| FileRenaming.WholePaths | src/data_preparation.py:113-120 | A match whose old part is the whole old path gives that old path and new path |
| FileRenaming.BracelessRename | src/data_preparation.py:111-120 | Under the corrected root-file rule, a brace-less `a => b` maps `a` to `b` wherever `a` lies |
| FileRenaming.BracelessRenameAsWritten | src/data_preparation.py:52-59 | As written, a brace-less `a => b` whose `a` holds a `/` gets new path `a` followed by `b`, which differs from the intended `b` |
| FileRenaming.RootFileRename | src/data_preparation.py:52-59 | For a root file `a => b` the rule as written, which the pipeline uses, and the corrected rule both give the pair (a, b) |
| FileRenaming.BracedRename | src/data_preparation.py:113-120 | A braced rename with a non-empty old part, or a prefix holding `/`, gives the old path prefix+old+suffix and the new path prefix+new+suffix, each with `//` collapsed, under both rules |
| FileRenaming.ReplaceSlashFree | src/data_preparation.py:116-117 | Collapsing `//` leaves a leading text without `/` as it is |
| FileRenaming.CollapseLeading | src/data_preparation.py:116-117 | A leading `//` becomes one `/` and the rest is collapsed in turn |
| FileRenaming.CollapseSingle | src/data_preparation.py:116-117 | A single `/` not followed by another is kept |
| FileRenaming.CollapseEmptyPart | src/data_preparation.py:116 | The old side `d/` + empty + `/f` collapses to `d/f` |
| FileRenaming.CollapseNothing | src/data_preparation.py:117 | The new side `d/m/f` has nothing to collapse |
| FileRenaming.InsertedDirectory | src/data_preparation.py:113-120 | Under the rule as written, `d/{ => m}/f` maps `d/f` to `d/m/f` |
| FileRenaming.RenameRows | src/data_preparation.py:96-103 | The selected rows are exactly the rows holding ` => `, in increasing row order |
| FileRenaming.Scatter | src/data_preparation.py:64 | Each listed row takes its value and every other row keeps its path |
| FileRenaming.SetNewFilePathOnUpdate | src/data_preparation.py:62-66 | In place: each rename row holds its new path, every other row keeps its path, the row count is unchanged |
| FileRenaming.Updates | src/data_preparation.py:101-120 | One (old, new) pair per rename row, built under the root-file rule as written |
| FileRenaming.PathMappingTable | src/data_preparation.py:101-120 | The regex groups of every rename row, with the root-file rule as written applied in place and the paths rebuilt, are the pairs of the rename rows |
| FileRenaming.MappingTableUpdates | src/data_preparation.py:111-120 | Once the root-file rule as written has run on the regex groups of every rename row, rebuilding the paths gives the rename rows' pairs |
| FileRenaming.DropDuplicatesSpec | src/data_preparation.py:73 | The deduplicated table holds the same pairs, each once |
| FileRenaming.TargetsSpec | src/data_preparation.py:74-79 | The join partners of a path are exactly the new paths of the pairs that leave it |
| FileRenaming.MergeRowSpec | src/data_preparation.py:74-82 | A pair keeps its old path. It stays whole when no pair leaves its new path. Otherwise it is redirected to the new path of a pair that leaves it |
| FileRenaming.MappingKeys | src/data_preparation.py:87-89 | The dictionary's keys are exactly the old paths of the table |
| FileRenaming.MappingLastWins | src/data_preparation.py:87-89 | For a repeated old path the last pair wins |
| FileRenaming.MappingAgreed | src/data_preparation.py:87-89 | An old path whose pairs all agree maps to that new path |
| FileRenaming.SingleRenameResolved | src/data_preparation.py:69-89 | A path renamed once to a path that is never renamed maps to that path |
| FileRenaming.ChainStep | src/data_preparation.py:69-89 | A pair whose new path is renamed again is redirected to that second new path |
| FileRenaming.ResolvedKeys | src/data_preparation.py:69-89 | The resolved dictionary has an entry for each old path and no other |
| FileRenaming.ChainOfTwo | test/test_utilities.py:50-70 | A v0 to v1 to v2 history, in any order and with repeats, maps both v0 and v1 to v2 |
| FileRenaming.KeysOfTwo | src/data_preparation.py:87-89 | The dictionary of that history has exactly the keys v0 and v1 |
| FileRenaming.ChainOfThree | src/data_preparation.py:69-84 | A longer history is followed one step only: v0 ends at v2, not at v3 |
| FileRenaming.ReplaceValues | src/data_preparation.py:127 | Each path equal to a key becomes its value; the others are unchanged; the length is kept |
| FileRenaming.UpdatedRows | src/data_preparation.py:122 | After the update, a rename row holds its new path under the rule as written, and every other row its own path |
| FileRenaming.HandleFileRenaming | src/data_preparation.py:92-129 | Without a rename row the table is unchanged. Otherwise each rename row ends as the resolved target of its new path under the root-file rule as written, and every other row as the resolved target of its own path. The row count and the other columns are untouched |
| DataPreparation.ApplyAuthorNmMerging | src/data_preparation.py:13-29 | A missing file leaves the commits as they are; an invalid file is an error. Otherwise exactly the author cells equal to a key are replaced by its value and every other cell is kept |
| DataPreparation.MergedAuthorIdempotent | src/data_preparation.py:27 | When no value is itself a key, applying the mapping twice is applying it once |
| DataPreparation.TagCommitFiles | src/data_preparation.py:32-49 | Extension, then source flag, then the component (only with names), then the module. Each column holds the per-path rule of its step on source rows, and a non-source row keeps what an existing column held. The component column is untouched without names. A step fails when it cannot select its segment column: names without a depth, or no source row with a segment at the step's depth. Its column and the later ones are then left as they were, with ext and is_src written |
| DataPreparation.CodeLines | src/data_preparation.py:139-143 | The raw count where the extension is recognised, 0 where it is `other` |
| DataPreparation.ComputeNCodeLines | src/data_preparation.py:132-145 | In place, the inserted and deleted code-line columns are that rule applied to the raw counts and the extension tags |
| DataPreparation.CodeLinesTotal | src/data_preparation.py:132-145 | The code lines never exceed the raw lines, and equal them when every extension is recognised |
| DataPreparation.FirstIndex | src/data_preparation.py:152-157 | A commit carrying the id, or none exactly when no commit carries it |
| DataPreparation.ColumnOf | src/data_preparation.py:153 | A commit column the join copies, one cell per commit |
| DataPreparation.JoinedCells | src/data_preparation.py:152-157 | One joined cell per requested column |
| DataPreparation.Denormalize | src/data_preparation.py:148-160 | Fails exactly when a commit id repeats. Otherwise it keeps every file row in order and copies the columns of the commit with the same id, or missing cells when there is none |
| PathTagging.LangsHaveNoDot | src/commit_files_tagging.py:5 | No recognised language name holds a dot |
| PathTagging.DotBeforeExt | src/commit_files_tagging.py:30-31 | The dot of a recognised extension is the last dot of the path |
| PathTagging.ExtUnique | src/commit_files_tagging.py:30-31 | Two recognised extensions never end the same path |
| PathTagging.FindLang | src/commit_files_tagging.py:30-31 | A language found ends the path after a dot; when none is found, no language does |
| PathTagging.ExtOf | src/commit_files_tagging.py:28-34 | The tag is `other` or a recognised language, never missing |
| PathTagging.ExtOfIff | src/commit_files_tagging.py:28-34 | A language is the tag exactly when the path ends with `.` and that language |
| PathTagging.ExtOfOther | src/commit_files_tagging.py:28-34 | `other` is the tag exactly when no language ends the path |
| PathTagging.StripLangExt | src/commit_files_tagging.py:96 | One recognised extension is removed; a segment without one is unchanged |
| PathTagging.StripLangExtRoundTrip | src/commit_files_tagging.py:96 | Removing the extension undoes appending it |
| PathTagging.StripRootMarker | src/commit_files_tagging.py:39 | At most one leading `./` or `/` is removed |
| PathTagging.StripRootMarkerOnce | src/commit_files_tagging.py:39 | `./p` and `/p` give `p`, and a path without either is unchanged |
| PathTagging.SrcPathSpellings | git_analytics/commit_files_tagging.py:38-45 | `./src`, `/src` and `src` select the same files: those starting with `src` |
| PathTagging.SrcVersionsAgree | src/commit_files_tagging.py:36-48 | The two source tests agree except on a source path of `.`, which the `src/` version takes as every file |
| PathTagging.Segment | src/commit_files_tagging.py:64-65 | The segment at a depth exists exactly when the path has that many segments, and holds no `/` |
| PathTagging.SegmentColumnIffSourceRow | src/commit_files_tagging.py:61-65 | The split of the source rows has a column at a depth exactly when some source row has a segment there. Other rows do not count, and without a source row there is no column |
| PathTagging.Alternatives | src/commit_files_tagging.py:51-53 | The alternatives of the joined names: the names themselves, or the empty alternative for no names |
| PathTagging.MatchAt | src/commit_files_tagging.py:66 | The first alternative in list order that starts the text, or none when none does |
| PathTagging.Search | src/commit_files_tagging.py:66 | The leftmost position where an alternative matches, with the first matching alternative there; none when no alternative matches anywhere |
| PathTagging.SearchSkip | src/commit_files_tagging.py:66 | Positions where nothing matches are passed over |
| PathTagging.SearchPastPrefix | src/commit_files_tagging.py:66 | A prefix none of whose characters starts a name is passed over |
| PathTagging.ComponentOf | src/commit_files_tagging.py:61-70 | A missing segment gives `other`; with names configured the tag is `other` or one of the names |
| PathTagging.ComponentOfAbsent | src/commit_files_tagging.py:61-70 | When no configured name occurs in the segment, the tag is `other` |
| PathTagging.ComponentOfFound | src/commit_files_tagging.py:61-70 | When some name occurs, the tag is the name occurring leftmost, the first in list order at that position |
| PathTagging.NonEmpty | src/commit_files_tagging.py:81 | Exactly the non-empty alternatives: each kept one is an alternative, and none is dropped |
| PathTagging.NonEmptyAll | src/commit_files_tagging.py:81 | Without empty names nothing is filtered from the alternatives |
| PathTagging.RemoveNames | src/commit_files_tagging.py:81 | Removing the names never lengthens the text |
| PathTagging.RemoveNamesAbsent | src/commit_files_tagging.py:81 | A text in which no name occurs is unchanged |
| PathTagging.KeepsFirst | src/commit_files_tagging.py:81 | A first character that starts no name is kept, and the scan goes on after it |
| PathTagging.RemoveNamesPastPrefix | src/commit_files_tagging.py:81 | A prefix none of whose characters starts a name is kept as it is |
| PathTagging.RemoveNamesSingle | src/commit_files_tagging.py:81 | With a single name the removal is `str.replace(name, '')` |
| PathTagging.StripTrailingSep | src/commit_files_tagging.py:82 | One trailing `.`, `_` or `-` is removed; any other text is unchanged |
| PathTagging.ModuleOf | src/commit_files_tagging.py:89-101 | A module exists exactly when the segment does. Unaligned, it is the segment without its extension |
| PathTagging.LowerModuleOf | git_analytics/commit_files_tagging.py:70-94 | A module exists exactly when the segment does. Unaligned, it is the lowercased segment without its extension |
| PathTagging.LowerComponentOf | git_analytics/commit_files_tagging.py:51-68 | A missing segment gives `other`; with names configured the tag is `other` or one of the names |
| CommitFilesTagging.CommitFilesTagger.constructor | src/commit_files_tagging.py:7-26 | Stores the source path, the depths and the optional component names |
| CommitFilesTagging.CommitFilesTagger.TagFileExt | src/commit_files_tagging.py:28-34 | In place, every row's `ext` is its extension tag |
| CommitFilesTagging.CommitFilesTagger.TagSrcFile | src/commit_files_tagging.py:36-48 | In place, every row's `is_src` is the source test, with the `.` special case |
| CommitFilesTagging.CommitFilesTagger.TagComponent | src/commit_files_tagging.py:56-72 | In place: a source row gets the component of its segment. Any other row keeps the column's old value, or gets `other` when the column is new. It fails with the column unchanged without a depth (`MissingComponentDepth`), or when no source row has a segment at the depth (`NoSegmentColumn`) |
| CommitFilesTagging.CommitFilesTagger.RemoveComponentNmFromModuleNm | src/commit_files_tagging.py:75-86 | In place: source rows with a module lose every component name, then one trailing separator; all other rows are unchanged |
| CommitFilesTagging.CommitFilesTagger.TagModule | src/commit_files_tagging.py:89-103 | In place: a source row gets the module of its segment (names removed when aligned). Any other row keeps the column's old value, or gets none when the column is new. It fails with the column unchanged when no source row has a segment at the module depth |
| AnalyticsCommitFilesTagging.CommitFilesTagger.constructor | git_analytics/commit_files_tagging.py:7-30 | Owns the given table and stores the configuration |
| AnalyticsCommitFilesTagging.CommitFilesTagger.TagFileExt | git_analytics/commit_files_tagging.py:32-36 | Every row's `ext` is its extension tag |
| AnalyticsCommitFilesTagging.CommitFilesTagger.TagType | git_analytics/commit_files_tagging.py:38-45 | Every row's `is_src` is the prefix test, with no `.` special case |
| AnalyticsCommitFilesTagging.CommitFilesTagger.TagComponent | git_analytics/commit_files_tagging.py:51-68 | A source row's component is the rule on its lowercased segment. Any other row keeps the column's old value, or gets `other` when the column is new. It fails with the column unchanged without a depth, or when no source row has a segment at the depth |
| AnalyticsCommitFilesTagging.CommitFilesTagger.TagModule | git_analytics/commit_files_tagging.py:70-94 | A source row's module is the rule on its lowercased segment. Any other row keeps the column's old value, or gets none when the column is new. It fails with the column unchanged when no source row has a segment at the module depth |
| AnalyticsCommitFilesTagging.CommitFilesTagger.Tag | git_analytics/commit_files_tagging.py:96-104 | Runs ext, type, component (only with names) and module, leaving every column as its rule says. It fails at the first step that cannot select its segment column, after ext and type, with that step's column and the later ones unchanged |
| AnalyticsCommitFilesTagging.CommitFilesTagger.GetTaggedFiles | git_analytics/commit_files_tagging.py:108-115 | A table that already has a module column is returned untouched. Otherwise it is tagged, or the tagging error is returned and the table still has no module column |
| AnalyticsCommitFilesTagging.TaggedFilesTwice | git_analytics/commit_files_tagging.py:108-115 | Asking twice gives the same answer: the module column the first tagging computed, or the same error both times. The error comes exactly when a step cannot select its segment column |
| AnalyticsTaggingExamples.TestViewPath | test/test_commit_files_tagging.py:23-34 | `src/test_view.php` is a `php` file under `./src` whose second segment is `test_view.php` |
| AnalyticsTaggingExamples.SearchTestView | git_analytics/commit_files_tagging.py:64 | In `test_view.php` the names view, control, model first match `view`, at position 5 |
| AnalyticsTaggingExamples.TestViewComponent | test/test_commit_files_tagging.py:23-34 | With names view, control, model at depth 1, the component of `src/test_view.php` is `view` |
| AnalyticsTaggingExamples.RemoveView | git_analytics/commit_files_tagging.py:91 | Removing the names from `view` leaves nothing |
| AnalyticsTaggingExamples.TestViewWithoutComponent | git_analytics/commit_files_tagging.py:91 | Removing the names from `test_view` leaves `test_` |
| AnalyticsTaggingExamples.TrailingUnderscore | git_analytics/commit_files_tagging.py:92 | `test_` loses its trailing `_` |
| AnalyticsTaggingExamples.TestViewModule | test/test_commit_files_tagging.py:31-33 | With aligned depths, the module of `src/test_view.php` is `test` |
| AnalyticsTaggingExamples.ContactModule | test/test_commit_files_tagging.py:44-55 | Without components and at depth 1, the module of `src/contact.php` is `contact` |
| AuthorGrouping.Pos | scripts/find_similar_author_nm.py:15 | A position of the input where the name stands |
| AuthorGrouping.ComputeAuthorNmMapping | scripts/find_similar_author_nm.py:11-36 | Every key is an input name with at least one alias. Every alias is an input name that is not a key. Every alias is strictly more similar than the threshold to its key and is first met after it. No alias list repeats a name, and no name is in two lists. Every name is either taken in by an earlier key or has taken in every similar unprocessed name |
| AuthorGrouping.TakeInSimilar | scripts/find_similar_author_nm.py:20-31 | The new key lists exactly the distinct similar names not yet processed, and those names and the key become processed |
| AuthorGrouping.SkipProcessed | scripts/find_similar_author_nm.py:17-18 | Skipping a processed name keeps the grouping invariant |
| AuthorGrouping.StepGrouping | scripts/find_similar_author_nm.py:15-34 | Processing a new name (and deleting its entry when it has no alias) keeps the grouping invariant |
| AuthorGrouping.StepDisjoint | scripts/find_similar_author_nm.py:25-31 | A new key's aliases are not in any other list |
| AuthorGrouping.StepAliases | scripts/find_similar_author_nm.py:25-31 | Every alias stays an input name, similar to its key, met after it and not a key |
| AuthorGrouping.StepAbsorb | scripts/find_similar_author_nm.py:15-31 | Every name met so far has been taken in or has absorbed its similar names |
| AuthorGrouping.StepProcessed | scripts/find_similar_author_nm.py:17-31 | A processed name was met earlier or is an alias |
| FigGeneration.ConceptNames | src/fig_generation.py:11-17 | Concept names and concepts correspond one to one; any other name is the table's `KeyError` |
| FigGeneration.SuiteShape | src/fig_generation.py:11-17 | Every suite holds `agg` exactly once, and every other name is in the argument table or is `T` |
| FigGeneration.SuitePlaceholder | src/fig_generation.py:11-17 | Every suite holds `agg` exactly once |
| FigGeneration.SuiteOperations | src/fig_generation.py:11-32 | Every name of a suite is in the argument table or is `T` |
| FigGeneration.ListedOperations | src/fig_generation.py:19-32 | The operations the suites use all have a row in the argument table |
| FigGeneration.IndexOf | src/fig_generation.py:62 | The first position of the name |
| FigGeneration.Insert | src/fig_generation.py:63-64 | One longer: the value at the given position, the entries before it in place, the entries after it one place further |
| FigGeneration.Pop | src/fig_generation.py:65 | One shorter: the entries before the position in place, the entries after it one place nearer |
| FigGeneration.FilledShape | src/fig_generation.py:60-65 | For a suite holding `agg` once, the result is one longer. `mesure` then `aggfunc` stand where `agg` stood. Entries before it are kept, entries after it shift by one, and no `agg` remains |
| FigGeneration.FilledSuiteShape | src/fig_generation.py:57-65 | The same for each concept's suite |
| FigGeneration.EvolutionExample | src/fig_generation.py:13 | The evolution suite counting ids becomes resample, id, count, reset_index |
| FigGeneration.DimSizeBounds | src/fig_generation.py:184-186 | The dimension size is at least 200 and never shrinks as ticks are added |
| FigGeneration.DimSizeExamples | src/fig_generation.py:184-186 | With the default font, no ticks give 200, one tick 223, 13 ticks 500 |
| FigGeneration.Transformer.constructor | src/fig_generation.py:38-58 | Stores the arguments, and the operations are a copy of the concept's suite with the placeholder filled |
| FigGeneration.Transformer.FillAggPlaceholderOperation | src/fig_generation.py:60-65 | In place: the list becomes the filled suite of what it was |
| FigGeneration.Transformer.GetOperationArg | src/fig_generation.py:67-74 | Fails (`KeyError`) exactly for names outside the argument table |
| FigGeneration.Transformer.OperationArgTable | src/fig_generation.py:19-36 | groupby reads entity, resample freq, agg the measure, unstack the level, normalize the axis, round 2, replace the zero-to-missing map; the others take no argument |
| FigGeneration.Transformer.GetOperationResult | src/fig_generation.py:76-93 | An unlisted name is attribute access. A listed name with a method is a call, with an argument exactly when it has one. A missing `normalize` is the custom division on the axis. Any other missing method is `UnknownOperation` with its message |
| FigGeneration.Transformer.SuiteDispatch | src/fig_generation.py:76-100 | In a filled suite, only `T`, the measure and the aggregation are attribute reads, and no step is unsupported when the table methods exist |
| FigGeneration.FigGenerator.constructor | src/fig_generation.py:144-171 | The transformer part with every argument passed through (concept, mesure, entity, normalize axis, aggfunc, freq, unstack level, and the filled suite), the titles, the concept's argument structure and the time column `creation_dt` |
| FigGeneration.FigGenerator.FigArgValue | src/fig_generation.py:176-180 | A `$`-prefixed entry is the literal without `$`; any other entry is the attribute of that name |
| FigGeneration.FigGenerator.GetFigArg | src/fig_generation.py:173-182 | Succeeds exactly when every entry resolves, with the structure's keys each bound to its entry's value |
| FigGeneration.FigGenerator.NamedValues | src/fig_generation.py:113-119 | `title`, `time`, `mesure`, `entity` and `$h` resolve to the title, the time column, the measure, the entity and `h` |
| FigGeneration.FigGenerator.FigArgResolves | src/fig_generation.py:113-119 | Every structure resolves; the size chart is horizontal with the measure on x and the entity on y |
| AnalyticsFigGeneration.Transformer.constructor | git_analytics/fig_generation.py:75-95 | Stores the `_`-prefixed arguments, and the operations are the concept's suite with the placeholder filled |
| AnalyticsFigGeneration.Transformer.FillAggPlaceholderOperation | git_analytics/fig_generation.py:97-102 | In place: the list becomes the filled suite of what it was |
| AnalyticsFigGeneration.Transformer.PrefixedAttribute | git_analytics/fig_generation.py:108 | The attribute `_` + name is the field of that name |
| AnalyticsFigGeneration.Transformer.GetOperationArg | git_analytics/fig_generation.py:104-111 | Fails (`KeyError`) exactly for names outside the argument table |
| AnalyticsFigGeneration.Transformer.OperationArgFromPrefixed | git_analytics/fig_generation.py:104-111 | Every listed operation reads the `_`-prefixed attribute its row names |
| AnalyticsFigGeneration.Transformer.OperationArgTable | git_analytics/fig_generation.py:21-34 | The argument table row by row, read through the prefixed attributes |
| AnalyticsFigGeneration.Transformer.GetOperationResult | git_analytics/fig_generation.py:113-129 | The same dispatch classification, over this transformer's arguments |
| AnalyticsFigGeneration.FigGenerator.constructor | git_analytics/fig_generation.py:141-160 | The time column, the concept's structure without title, then the transformer part with every argument passed through (concept, mesure, entity, normalize axis, aggfunc, freq, unstack level, and the filled suite) |
| AnalyticsFigGeneration.FigGenerator.FigArgValue | git_analytics/fig_generation.py:166-171 | A `$`-prefixed entry is the literal without `$`; any other entry `v` is the attribute `_v` |
| AnalyticsFigGeneration.FigGenerator.GetFigArg | git_analytics/fig_generation.py:162-173 | Succeeds exactly when every entry resolves, with the structure's keys each bound to its value |
| AnalyticsFigGeneration.FigGenerator.NamedValues | git_analytics/fig_generation.py:5-11 | `time`, `mesure`, `entity` and `$h` resolve through the `_` attributes |
| AnalyticsFigGeneration.FigGenerator.FigArgResolves | git_analytics/fig_generation.py:5-11 | Every structure resolves; the heat maps take no figure argument; the size chart is horizontal |
| Text.ParseNatToString | src/git_log_parsing.py:50-51 | `int` reads a printed natural number back as that number |

## Left out

- Running `git` through `subprocess` and raising `OSError` on a non-zero exit are not modelled. The git text is a parameter of each getter, and a counter records how often it would be fetched.
- CSV and parquet reads and writes, `prepare_data`/`main` orchestration, configuration loading and command chaining are not modelled.
- `cast_to_ref_types` (pandas dtype coercion and date parsing) is not modelled.
- JSON loading in `apply_author_nm_merging` is not modelled. The loaded result is a parameter: a missing file, invalid JSON, or a mapping.
- The author-grouping script writes key to alias-list, while `apply_author_nm_merging` applies the loaded object directly. The model keeps the two mappings separate and claims nothing about how they fit together.
- `fuzz.ratio` is an arbitrary integer-valued function. No property of it is assumed.
- Plotting and layout are not modelled: the Plotly figures, `__get_layout_arg`, `__update_axis_titles`, `get_fig`, and the pandas operations run by `get_transformed`. The normalize division and the dashboards are not modelled either. Only the dispatch classification of each operation is.
- The `git_analytics/fig_generation.py` `__get_dim_size` uses float division and is not modelled.
- `git_analytics/data_preparation.py` only calls helpers of a utilities module that is not part of this model.
- `set_new_file_path_on_update` assigns by index label. The model takes the table's labels to be its row positions (the default index the parser produces).
- Selecting a segment column that the split of the source rows lacks raises `IndexError` in pandas. The model returns the error value `NoSegmentColumn` instead, and the tagging stops there as it does at the exception.
- Python `str` is a sequence of characters. Case folding is ASCII only, which is what the recognised names and paths use.
- The four-commit sample of the parser test is covered by the general round trip `GitLogFormat.ParseGitOutput`, not as a literal.
- GitLogFormat.ParseGitOutput: holds only for well-formed commits (`WellFormed`). The id, date, author and every path hold no tab and no newline, the subject holds no newline, and none of them holds `+++`. The source splits other text differently, and the model claims nothing about it.
- GitLogParsing.CommitInfo: states only the field count. The field contents are stated by `GitLogFormat.HeaderFields` for headers in the printed format.
- PathTagging.LowerModuleOf: its aligned value is not stated by its own contract. `AnalyticsTaggingExamples` states it on the test paths.
- PathTagging.ComponentOf: its own contract does not say which name is found. The found and not-found cases are the lemmas `ComponentOfFound` and `ComponentOfAbsent`.
- PathTagging.LowerComponentOf: its own contract does not say which name is found. That is `ComponentOf` on the lowercased segment.
- DataPreparation.JoinedCells: states only the width. The values are stated by `Denormalize`.
- GitLogParsing.InvalidCountFails: `Text.ParseInt` reads only an optional sign followed by ASCII digits, which is how git prints a count. Python's `int` also accepts surrounding whitespace, `_` between digits and non-ASCII decimal digits. For such a field the model reports `InvalidCount` where the source reads a number.
- Text.ParseInt: the same narrowing of `int`, for the same reason.
- PathTagging.Alternatives: the component names are joined into a regular expression. The model matches each name as literal text. A configured name holding a regex metacharacter (`.`, `*`, `+`, `(`, `[` and the like) is not modelled, and neither is a name that is not a valid pattern. This applies to `ComponentOf`, `LowerComponentOf`, `RemoveNames` and the aligned module rule.

## Findings

| source | as written | input that shows it | evidently intended | confidence | as-written member | corrected member |
|---|---|---|---|---|---|---|
| src/data_preparation.py:52-59 | The root-file rule applies only when the prefix holds no `/`. A brace-less `old => new` whose old path lies in a directory keeps that path as the prefix, and the prefix is put in front of the new path too | `src/app.py => app.py`, which git prints when the two paths share no directory. The new path becomes `src/app.pyapp.py` | A brace-less rename maps its whole old path to its whole new path | not executed | FileRenaming.BracelessRenameAsWritten | FileRenaming.BracelessRename |

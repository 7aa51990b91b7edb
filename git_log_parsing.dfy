/** Parsing of `git log --numstat --pretty=format:+++%H\t%ad\t%an\t%s` output into a
    commit table and a commit-file table.  The pure functions below are the meaning of
    the parse; the class GitLogParser is the parser object of src/git_log_parsing.py,
    which memoises its two tables.  Running git is left out: the text git prints is a
    parameter of the getters. */
module GitLogParsing {
  import opened Wrappers
  import opened Text

  /** The marker the pretty format writes before every commit header. */
  const Marker: string := "+++"

  /** One row of the commit-file table: commit_id, file_nm, n_lines_inserted, n_lines_deleted. */
  datatype FileRow = FileRow(commitId: string, fileNm: string, nLinesInserted: int, nLinesDeleted: int)

  /** One row of the commit table: id, creation_dt, author_nm, msg.  A header with fewer
      than four fields leaves the missing cells empty (None), as pandas pads ragged rows. */
  datatype Commit = Commit(id: string, creationDt: Option<string>, authorNm: Option<string>, msg: Option<string>)

  datatype ParsedLog = ParsedLog(commits: seq<Commit>, files: seq<FileRow>)

  /** The ways the Python parse raises. */
  datatype ParseError =
    | NoCommitMarker              // `log[-1]` on an empty list: IndexError
    | MissingStatField(line: string) // a stat line with too few tab-separated fields: IndexError
    | InvalidCount(text: string)  // a count that is not `-` and not a plain decimal integer (Text.ParseInt)
    | ColumnCountMismatch(width: nat) // the widest header row does not have four columns

  /** The per-commit blocks: the text after each marker, the last one given a trailing
      newline so that it ends like the others. */
  function Chunks(log: string): Result<seq<string>, ParseError>
  {
    var pieces := Split(log, Marker)[1..];
    if |pieces| == 0 then Err(NoCommitMarker)
    else Ok(pieces[..|pieces| - 1] + [pieces[|pieces| - 1] + "\n"])
  }

  /** A log that starts with a marker: one block per marker. */
  lemma ChunksOfPieces(log: string, pieces: seq<string>)
    requires |pieces| > 0 && Split(log, Marker) == [""] + pieces
    ensures Chunks(log) == Ok(pieces[..|pieces| - 1] + [pieces[|pieces| - 1] + "\n"])
  {
    assert Split(log, Marker)[1..] == pieces;
  }

  /** A header split into more than four fields had tabs in its subject line: the subject
      fields are joined back with single spaces. */
  function HandleTabInCommitMsg(fields: seq<string>): (r: seq<string>)
    requires |fields| > 4
    ensures |r| == 4 && r[..3] == fields[..3]
    ensures r[3] == Join(fields[3..], " ")
  {
    fields[..3] + [Join(fields[3..], " ")]
  }

  /** The header fields of a block: its first line split on tabs. */
  function CommitInfo(header: string): (r: seq<string>)
    ensures 1 <= |r| <= 4
  {
    var fields := Split(header, "\t");
    if |fields| > 4 then HandleTabInCommitMsg(fields) else fields
  }

  /** Python's `lines[:-2]`. */
  function DropLastTwo<T>(lines: seq<T>): (r: seq<T>)
    ensures |lines| >= 2 ==> lines == r + lines[|lines| - 2..]
    ensures |lines| < 2 ==> r == []
  {
    if |lines| >= 2 then lines[..|lines| - 2] else []
  }

  function ParseCount(text: string): Result<int, ParseError>
  {
    match ParseInt(text)
    case Some(n) => Ok(n)
    case None => Err(InvalidCount(text))
  }

  /** One numstat line `inserted\tdeleted\tpath`; a binary file shows `-` for its counts,
      which become 0.  Fields are read in the order Python reads them, so the first
      failing read decides the error. */
  function FileInfo(commitId: string, line: string): Result<FileRow, ParseError>
  {
    var f := Split(line, "\t");
    if f[0] == "-" then
      if |f| < 3 then Err(MissingStatField(line)) else Ok(FileRow(commitId, f[2], 0, 0))
    else
      var inserted :- ParseCount(f[0]);
      if |f| < 2 then Err(MissingStatField(line))
      else
        var deleted :- ParseCount(f[1]);
        if |f| < 3 then Err(MissingStatField(line))
        else Ok(FileRow(commitId, f[2], inserted, deleted))
  }

  /** The rows of a sequence of stat lines, or the error of the first line that fails. */
  function FilesInfo(commitId: string, lines: seq<string>): (r: Result<seq<FileRow>, ParseError>)
    ensures r.Ok? ==> |r.value| == |lines|
    ensures r.Ok? ==> forall row <- r.value :: row.commitId == commitId
    decreases |lines|
  {
    if |lines| == 0 then Ok([])
    else
      var init :- FilesInfo(commitId, lines[..|lines| - 1]);
      var row :- FileInfo(commitId, lines[|lines| - 1]);
      Ok(init + [row])
  }

  /** One block: the header fields and the file rows of its stat lines.  The last two
      lines of a block are the empty strings its two closing newlines leave. */
  function ParseChunk(chunk: string): Result<(seq<string>, seq<FileRow>), ParseError>
  {
    var lines := Split(chunk, "\n");
    var info := CommitInfo(lines[0]);
    var files :- FilesInfo(info[0], DropLastTwo(lines[1..]));
    Ok((info, files))
  }

  /** What the parse loop has built: the header rows and file rows of the blocks parsed
      so far, and the error that stopped it, if any. */
  datatype Progress = Progress(commits: seq<seq<string>>, files: seq<FileRow>, error: Option<ParseError>)

  /** The loop over the blocks, as the state it leaves: blocks are processed in order and
      the first failing block stops the loop, keeping the rows of the earlier ones. */
  function ParseChunks(chunks: seq<string>): (p: Progress)
    ensures p.error.None? ==> |p.commits| == |chunks|
    ensures forall row <- p.commits :: 1 <= |row| <= 4
    decreases |chunks|
  {
    if |chunks| == 0 then Progress([], [], None)
    else
      var p := ParseChunks(chunks[..|chunks| - 1]);
      if p.error.Some? then p
      else
        match ParseChunk(chunks[|chunks| - 1])
        case Err(e) => p.(error := Some(e))
        case Ok((info, files)) => Progress(p.commits + [info], p.files + files, None)
  }

  /** Some header row starts with `id`. */
  predicate References(commits: seq<seq<string>>, id: string)
  {
    exists k :: 0 <= k < |commits| && |commits[k]| > 0 && commits[k][0] == id
  }

  lemma ReferencesKept(commits: seq<seq<string>>, info: seq<string>, id: string)
    ensures References(commits, id) ==> References(commits + [info], id)
  {
    if References(commits, id) {
      var k :| 0 <= k < |commits| && |commits[k]| > 0 && commits[k][0] == id;
      assert (commits + [info])[k] == commits[k];
    }
  }

  lemma ReferencesLast(commits: seq<seq<string>>, info: seq<string>)
    requires |info| > 0
    ensures References(commits + [info], info[0])
  {
    assert (commits + [info])[|commits|] == info;
  }

  /** The file rows of a block carry the id of its header. */
  lemma ChunkFilesOwned(chunk: string)
    requires ParseChunk(chunk).Ok?
    ensures |ParseChunk(chunk).value.0| > 0
    ensures forall f <- ParseChunk(chunk).value.1 :: f.commitId == ParseChunk(chunk).value.0[0]
  {
  }

  /** Every file row produced belongs to a commit row produced before it or with it. */
  lemma {:induction false} FilesReferenceCommits(chunks: seq<string>)
    ensures var p := ParseChunks(chunks);
            forall f <- p.files :: References(p.commits, f.commitId)
    decreases |chunks|
  {
    if |chunks| > 0 {
      var init := chunks[..|chunks| - 1];
      var p := ParseChunks(init);
      FilesReferenceCommits(init);
      if p.error.None? {
        var last := ParseChunk(chunks[|chunks| - 1]);
        if last.Ok? {
          var (info, files) := last.value;
          ChunkFilesOwned(chunks[|chunks| - 1]);
          forall f <- p.files + files ensures References(p.commits + [info], f.commitId) {
            ReferencesKept(p.commits, info, f.commitId);
            if f !in p.files {
              ReferencesLast(p.commits, info);
            }
          }
        }
      }
    }
  }

  function Cell(row: seq<string>, k: nat): Option<string>
  {
    if k < |row| then Some(row[k]) else None
  }

  function MaxWidth(rows: seq<seq<string>>): (w: nat)
    ensures forall r <- rows :: |r| <= w
    ensures |rows| > 0 ==> exists r <- rows :: |r| == w
  {
    if |rows| == 0 then 0
    else
      var w := MaxWidth(rows[1..]);
      assert forall r <- rows[1..] :: r in rows;
      if |rows[0]| >= w then |rows[0]| else w
  }

  /** `DataFrame(rows, columns=[id, creation_dt, author_nm, msg])`: shorter rows are
      padded with empty cells; it fails unless the widest row has exactly four cells. */
  function CommitTable(rows: seq<seq<string>>): (r: Result<seq<Commit>, ParseError>)
    requires forall row <- rows :: |row| >= 1
    ensures r.Ok? ==> |r.value| == |rows|
  {
    if |rows| > 0 && MaxWidth(rows) != 4 then Err(ColumnCountMismatch(MaxWidth(rows)))
    else Ok(seq(|rows|, i requires 0 <= i < |rows| => Commit(rows[i][0], Cell(rows[i], 1), Cell(rows[i], 2), Cell(rows[i], 3))))
  }

  /** The whole parse of a log text, as the getters observe it. */
  function ParseLogSpec(log: string): Result<ParsedLog, ParseError>
  {
    var chunks :- Chunks(log);
    var p := ParseChunks(chunks);
    if p.error.Some? then Err(p.error.value)
    else
      var commits :- CommitTable(p.commits);
      Ok(ParsedLog(commits, p.files))
  }

  /** Stat lines that each read as a row read, together, as those rows in order. */
  lemma {:induction false} FilesInfoAll(commitId: string, lines: seq<string>, rows: seq<FileRow>)
    requires |lines| == |rows|
    requires forall i | 0 <= i < |lines| :: FileInfo(commitId, lines[i]) == Ok(rows[i])
    ensures FilesInfo(commitId, lines) == Ok(rows)
    decreases |lines|
  {
    if |lines| > 0 {
      var n := |lines| - 1;
      FilesInfoAll(commitId, lines[..n], rows[..n]);
      assert FileInfo(commitId, lines[n]) == Ok(rows[n]);
      assert rows == rows[..n] + [rows[n]];
    }
  }

  /** A failed stat line stays the answer however many lines follow it. */
  lemma {:induction false} FilesInfoSticks(commitId: string, lines: seq<string>, j: nat)
    requires j <= |lines|
    requires FilesInfo(commitId, lines[..j]).Err?
    ensures FilesInfo(commitId, lines) == FilesInfo(commitId, lines[..j])
    decreases |lines|
  {
    if j < |lines| {
      var init := lines[..|lines| - 1];
      assert init[..j] == lines[..j];
      FilesInfoSticks(commitId, init, j);
    } else {
      assert lines[..j] == lines;
    }
  }

  /** A failed block stops the parse: nothing after it changes the state. */
  lemma {:induction false} ParseChunksSticks(chunks: seq<string>, j: nat)
    requires j <= |chunks|
    requires ParseChunks(chunks[..j]).error.Some?
    ensures ParseChunks(chunks) == ParseChunks(chunks[..j])
    decreases |chunks|
  {
    if j < |chunks| {
      var init := chunks[..|chunks| - 1];
      assert init[..j] == chunks[..j];
      ParseChunksSticks(init, j);
    } else {
      assert chunks[..j] == chunks;
    }
  }

  /** One more block: the state after it, given the state before it. */
  lemma ParseChunksStep(chunks: seq<string>, i: nat)
    requires i < |chunks|
    requires ParseChunks(chunks[..i]).error.None?
    ensures var p := ParseChunks(chunks[..i]);
            ParseChunks(chunks[..i + 1]) ==
              match ParseChunk(chunks[i])
              case Err(e) => p.(error := Some(e))
              case Ok((info, files)) => Progress(p.commits + [info], p.files + files, None)
  {
    assert chunks[..i + 1][..i] == chunks[..i];
  }

  /** One more block that parses: its header row and file rows are appended. */
  lemma ParseChunksAppend(chunks: seq<string>, chunk: string, commits: seq<seq<string>>, files: seq<FileRow>,
                          info: seq<string>, more: seq<FileRow>)
    requires ParseChunks(chunks) == Progress(commits, files, None)
    requires ParseChunk(chunk) == Ok((info, more))
    ensures ParseChunks(chunks + [chunk]) == Progress(commits + [info], files + more, None)
  {
    assert (chunks + [chunk])[..|chunks|] == chunks;
  }

  /** The file rows of several blocks, one block's rows after the other's. */
  function Flatten(rows: seq<seq<FileRow>>): seq<FileRow>
  {
    if |rows| == 0 then [] else Flatten(rows[..|rows| - 1]) + rows[|rows| - 1]
  }

  lemma LastSplit<T>(s: seq<T>)
    requires |s| > 0
    ensures s == s[..|s| - 1] + [s[|s| - 1]]
  {
  }

  lemma FlattenLast(rows: seq<seq<FileRow>>)
    requires |rows| > 0
    ensures Flatten(rows) == Flatten(rows[..|rows| - 1]) + rows[|rows| - 1]
  {
  }

  /** Blocks that each parse leave every header row, in order, and their file rows one
      block after the other. */
  lemma {:induction false} ParseChunksAll(chunks: seq<string>, infos: seq<seq<string>>, rows: seq<seq<FileRow>>)
    requires |chunks| == |infos| == |rows|
    requires forall i {:trigger ParseChunk(chunks[i])} | 0 <= i < |chunks| :: ParseChunk(chunks[i]) == Ok((infos[i], rows[i]))
    ensures ParseChunks(chunks) == Progress(infos, Flatten(rows), None)
    decreases |chunks|
  {
    if |chunks| > 0 {
      var n := |chunks| - 1;
      assert ParseChunks(chunks[..n]) == Progress(infos[..n], Flatten(rows[..n]), None) by {
        forall i | 0 <= i < n ensures ParseChunk(chunks[..n][i]) == Ok((infos[..n][i], rows[..n][i])) {
          assert ParseChunk(chunks[i]) == Ok((infos[i], rows[i]));
        }
        ParseChunksAll(chunks[..n], infos[..n], rows[..n]);
      }
      assert ParseChunk(chunks[n]) == Ok((infos[n], rows[n]));
      calc {
        ParseChunks(chunks);
        { LastSplit(chunks); }
        ParseChunks(chunks[..n] + [chunks[n]]);
        { ParseChunksAppend(chunks[..n], chunks[n], infos[..n], Flatten(rows[..n]), infos[n], rows[n]); }
        Progress(infos[..n] + [infos[n]], Flatten(rows[..n]) + rows[n], None);
        { LastSplit(infos); FlattenLast(rows); }
        Progress(infos, Flatten(rows), None);
      }
    }
  }

  /** The parse succeeds when the blocks, every block and the commit table do. */
  lemma ParseLogOk(log: string, chunks: seq<string>, rows: seq<seq<string>>, files: seq<FileRow>, commits: seq<Commit>)
    requires Chunks(log) == Ok(chunks)
    requires ParseChunks(chunks) == Progress(rows, files, None)
    requires CommitTable(rows) == Ok(commits)
    ensures ParseLogSpec(log) == Ok(ParsedLog(commits, files))
  {
  }

  /** A log without the marker fails before anything is parsed; with at least one
      marker there is one block per marker. */
  lemma ChunksCount(log: string)
    ensures Chunks(log).Err? <==> Occurrences(log, Marker) == 0
    ensures Chunks(log).Err? ==> ParseLogSpec(log) == Err(NoCommitMarker)
    ensures Chunks(log).Ok? ==> |Chunks(log).value| == Occurrences(log, Marker)
  {
    SplitCount(log, Marker);
  }

  /** A successful parse has exactly one commit row per marker in the log: the text
      before the first marker yields none. */
  lemma CommitCount(log: string)
    requires ParseLogSpec(log).Ok?
    ensures |ParseLogSpec(log).value.commits| == Occurrences(log, Marker)
  {
    ChunksCount(log);
  }

  /** A count that is not a decimal integer makes the line fail, unless it is the `-`
      of a binary file. */
  lemma InvalidCountFails(commitId: string, line: string)
    requires Split(line, "\t")[0] != "-" && ParseInt(Split(line, "\t")[0]).None?
    ensures FileInfo(commitId, line) == Err(InvalidCount(Split(line, "\t")[0]))
  {
  }

  /** The private helper that turns the stat lines of one block into file rows. */
  method GetFilesInfo(commitId: string, commitFilesLog: seq<string>) returns (r: Result<seq<FileRow>, ParseError>)
    ensures r == FilesInfo(commitId, DropLastTwo(commitFilesLog))
  {
    var lines := DropLastTwo(commitFilesLog);
    var filesInfo: seq<FileRow> := [];
    var i := 0;
    while i < |lines|
      invariant 0 <= i <= |lines|
      invariant FilesInfo(commitId, lines[..i]) == Ok(filesInfo)
    {
      assert lines[..i + 1][..i] == lines[..i];
      var row := FileInfo(commitId, lines[i]);
      if row.Err? {
        FilesInfoSticks(commitId, lines, i + 1);
        return Err(row.error);
      }
      filesInfo := filesInfo + [row.value];
      i := i + 1;
    }
    assert lines[..i] == lines;
    return Ok(filesInfo);
  }

  /** The parser object: `commits` and `commitsFiles` are the lists the parse loop
      fills, `dfCommits` and `dfCommitsFiles` the two tables, absent (None) until a
      parse has completed.  `fetches` counts the times git output was asked for. */
  class GitLogParser {
    const pathToRepo: string
    var commits: seq<seq<string>>
    var commitsFiles: seq<FileRow>
    var dfCommits: Option<seq<Commit>>
    var dfCommitsFiles: Option<seq<FileRow>>
    ghost var fetches: nat
    ghost var parsedLog: string

    /** The two tables are set together, and only from a successful parse. */
    ghost predicate Valid()
      reads this`dfCommits, this`dfCommitsFiles, this`parsedLog
    {
      (dfCommits.Some? <==> dfCommitsFiles.Some?) &&
      (dfCommits.Some? ==>
         ParseLogSpec(parsedLog) == Ok(ParsedLog(dfCommits.value, dfCommitsFiles.value)))
    }

    constructor (pathToRepo: string)
      ensures Valid()
      ensures this.pathToRepo == pathToRepo
      ensures commits == [] && commitsFiles == []
      ensures dfCommits == None && dfCommitsFiles == None
      ensures fetches == 0
    {
      this.pathToRepo := pathToRepo;
      commits := [];
      commitsFiles := [];
      dfCommits := None;
      dfCommitsFiles := None;
      fetches := 0;
      parsedLog := "";
    }

    /** Parses one git output.  On a missing marker nothing is touched; otherwise the two
        lists are rebuilt block by block, and the tables are set only if every block and
        the commit table succeed. */
    method ParseLog(log: string) returns (r: Result<(), ParseError>)
      requires Valid()
      modifies this`commits, this`commitsFiles, this`dfCommits, this`dfCommitsFiles, this`parsedLog
      ensures Valid()
      ensures r.Ok? <==> ParseLogSpec(log).Ok?
      ensures r.Err? ==> ParseLogSpec(log) == Err(r.error)
      ensures Chunks(log).Err? ==> commits == old(commits) && commitsFiles == old(commitsFiles)
      ensures Chunks(log).Ok? ==>
                commits == ParseChunks(Chunks(log).value).commits &&
                commitsFiles == ParseChunks(Chunks(log).value).files
      ensures r.Ok? ==>
                dfCommits == Some(ParseLogSpec(log).value.commits) &&
                dfCommitsFiles == Some(ParseLogSpec(log).value.files)
      ensures r.Err? ==> dfCommits == old(dfCommits) && dfCommitsFiles == old(dfCommitsFiles)
    {
      var pieces := Split(log, Marker)[1..];
      if |pieces| == 0 {
        assert ParseLogSpec(log) == Err(NoCommitMarker);
        return Err(NoCommitMarker);
      }
      var chunks := pieces[..|pieces| - 1] + [pieces[|pieces| - 1] + "\n"];
      assert Chunks(log) == Ok(chunks);
      var failure := ParseChunksIntoLists(chunks);
      if failure.Some? {
        assert ParseLogSpec(log) == Err(failure.value);
        return Err(failure.value);
      }
      var table := CommitTable(commits);
      if table.Err? {
        assert ParseLogSpec(log) == Err(table.error);
        return Err(table.error);
      }
      assert ParseLogSpec(log) == Ok(ParsedLog(table.value, commitsFiles));
      dfCommits := Some(table.value);
      dfCommitsFiles := Some(commitsFiles);
      parsedLog := log;
      return Ok(());
    }

    /** The loop of the parse: resets the two lists, then appends each block's header
        row and file rows in turn, stopping at the first block that fails. */
    method ParseChunksIntoLists(chunks: seq<string>) returns (failure: Option<ParseError>)
      modifies this`commits, this`commitsFiles
      ensures ParseChunks(chunks) == Progress(commits, commitsFiles, failure)
    {
      commits := [];
      commitsFiles := [];
      var i := 0;
      while i < |chunks|
        invariant 0 <= i <= |chunks|
        invariant ParseChunks(chunks[..i]) == Progress(commits, commitsFiles, None)
      {
        ParseChunksStep(chunks, i);
        var lines := Split(chunks[i], "\n");
        var fields := Split(lines[0], "\t");
        var commitInfo := if |fields| > 4 then HandleTabInCommitMsg(fields) else fields;
        var commitFilesInfo := GetFilesInfo(commitInfo[0], lines[1..]);
        if commitFilesInfo.Err? {
          ParseChunksSticks(chunks, i + 1);
          return Some(commitFilesInfo.error);
        }
        commits := commits + [commitInfo];
        commitsFiles := commitsFiles + commitFilesInfo.value;
        i := i + 1;
      }
      assert chunks[..i] == chunks;
      return None;
    }

    /** `get_parsed_commits`: the commit table, parsing `gitOutput` (the text git prints
        for this repository) only when no table exists yet. */
    method GetParsedCommits(gitOutput: string) returns (r: Result<seq<Commit>, ParseError>)
      requires Valid()
      modifies this`commits, this`commitsFiles, this`dfCommits, this`dfCommitsFiles, this`parsedLog, this`fetches
      ensures Valid()
      ensures old(dfCommits).Some? ==>
                r == Ok(old(dfCommits).value) && fetches == old(fetches) &&
                dfCommits == old(dfCommits) && dfCommitsFiles == old(dfCommitsFiles) &&
                commits == old(commits) && commitsFiles == old(commitsFiles) && parsedLog == old(parsedLog)
      ensures old(dfCommits).None? ==> fetches == old(fetches) + 1
      ensures old(dfCommits).None? && Chunks(gitOutput).Err? ==>
                commits == old(commits) && commitsFiles == old(commitsFiles)
      ensures old(dfCommits).None? && Chunks(gitOutput).Ok? ==>
                commits == ParseChunks(Chunks(gitOutput).value).commits &&
                commitsFiles == ParseChunks(Chunks(gitOutput).value).files
      ensures old(dfCommits).None? ==>
                match ParseLogSpec(gitOutput)
                case Ok(pl) => r == Ok(pl.commits) && dfCommits == Some(pl.commits) && dfCommitsFiles == Some(pl.files)
                case Err(e) => r == Err(e) && dfCommits == None && dfCommitsFiles == None
    {
      if dfCommits.None? {
        fetches := fetches + 1;
        var parsed := ParseLog(gitOutput);
        if parsed.Err? {
          return Err(parsed.error);
        }
      }
      return Ok(dfCommits.value);
    }

    /** `get_parsed_commits_files`: the commit-file table, under the same rule. */
    method GetParsedCommitsFiles(gitOutput: string) returns (r: Result<seq<FileRow>, ParseError>)
      requires Valid()
      modifies this`commits, this`commitsFiles, this`dfCommits, this`dfCommitsFiles, this`parsedLog, this`fetches
      ensures Valid()
      ensures old(dfCommitsFiles).Some? ==>
                r == Ok(old(dfCommitsFiles).value) && fetches == old(fetches) &&
                dfCommits == old(dfCommits) && dfCommitsFiles == old(dfCommitsFiles) &&
                commits == old(commits) && commitsFiles == old(commitsFiles) && parsedLog == old(parsedLog)
      ensures old(dfCommitsFiles).None? ==> fetches == old(fetches) + 1
      ensures old(dfCommitsFiles).None? && Chunks(gitOutput).Err? ==>
                commits == old(commits) && commitsFiles == old(commitsFiles)
      ensures old(dfCommitsFiles).None? && Chunks(gitOutput).Ok? ==>
                commits == ParseChunks(Chunks(gitOutput).value).commits &&
                commitsFiles == ParseChunks(Chunks(gitOutput).value).files
      ensures old(dfCommitsFiles).None? ==>
                match ParseLogSpec(gitOutput)
                case Ok(pl) => r == Ok(pl.files) && dfCommits == Some(pl.commits) && dfCommitsFiles == Some(pl.files)
                case Err(e) => r == Err(e) && dfCommits == None && dfCommitsFiles == None
    {
      if dfCommitsFiles.None? {
        fetches := fetches + 1;
        var parsed := ParseLog(gitOutput);
        if parsed.Err? {
          return Err(parsed.error);
        }
      }
      return Ok(dfCommitsFiles.value);
    }
  }

  /** Asking a fresh parser for both tables fetches git output once: the second getter
      answers from the first parse, whatever git would print the second time. */
  method ParseOnce(pathToRepo: string, firstOutput: string, secondOutput: string)
    returns (commits: Result<seq<Commit>, ParseError>, files: Result<seq<FileRow>, ParseError>, ghost fetches: nat)
    ensures ParseLogSpec(firstOutput).Ok? ==>
              commits == Ok(ParseLogSpec(firstOutput).value.commits) &&
              files == Ok(ParseLogSpec(firstOutput).value.files) && fetches == 1
    ensures ParseLogSpec(firstOutput).Err? ==>
              commits == Err(ParseLogSpec(firstOutput).error) &&
              files == (match ParseLogSpec(secondOutput)
                        case Ok(pl) => Ok(pl.files)
                        case Err(e) => Err(e)) && fetches == 2
  {
    var parser := new GitLogParser(pathToRepo);
    commits := parser.GetParsedCommits(firstOutput);
    files := parser.GetParsedCommitsFiles(secondOutput);
    fetches := parser.fetches;
  }
}

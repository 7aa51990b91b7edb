/** The parser object of git_analytics/git_log_parsing.py.  It parses the same text the
    same way as GitLogParsing, but keeps its state in two attributes, `commits` and
    `files`, which hold the plain lists while the parse loop runs and are replaced by
    the tables only when the parse completes.  A parse that raises in the loop therefore
    leaves the partial lists behind, and the getters, which parse only while the
    attribute is unassigned, return those lists from then on. */
module AnalyticsGitLogParsing {
  import opened Wrappers
  import opened Text
  import opened GitLogParsing

  /** The `commits` attribute: unassigned, the list of header rows, or the commit table. */
  datatype CommitsAttr = CommitsAbsent | CommitRows(rows: seq<seq<string>>) | CommitsTable(table: seq<Commit>)

  /** The `files` attribute: unassigned, the list of file rows, or the commit-file table. */
  datatype FilesAttr = FilesAbsent | FileRows(rows: seq<FileRow>) | FilesTable(table: seq<FileRow>)

  class GitLogParser {
    const pathToDir: string
    var commits: CommitsAttr
    var files: FilesAttr
    ghost var fetches: nat
    ghost var parsedLog: string

    /** The attributes are assigned together, hold tables together, and the tables are
        those of a successful parse; partial lists are those of a parse that stopped. */
    ghost predicate Valid()
      reads this
    {
      (commits.CommitsAbsent? <==> files.FilesAbsent?) &&
      (commits.CommitsTable? <==> files.FilesTable?) &&
      (commits.CommitsTable? ==>
         ParseLogSpec(parsedLog) == Ok(ParsedLog(commits.table, files.table))) &&
      (commits.CommitRows? ==>
         Chunks(parsedLog).Ok? &&
         ParseChunks(Chunks(parsedLog).value).commits == commits.rows &&
         ParseChunks(Chunks(parsedLog).value).files == files.rows)
    }

    constructor (pathToDir: string)
      ensures Valid()
      ensures this.pathToDir == pathToDir
      ensures commits == CommitsAbsent && files == FilesAbsent
      ensures fetches == 0
    {
      this.pathToDir := pathToDir;
      commits := CommitsAbsent;
      files := FilesAbsent;
      fetches := 0;
      parsedLog := "";
    }

    /** Parses one git output.  Without a marker nothing is assigned; otherwise both
        attributes become lists that the loop fills block by block, and both become
        tables only when every block and the commit table succeed. */
    method ParseLog(log: string) returns (r: Result<(), ParseError>)
      requires Valid()
      modifies this`commits, this`files, this`parsedLog
      ensures Valid()
      ensures r.Ok? <==> ParseLogSpec(log).Ok?
      ensures r.Err? ==> ParseLogSpec(log) == Err(r.error)
      ensures Chunks(log).Err? ==> commits == old(commits) && files == old(files)
      ensures r.Ok? ==>
                commits == CommitsTable(ParseLogSpec(log).value.commits) &&
                files == FilesTable(ParseLogSpec(log).value.files)
      ensures Chunks(log).Ok? && r.Err? ==>
                commits == CommitRows(ParseChunks(Chunks(log).value).commits) &&
                files == FileRows(ParseChunks(Chunks(log).value).files)
    {
      var pieces := Split(log, Marker)[1..];
      if |pieces| == 0 {
        assert ParseLogSpec(log) == Err(NoCommitMarker);
        return Err(NoCommitMarker);
      }
      var chunks := pieces[..|pieces| - 1] + [pieces[|pieces| - 1] + "\n"];
      assert Chunks(log) == Ok(chunks);
      parsedLog := log;
      var failure := ParseChunksIntoAttrs(chunks);
      if failure.Some? {
        assert ParseLogSpec(log) == Err(failure.value);
        return Err(failure.value);
      }
      var table := CommitTable(commits.rows);
      if table.Err? {
        assert ParseLogSpec(log) == Err(table.error);
        return Err(table.error);
      }
      assert ParseLogSpec(log) == Ok(ParsedLog(table.value, files.rows));
      commits := CommitsTable(table.value);
      files := FilesTable(files.rows);
      return Ok(());
    }

    /** The loop of the parse: both attributes start as empty lists and each block
        appends its header row and file rows, until a block fails. */
    method ParseChunksIntoAttrs(chunks: seq<string>) returns (failure: Option<ParseError>)
      modifies this`commits, this`files
      ensures commits.CommitRows? && files.FileRows?
      ensures ParseChunks(chunks) == Progress(commits.rows, files.rows, failure)
    {
      commits := CommitRows([]);
      files := FileRows([]);
      var i := 0;
      while i < |chunks|
        invariant 0 <= i <= |chunks|
        invariant commits.CommitRows? && files.FileRows?
        invariant ParseChunks(chunks[..i]) == Progress(commits.rows, files.rows, None)
      {
        ParseChunksStep(chunks, i);
        var lines := Split(chunks[i], "\n");
        var fields := Split(lines[0], "\t");
        var commitInfo := if |fields| > 4 then HandleTabInCommitMsg(fields) else fields;
        var commitFilesInfo := GetFilesInfo(commitInfo[0], lines[1..]);
        if commitFilesInfo.Err? {
          ParseChunksSticks(chunks, i + 1);
          return Some(commitFilesInfo.error);
        }
        commits := CommitRows(commits.rows + [commitInfo]);
        files := FileRows(files.rows + commitFilesInfo.value);
        i := i + 1;
      }
      assert chunks[..i] == chunks;
      return None;
    }

    /** `get_commits_info`: whatever `commits` holds once assigned; while unassigned,
        `gitOutput` (the text git prints for this directory) is parsed first. */
    method GetCommitsInfo(gitOutput: string) returns (r: Result<CommitsAttr, ParseError>)
      requires Valid()
      modifies this`commits, this`files, this`parsedLog, this`fetches
      ensures Valid()
      ensures old(commits) != CommitsAbsent ==>
                r == Ok(old(commits)) && fetches == old(fetches) &&
                commits == old(commits) && files == old(files)
      ensures old(commits) == CommitsAbsent ==> fetches == old(fetches) + 1
      ensures old(commits) == CommitsAbsent ==>
                match ParseLogSpec(gitOutput)
                case Ok(pl) => r == Ok(CommitsTable(pl.commits)) && commits == CommitsTable(pl.commits)
                case Err(e) => r == Err(e)
      ensures old(commits) == CommitsAbsent && Chunks(gitOutput).Err? ==> commits == CommitsAbsent && files == FilesAbsent
      ensures old(commits) == CommitsAbsent && Chunks(gitOutput).Ok? && ParseLogSpec(gitOutput).Err? ==>
                commits == CommitRows(ParseChunks(Chunks(gitOutput).value).commits)
    {
      if commits.CommitsAbsent? {
        fetches := fetches + 1;
        var parsed := ParseLog(gitOutput);
        if parsed.Err? {
          return Err(parsed.error);
        }
      }
      return Ok(commits);
    }

    /** `get_commits_files_info`: the same rule for `files`. */
    method GetCommitsFilesInfo(gitOutput: string) returns (r: Result<FilesAttr, ParseError>)
      requires Valid()
      modifies this`commits, this`files, this`parsedLog, this`fetches
      ensures Valid()
      ensures old(files) != FilesAbsent ==>
                r == Ok(old(files)) && fetches == old(fetches) &&
                commits == old(commits) && files == old(files)
      ensures old(files) == FilesAbsent ==> fetches == old(fetches) + 1
      ensures old(files) == FilesAbsent ==>
                match ParseLogSpec(gitOutput)
                case Ok(pl) => r == Ok(FilesTable(pl.files)) && files == FilesTable(pl.files)
                case Err(e) => r == Err(e)
      ensures old(files) == FilesAbsent && Chunks(gitOutput).Err? ==> commits == CommitsAbsent && files == FilesAbsent
      ensures old(files) == FilesAbsent && Chunks(gitOutput).Ok? && ParseLogSpec(gitOutput).Err? ==>
                files == FileRows(ParseChunks(Chunks(gitOutput).value).files)
    {
      if files.FilesAbsent? {
        fetches := fetches + 1;
        var parsed := ParseLog(gitOutput);
        if parsed.Err? {
          return Err(parsed.error);
        }
      }
      return Ok(files);
    }
  }

  /** After a parse that fails inside the block loop, asking again does not re-parse:
      the second call returns the header rows the loop had collected, whatever git
      would print the second time. */
  method RetryAfterFailedParse(pathToDir: string, firstOutput: string, secondOutput: string)
    returns (first: Result<CommitsAttr, ParseError>, second: Result<CommitsAttr, ParseError>, ghost fetches: nat)
    requires Chunks(firstOutput).Ok? && ParseLogSpec(firstOutput).Err?
    ensures first == Err(ParseLogSpec(firstOutput).error)
    ensures second == Ok(CommitRows(ParseChunks(Chunks(firstOutput).value).commits))
    ensures fetches == 1
  {
    var parser := new GitLogParser(pathToDir);
    first := parser.GetCommitsInfo(firstOutput);
    second := parser.GetCommitsInfo(secondOutput);
    fetches := parser.fetches;
  }

  /** A log without any marker assigns nothing, so the next call fetches and parses
      again. */
  method RetryAfterMissingMarker(pathToDir: string, firstOutput: string, secondOutput: string)
    returns (first: Result<FilesAttr, ParseError>, second: Result<FilesAttr, ParseError>, ghost fetches: nat)
    requires Chunks(firstOutput).Err?
    ensures first == Err(NoCommitMarker)
    ensures ParseLogSpec(secondOutput).Ok? ==> second == Ok(FilesTable(ParseLogSpec(secondOutput).value.files))
    ensures ParseLogSpec(secondOutput).Err? ==> second == Err(ParseLogSpec(secondOutput).error)
    ensures fetches == 2
  {
    var parser := new GitLogParser(pathToDir);
    first := parser.GetCommitsFilesInfo(firstOutput);
    second := parser.GetCommitsFilesInfo(secondOutput);
    fetches := parser.fetches;
  }
}

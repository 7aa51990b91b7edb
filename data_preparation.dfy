/** The table-to-table steps of src/data_preparation.py other than the rename
    resolution: the author alias replacement on the commit table, the tagging sequence,
    the code-line columns and the join that copies commit columns onto file rows. */
module DataPreparation {
  import opened Wrappers
  import opened PathTagging
  import opened Frames
  import opened CommitFilesTagging

  /** What reading the alias file gives: no file, a file that is not JSON, or the alias
      to name mapping it holds. */
  datatype AliasFile = MissingFile | InvalidJson | Loaded(mapping: map<string, string>)

  const InvalidAliasFile: string := "The file 'config/author_nm_merging.json' is not a valid JSON."

  /** `Series.replace` with the alias mapping on one author cell. */
  function MergedAuthor(author: Option<string>, mapping: map<string, string>): Option<string>
  {
    if author.Some? && author.value in mapping then Some(mapping[author.value]) else author
  }

  /** `apply_author_nm_merging`: a missing file leaves the commits as they are, an invalid
      one raises, and otherwise every author equal to an alias becomes its name. */
  method ApplyAuthorNmMerging(df: CommitsFrame, file: AliasFile) returns (r: Result<CommitsFrame, string>)
    requires df.Valid()
    modifies df`authorNm
    ensures df.Valid() && df.Rows() == old(df.Rows())
    ensures file.MissingFile? ==> r == Ok(df) && df.authorNm == old(df.authorNm)
    ensures file.InvalidJson? ==> r == Err(InvalidAliasFile) && df.authorNm == old(df.authorNm)
    ensures file.Loaded? ==> r == Ok(df)
    ensures file.Loaded? ==> forall i | 0 <= i < df.Rows() ::
              (old(df.authorNm[i]).Some? && old(df.authorNm[i]).value in file.mapping ==>
                 df.authorNm[i] == Some(file.mapping[old(df.authorNm[i]).value])) &&
              (!(old(df.authorNm[i]).Some? && old(df.authorNm[i]).value in file.mapping) ==>
                 df.authorNm[i] == old(df.authorNm[i]))
  {
    match file
    case MissingFile =>
      return Ok(df);
    case InvalidJson =>
      return Err(InvalidAliasFile);
    case Loaded(mapping) =>
      var authors := df.authorNm;
      df.authorNm := seq(|authors|, i requires 0 <= i < |authors| => MergedAuthor(authors[i], mapping));
      return Ok(df);
  }

  /** When no name is itself an alias, merging twice is merging once. */
  lemma MergedAuthorIdempotent(author: Option<string>, mapping: map<string, string>)
    requires forall a | a in mapping :: mapping[a] !in mapping
    ensures MergedAuthor(MergedAuthor(author, mapping), mapping) == MergedAuthor(author, mapping)
  {
    if author.Some? && author.value in mapping {
      assert mapping[author.value] !in mapping;
    }
  }

  /** The tagging options. */
  datatype TaggingConfig = TaggingConfig(srcPath: string, moduleDepth: nat,
                                         componentNms: Option<seq<string>>, componentDepth: Option<nat>)

  /** `tag_commit_files`: extension, then source flag, then the component when names are
      configured, then the module.  A step that cannot select its segment column fails,
      leaving its column and those of the later steps as they were. */
  method TagCommitFiles(df: CommitFilesFrame, config: TaggingConfig) returns (r: Result<CommitFilesFrame, TagError>)
    requires df.Valid()
    modifies df`ext, df`isSrc, df`componentNm, df`moduleNm
    ensures df.Valid() && df.Rows() == old(df.Rows())
    ensures df.ext.Some? && df.isSrc.Some?
    ensures forall i | 0 <= i < df.Rows() ::
              df.ext.value[i] == ExtOf(df.filePath[i]) &&
              df.isSrc.value[i] == UnderSrcPathOrDot(config.srcPath, df.filePath[i])
    ensures var e := ComponentStepError(config.componentNms, config.componentDepth, df.filePath, df.isSrc.value);
            e.Some? ==> r == Err(e.value) && df.componentNm == old(df.componentNm) && df.moduleNm == old(df.moduleNm)
    ensures ComponentStepError(config.componentNms, config.componentDepth, df.filePath, df.isSrc.value).None? &&
            !HasSegmentColumn(df.filePath, df.isSrc.value, config.moduleDepth) ==>
              r == Err(NoSegmentColumn(config.moduleDepth)) && df.moduleNm == old(df.moduleNm)
    ensures ComponentStepError(config.componentNms, config.componentDepth, df.filePath, df.isSrc.value).None? &&
            config.componentNms.Some? ==>
              config.componentDepth.Some? && df.componentNm.Some? &&
              forall i | 0 <= i < df.Rows() ::
                df.componentNm.value[i] ==
                  if df.isSrc.value[i] then ComponentOf(Segment(df.filePath[i], config.componentDepth.value), config.componentNms.value)
                  else OffMask(old(df.componentNm), i, Other)
    ensures config.componentNms.None? ==> df.componentNm == old(df.componentNm)
    ensures ComponentStepError(config.componentNms, config.componentDepth, df.filePath, df.isSrc.value).None? &&
            HasSegmentColumn(df.filePath, df.isSrc.value, config.moduleDepth) ==>
              r == Ok(df) && df.moduleNm.Some? &&
              forall i | 0 <= i < df.Rows() ::
                df.moduleNm.value[i] ==
                  if df.isSrc.value[i] then
                    ModuleOf(Segment(df.filePath[i], config.moduleDepth),
                             config.componentNms.Some? && config.componentDepth == Some(config.moduleDepth),
                             config.componentNms.GetOr([]))
                  else OffMask(old(df.moduleNm), i, None)
  {
    var tagger := new CommitFilesTagger(config.srcPath, config.moduleDepth, config.componentNms, config.componentDepth);
    var tagged := tagger.TagFileExt(df);
    tagged := tagger.TagSrcFile(tagged);
    if config.componentNms.Some? {
      var component := tagger.TagComponent(tagged);
      if component.Err? {
        return Err(component.error);
      }
      tagged := component.value;
    }
    r := tagger.TagModule(tagged);
  }

  /** The raw count of a row whose language is recognised, 0 for any other row. */
  function CodeLines(counts: seq<int>, exts: seq<string>): (r: seq<int>)
    requires |counts| == |exts|
    ensures |r| == |counts|
    ensures forall i | 0 <= i < |counts| && exts[i] != Other :: r[i] == counts[i]
    ensures forall i | 0 <= i < |counts| && exts[i] == Other :: r[i] == 0
  {
    seq(|counts|, i requires 0 <= i < |counts| => if exts[i] != Other then counts[i] else 0)
  }

  /** The two counts the code-line columns are derived from. */
  datatype LineAction = Inserted | Deleted

  const Actions: seq<LineAction> := [Inserted, Deleted]

  /** `compute_n_code_lines`: for each action in turn, the code-line column is the raw
      column where the extension is recognised and 0 elsewhere; the raw columns and
      every other column are untouched. */
  method ComputeNCodeLines(df: CommitFilesFrame) returns (r: CommitFilesFrame)
    requires df.Valid() && df.ext.Some?
    modifies df`nCodeLinesInserted, df`nCodeLinesDeleted
    ensures r == df && df.Valid()
    ensures df.nCodeLinesInserted == Some(CodeLines(df.nLinesInserted, df.ext.value))
    ensures df.nCodeLinesDeleted == Some(CodeLines(df.nLinesDeleted, df.ext.value))
  {
    for j := 0 to |Actions|
      invariant df.Valid()
      invariant j >= 1 ==> df.nCodeLinesInserted == Some(CodeLines(df.nLinesInserted, df.ext.value))
      invariant j >= 2 ==> df.nCodeLinesDeleted == Some(CodeLines(df.nLinesDeleted, df.ext.value))
    {
      var exts := df.ext.value;
      match Actions[j]
      case Inserted =>
        df.nCodeLinesInserted := Some(CodeLines(df.nLinesInserted, exts));
      case Deleted =>
        df.nCodeLinesDeleted := Some(CodeLines(df.nLinesDeleted, exts));
    }
    return df;
  }

  function Sum(xs: seq<int>): int
  {
    if |xs| == 0 then 0 else Sum(xs[..|xs| - 1]) + xs[|xs| - 1]
  }

  /** The code lines of a table never exceed its raw lines, and equal them when every
      extension is recognised. */
  lemma {:induction false} CodeLinesTotal(counts: seq<int>, exts: seq<string>)
    requires |counts| == |exts| && forall i | 0 <= i < |counts| :: counts[i] >= 0
    ensures 0 <= Sum(CodeLines(counts, exts)) <= Sum(counts)
    ensures (forall i | 0 <= i < |exts| :: exts[i] != Other) ==> Sum(CodeLines(counts, exts)) == Sum(counts)
    decreases |counts|
  {
    if |counts| > 0 {
      var n := |counts| - 1;
      CodeLinesTotal(counts[..n], exts[..n]);
      assert CodeLines(counts, exts)[..n] == CodeLines(counts[..n], exts[..n]);
    }
  }

  /** The commit columns a join may copy. */
  datatype CommitColumn = CreationDt | AuthorNm | Msg

  function ColumnOf(commits: CommitsFrame, c: CommitColumn): (r: seq<Option<string>>)
    reads commits
    requires commits.Valid()
    ensures |r| == commits.Rows()
  {
    match c
    case CreationDt => commits.creationDt
    case AuthorNm => commits.authorNm
    case Msg => commits.msg
  }

  /** `validate='m:1'` fails: some commit id is not unique. */
  datatype MergeError = NotManyToOne

  predicate UniqueIds(ids: seq<string>)
  {
    forall k, l | 0 <= k < l < |ids| :: ids[k] != ids[l]
  }

  /** The first commit carrying an id. */
  function FirstIndex(ids: seq<string>, id: string): (r: Option<nat>)
    ensures r.Some? ==> r.value < |ids| && ids[r.value] == id
    ensures r.None? ==> id !in ids
  {
    if |ids| == 0 then None
    else if ids[0] == id then Some(0)
    else match FirstIndex(ids[1..], id)
      case Some(k) => Some(k + 1)
      case None => None
  }

  /** The commit columns copied onto one file row: the values of its commit, or missing
      values when no commit has its id. */
  function JoinedCells(commits: CommitsFrame, cols: seq<CommitColumn>, commitId: string): (r: seq<Option<string>>)
    reads commits
    requires commits.Valid()
    ensures |r| == |cols|
  {
    match FirstIndex(commits.id, commitId)
    case Some(k) =>
      seq(|cols|, j reads commits requires commits.Valid() && 0 <= j < |cols| && k < commits.Rows() =>
                    ColumnOf(commits, cols[j])[k])
    case None => seq(|cols|, j => None)
  }

  /** `denormalize`: the left join of the file rows with the commits on
      `commit_id == id`, the columns `cols` copied and `id` dropped.  The file rows,
      their order and their own columns are those of `files`; the result gives the
      copied columns, row by row. */
  function Denormalize(files: CommitFilesFrame, commits: CommitsFrame, cols: seq<CommitColumn>): (r: Result<seq<seq<Option<string>>>, MergeError>)
    reads files, commits
    requires files.Valid() && commits.Valid()
    ensures r.Err? <==> !UniqueIds(commits.id)
    ensures r.Ok? ==> |r.value| == files.Rows() && forall i | 0 <= i < files.Rows() :: |r.value[i]| == |cols|
    ensures r.Ok? ==> forall i, k | 0 <= i < files.Rows() && 0 <= k < commits.Rows() && commits.id[k] == files.commitId[i] ::
              forall j | 0 <= j < |cols| :: r.value[i][j] == ColumnOf(commits, cols[j])[k]
    ensures r.Ok? ==> forall i | 0 <= i < files.Rows() && files.commitId[i] !in commits.id ::
              forall j | 0 <= j < |cols| :: r.value[i][j] == None
  {
    if !UniqueIds(commits.id) then Err(NotManyToOne)
    else
      var ids := files.commitId;
      Ok(seq(|ids|, i reads commits requires commits.Valid() && 0 <= i < |ids| => JoinedCells(commits, cols, ids[i])))
  }
}

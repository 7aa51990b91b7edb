/** The two tables the pipeline passes around, as column stores whose columns the
    preparation steps and taggers overwrite or add in place.  A column that a step adds
    is absent (None) until that step has run; every present column has one entry per
    row.  Missing cells (pandas NaN) are None. */
module Frames {
  import opened Wrappers

  /** The commit-file table: `commit_id`, the path (named `file_path` in src and
      `file_nm` in git_analytics), the two raw counts, and the columns added later. */
  class CommitFilesFrame {
    var commitId: seq<string>
    var filePath: seq<string>
    var nLinesInserted: seq<int>
    var nLinesDeleted: seq<int>
    var ext: Option<seq<string>>
    var isSrc: Option<seq<bool>>
    var componentNm: Option<seq<string>>
    var moduleNm: Option<seq<Option<string>>>
    var nCodeLinesInserted: Option<seq<int>>
    var nCodeLinesDeleted: Option<seq<int>>

    /** The number of rows. */
    function Rows(): nat
      reads this
    {
      |filePath|
    }

    /** Every present column has one entry per row. */
    ghost predicate Valid()
      reads this
    {
      |commitId| == Rows() && |nLinesInserted| == Rows() && |nLinesDeleted| == Rows() &&
      (ext.Some? ==> |ext.value| == Rows()) &&
      (isSrc.Some? ==> |isSrc.value| == Rows()) &&
      (componentNm.Some? ==> |componentNm.value| == Rows()) &&
      (moduleNm.Some? ==> |moduleNm.value| == Rows()) &&
      (nCodeLinesInserted.Some? ==> |nCodeLinesInserted.value| == Rows()) &&
      (nCodeLinesDeleted.Some? ==> |nCodeLinesDeleted.value| == Rows())
    }

    /** The table as the parser leaves it: the four raw columns, no tags. */
    constructor (commitId: seq<string>, filePath: seq<string>, nLinesInserted: seq<int>, nLinesDeleted: seq<int>)
      requires |commitId| == |filePath| == |nLinesInserted| == |nLinesDeleted|
      ensures Valid()
      ensures this.commitId == commitId && this.filePath == filePath
      ensures this.nLinesInserted == nLinesInserted && this.nLinesDeleted == nLinesDeleted
      ensures ext == None && isSrc == None && componentNm == None && moduleNm == None
      ensures nCodeLinesInserted == None && nCodeLinesDeleted == None
    {
      this.commitId := commitId;
      this.filePath := filePath;
      this.nLinesInserted := nLinesInserted;
      this.nLinesDeleted := nLinesDeleted;
      ext := None;
      isSrc := None;
      componentNm := None;
      moduleNm := None;
      nCodeLinesInserted := None;
      nCodeLinesDeleted := None;
    }
  }

  /** What a `.loc[mask, column] = ...` assignment leaves in a row outside the mask: the
      row's old cell when the column already exists, `fill` otherwise (the missing cell
      the assignment creates, or what a later `fillna` puts there). */
  function OffMask<T>(before: Option<seq<T>>, i: nat, fill: T): T
  {
    if before.Some? && i < |before.value| then before.value[i] else fill
  }

  /** The commit table: `id`, `creation_dt`, `author_nm`, `msg`. */
  class CommitsFrame {
    var id: seq<string>
    var creationDt: seq<Option<string>>
    var authorNm: seq<Option<string>>
    var msg: seq<Option<string>>

    function Rows(): nat
      reads this
    {
      |id|
    }

    ghost predicate Valid()
      reads this
    {
      |creationDt| == Rows() && |authorNm| == Rows() && |msg| == Rows()
    }

    constructor (id: seq<string>, creationDt: seq<Option<string>>, authorNm: seq<Option<string>>, msg: seq<Option<string>>)
      requires |id| == |creationDt| == |authorNm| == |msg|
      ensures Valid()
      ensures this.id == id && this.creationDt == creationDt && this.authorNm == authorNm && this.msg == msg
    {
      this.id := id;
      this.creationDt := creationDt;
      this.authorNm := authorNm;
      this.msg := msg;
    }
  }
}

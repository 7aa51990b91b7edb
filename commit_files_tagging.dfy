/** The tagger of src/commit_files_tagging.py.  Each `tag_*` method writes one column
    into the table it is given, in place, and hands the same table back; the rows, the
    paths and the counts are never touched (each method may modify only the column it
    writes). */
module CommitFilesTagging {
  import opened Wrappers
  import opened PathTagging
  import opened Frames

  class CommitFilesTagger {
    const srcPath: string
    const moduleDepth: nat
    const componentNms: Option<seq<string>>
    const componentDepth: Option<nat>

    /** Component and module are aligned when component names are given and their depth
        is the module depth. */
    predicate ComponentAndModuleAligned()
    {
      componentNms.Some? && componentDepth == Some(moduleDepth)
    }

    constructor (srcPath: string, moduleDepth: nat, componentNms: Option<seq<string>>, componentDepth: Option<nat>)
      ensures this.srcPath == srcPath && this.moduleDepth == moduleDepth
      ensures this.componentNms == componentNms && this.componentDepth == componentDepth
    {
      this.srcPath := srcPath;
      this.moduleDepth := moduleDepth;
      this.componentNms := componentNms;
      this.componentDepth := componentDepth;
    }

    /** `ext`: the recognised language of each path, "other" for the rest. */
    method TagFileExt(df: CommitFilesFrame) returns (r: CommitFilesFrame)
      requires df.Valid()
      modifies df`ext
      ensures r == df && df.Valid()
      ensures df.ext.Some?
      ensures forall i | 0 <= i < df.Rows() :: df.ext.value[i] == ExtOf(df.filePath[i])
    {
      var paths := df.filePath;
      df.ext := Some(seq(|paths|, i requires 0 <= i < |paths| => ExtOf(paths[i])));
      return df;
    }

    /** `is_src`: whether each path lies under the source path (every path does when the
        cleaned source path is `.`). */
    method TagSrcFile(df: CommitFilesFrame) returns (r: CommitFilesFrame)
      requires df.Valid()
      modifies df`isSrc
      ensures r == df && df.Valid()
      ensures df.isSrc.Some?
      ensures forall i | 0 <= i < df.Rows() :: df.isSrc.value[i] == UnderSrcPathOrDot(srcPath, df.filePath[i])
    {
      var path := StripRootMarker(srcPath);
      if path == "." {
        df.isSrc := Some(seq(|df.filePath|, i => true));
      } else {
        var paths := df.filePath;
        df.isSrc := Some(seq(|paths|, i requires 0 <= i < |paths| => path <= paths[i]));
      }
      return df;
    }

    /** `component_nm`: for source rows the name the alternation finds in the segment at
        the component depth; "other" for the rest, once the gaps are filled, unless the
        column already holds a value there.  Without a component depth, or without a
        source row that has a segment at that depth, selecting the segment column raises
        and the column is left as it was. */
    method TagComponent(df: CommitFilesFrame) returns (r: Result<CommitFilesFrame, TagError>)
      requires df.Valid() && df.isSrc.Some?
      requires componentNms.Some?
      modifies df`componentNm
      ensures df.Valid()
      ensures var e := ComponentStepError(componentNms, componentDepth, df.filePath, df.isSrc.value);
              e.Some? ==> r == Err(e.value) && df.componentNm == old(df.componentNm)
      ensures ComponentStepError(componentNms, componentDepth, df.filePath, df.isSrc.value).None? ==>
                componentDepth.Some? && r == Ok(df) && df.componentNm.Some? &&
                forall i | 0 <= i < df.Rows() ::
                  df.componentNm.value[i] ==
                    if df.isSrc.value[i] then ComponentOf(Segment(df.filePath[i], componentDepth.value), componentNms.value)
                    else OffMask(old(df.componentNm), i, Other)
    {
      if componentDepth.None? {
        return Err(MissingComponentDepth);
      }
      var names := componentNms.value;
      var depth := componentDepth.value;
      var paths := df.filePath;
      var isSrc := df.isSrc.value;
      if !HasSegmentColumn(paths, isSrc, depth) {
        return Err(NoSegmentColumn(depth));
      }
      var before := df.componentNm;
      df.componentNm := Some(seq(|paths|, i requires 0 <= i < |paths| && |isSrc| == |paths| =>
                                   if isSrc[i] then ComponentOf(Segment(paths[i], depth), names)
                                   else OffMask(before, i, Other)));
      return Ok(df);
    }

    /** Removes the component names, then one trailing separator, from the module name
        of every source row. */
    method RemoveComponentNmFromModuleNm(df: CommitFilesFrame) returns (r: CommitFilesFrame)
      requires df.Valid() && df.isSrc.Some? && df.moduleNm.Some?
      requires componentNms.Some?
      modifies df`moduleNm
      ensures r == df && df.Valid()
      ensures df.moduleNm.Some?
      ensures forall i | 0 <= i < df.Rows() ::
                df.moduleNm.value[i] ==
                  if df.isSrc.value[i] && old(df.moduleNm).value[i].Some? then
                    Some(StripTrailingSep(RemoveNames(old(df.moduleNm).value[i].value, Alternatives(componentNms.value))))
                  else old(df.moduleNm).value[i]
    {
      var alts := Alternatives(componentNms.value);
      var before := df.moduleNm.value;
      var isSrc := df.isSrc.value;
      df.moduleNm := Some(seq(|before|, i requires 0 <= i < |before| && |isSrc| == |before| =>
                                if isSrc[i] && before[i].Some? then
                                  Some(StripTrailingSep(RemoveNames(before[i].value, alts)))
                                else before[i]));
      return df;
    }

    /** `module_nm`: for source rows the segment at the module depth without its
        extension (and, when aligned, without the component names); the rest keep the
        value the column already holds there, or nothing.  The result is the module rule
        ModuleOf on every source row.  Without a source row that has a segment at the
        module depth, selecting the segment column raises and the column is left as it
        was. */
    method TagModule(df: CommitFilesFrame) returns (r: Result<CommitFilesFrame, TagError>)
      requires df.Valid() && df.isSrc.Some?
      modifies df`moduleNm
      ensures df.Valid()
      ensures !HasSegmentColumn(df.filePath, df.isSrc.value, moduleDepth) ==>
                r == Err(NoSegmentColumn(moduleDepth)) && df.moduleNm == old(df.moduleNm)
      ensures HasSegmentColumn(df.filePath, df.isSrc.value, moduleDepth) ==>
                r == Ok(df) && df.moduleNm.Some? &&
                forall i | 0 <= i < df.Rows() ::
                  df.moduleNm.value[i] ==
                    if df.isSrc.value[i] then
                      ModuleOf(Segment(df.filePath[i], moduleDepth), ComponentAndModuleAligned(),
                               componentNms.GetOr([]))
                    else OffMask(old(df.moduleNm), i, None)
    {
      var paths := df.filePath;
      var isSrc := df.isSrc.value;
      if !HasSegmentColumn(paths, isSrc, moduleDepth) {
        return Err(NoSegmentColumn(moduleDepth));
      }
      var before := df.moduleNm;
      df.moduleNm := Some(seq(|paths|, i requires 0 <= i < |paths| && |isSrc| == |paths| =>
                                if isSrc[i] then
                                  match Segment(paths[i], moduleDepth)
                                  case Some(t) => Some(StripLangExt(t))
                                  case None => None
                                else OffMask(before, i, None)));
      var tagged := df;
      if ComponentAndModuleAligned() {
        tagged := RemoveComponentNmFromModuleNm(df);
      }
      return Ok(tagged);
    }
  }
}

/** The tagger of git_analytics/commit_files_tagging.py.  It owns its table and adds
    the tag columns to it in a fixed order: ext, is_src, component_nm (only when
    component names are configured) and module_nm.  Unlike the src tagger it lowercases
    the segments before reading component and module names, and it has no special case
    for the source path `.`.  `get_tagged_files` tags only while the table has no
    `module_nm` column. */
module AnalyticsCommitFilesTagging {
  import opened Wrappers
  import opened Text
  import opened PathTagging
  import opened Frames

  class CommitFilesTagger {
    const df: CommitFilesFrame
    const srcPath: string
    const moduleDepth: nat
    const componentNms: Option<seq<string>>
    const componentDepth: Option<nat>

    predicate ComponentAndModuleAligned()
    {
      componentNms.Some? && componentDepth == Some(moduleDepth)
    }

    ghost predicate Valid()
      reads this, df
    {
      df.Valid()
    }

    constructor (df: CommitFilesFrame, srcPath: string, moduleDepth: nat,
                 componentNms: Option<seq<string>>, componentDepth: Option<nat>)
      requires df.Valid()
      ensures Valid()
      ensures this.df == df && this.srcPath == srcPath && this.moduleDepth == moduleDepth
      ensures this.componentNms == componentNms && this.componentDepth == componentDepth
    {
      this.df := df;
      this.srcPath := srcPath;
      this.moduleDepth := moduleDepth;
      this.componentNms := componentNms;
      this.componentDepth := componentDepth;
    }

    /** The component name of row `i`, as `__tag_component` leaves it when the column
        held `before`. */
    function ComponentCell(isSrc: bool, path: string, before: Option<seq<string>>, i: nat): string
      requires componentNms.Some? && componentDepth.Some?
    {
      if isSrc then LowerComponentOf(Segment(path, componentDepth.value), componentNms.value)
      else OffMask(before, i, Other)
    }

    /** The module name of row `i`, as `__tag_module` leaves it when the column held
        `before`. */
    function ModuleCell(isSrc: bool, path: string, before: Option<seq<Option<string>>>, i: nat): Option<string>
    {
      if isSrc then LowerModuleOf(Segment(path, moduleDepth), ComponentAndModuleAligned(), componentNms.GetOr([]))
      else OffMask(before, i, None)
    }

    method TagFileExt()
      requires Valid()
      modifies df`ext
      ensures Valid() && df.ext.Some?
      ensures forall i | 0 <= i < df.Rows() :: df.ext.value[i] == ExtOf(df.filePath[i])
    {
      var paths := df.filePath;
      df.ext := Some(seq(|paths|, i requires 0 <= i < |paths| => ExtOf(paths[i])));
    }

    method TagType()
      requires Valid()
      modifies df`isSrc
      ensures Valid() && df.isSrc.Some?
      ensures forall i | 0 <= i < df.Rows() :: df.isSrc.value[i] == UnderSrcPath(srcPath, df.filePath[i])
    {
      var path := StripRootMarker(srcPath);
      var paths := df.filePath;
      df.isSrc := Some(seq(|paths|, i requires 0 <= i < |paths| => path <= paths[i]));
    }

    /** Without a component depth, or without a source row that has a segment at that
        depth, the segment column cannot be selected: the step fails and the column is
        left as it was. */
    method TagComponent() returns (r: Result<(), TagError>)
      requires Valid() && df.isSrc.Some?
      requires componentNms.Some?
      modifies df`componentNm
      ensures Valid()
      ensures var e := ComponentStepError(componentNms, componentDepth, df.filePath, df.isSrc.value);
              e.Some? ==> r == Err(e.value) && df.componentNm == old(df.componentNm)
      ensures ComponentStepError(componentNms, componentDepth, df.filePath, df.isSrc.value).None? ==>
                r == Ok(()) && ComponentTagged(this, old(df.componentNm))
    {
      if componentDepth.None? {
        return Err(MissingComponentDepth);
      }
      var names := componentNms.value;
      var depth := componentDepth.value;
      var paths := df.filePath;
      var isSrc := df.isSrc.value;
      if !HasSegmentColumn(paths, isSrc, depth) {
        return Err(NoSegmentColumn(depth));
      }
      var before := df.componentNm;
      df.componentNm := Some(seq(|paths|, i requires 0 <= i < |paths| && |isSrc| == |paths| =>
                                   if isSrc[i] then
                                     match Segment(paths[i], depth)
                                     case Some(t) => ComponentOf(Some(ToLower(t)), names)
                                     case None => Other
                                   else OffMask(before, i, Other)));
      return Ok(());
    }

    /** Writes the lowercased, extension-free segment, then, when component and module
        are aligned, rewrites it without the component names and one trailing separator;
        the other rows keep what the column already held there.  Without a source row
        that has a segment at the module depth the step fails and the column is left as
        it was. */
    method TagModule() returns (r: Result<(), TagError>)
      requires Valid() && df.isSrc.Some?
      modifies df`moduleNm
      ensures Valid()
      ensures !HasSegmentColumn(df.filePath, df.isSrc.value, moduleDepth) ==>
                r == Err(NoSegmentColumn(moduleDepth)) && df.moduleNm == old(df.moduleNm)
      ensures HasSegmentColumn(df.filePath, df.isSrc.value, moduleDepth) ==>
                r == Ok(()) && ModuleTagged(this, old(df.moduleNm))
    {
      var paths := df.filePath;
      var isSrc := df.isSrc.value;
      if !HasSegmentColumn(paths, isSrc, moduleDepth) {
        return Err(NoSegmentColumn(moduleDepth));
      }
      var before := df.moduleNm;
      var stripped := seq(|paths|, i requires 0 <= i < |paths| && |isSrc| == |paths| =>
                            if isSrc[i] then
                              match Segment(paths[i], moduleDepth)
                              case Some(t) => Some(StripLangExt(ToLower(t)))
                              case None => None
                            else OffMask(before, i, None));
      df.moduleNm := Some(stripped);
      if ComponentAndModuleAligned() {
        var alts := Alternatives(componentNms.value);
        df.moduleNm := Some(seq(|stripped|, i requires 0 <= i < |stripped| && |isSrc| == |stripped| =>
                                  if isSrc[i] && stripped[i].Some? then
                                    Some(StripTrailingSep(RemoveNames(stripped[i].value, alts)))
                                  else stripped[i]));
      }
      return Ok(());
    }

    /** `__tag`: the four steps in order; the component column only with names.  A step
        that fails stops it, after ext and is_src, with its column and the later ones as
        they were. */
    method Tag() returns (r: Result<(), TagError>)
      requires Valid()
      modifies df`ext, df`isSrc, df`componentNm, df`moduleNm
      ensures Valid() && Typed(this)
      ensures match TagFailure(this)
              case Some(e) => r == Err(e) && df.moduleNm == old(df.moduleNm)
              case None => r == Ok(()) && ModuleTagged(this, old(df.moduleNm))
      ensures ComponentStepError(componentNms, componentDepth, df.filePath, df.isSrc.value).Some? ==>
                df.componentNm == old(df.componentNm)
      ensures ComponentStepError(componentNms, componentDepth, df.filePath, df.isSrc.value).None? ==>
                ComponentTagged(this, old(df.componentNm))
      ensures componentNms.None? ==> df.componentNm == old(df.componentNm)
    {
      TagFileExt();
      TagType();
      if componentNms.Some? {
        r := TagComponent();
        if r.Err? {
          return;
        }
      }
      r := TagModule();
    }

    /** `get_tagged_files`: tags the table unless it already has a `module_nm` column,
        and returns it; a failed tagging leaves no `module_nm` column. */
    method GetTaggedFiles() returns (r: Result<CommitFilesFrame, TagError>)
      requires Valid()
      modifies df`ext, df`isSrc, df`componentNm, df`moduleNm
      ensures Valid()
      ensures old(df.moduleNm).Some? ==> r == Ok(df) && unchanged(df)
      ensures old(df.moduleNm).None? ==>
                Typed(this) &&
                match TagFailure(this)
                case Some(e) => r == Err(e) && df.moduleNm.None?
                case None => r == Ok(df) && ModuleTagged(this, None)
      ensures old(df.moduleNm).None? && ComponentStepError(componentNms, componentDepth, df.filePath, df.isSrc.value).Some? ==>
                df.componentNm == old(df.componentNm)
      ensures old(df.moduleNm).None? && ComponentStepError(componentNms, componentDepth, df.filePath, df.isSrc.value).None? ==>
                ComponentTagged(this, old(df.componentNm))
    {
      if df.moduleNm.None? {
        var tagged := Tag();
        if tagged.Err? {
          return Err(tagged.error);
        }
      }
      return Ok(df);
    }
  }

  /** The ext and is_src columns `__tag` writes first, row by row. */
  ghost predicate Typed(t: CommitFilesTagger)
    reads t, t.df
    requires t.Valid()
  {
    var df := t.df;
    df.ext.Some? && df.isSrc.Some? &&
    forall i | 0 <= i < df.Rows() ::
      df.ext.value[i] == ExtOf(df.filePath[i]) &&
      df.isSrc.value[i] == UnderSrcPath(t.srcPath, df.filePath[i])
  }

  /** The first step of `__tag` that fails, if any: the component step (only with
      names), then the module step. */
  ghost function TagFailure(t: CommitFilesTagger): Option<TagError>
    reads t, t.df
    requires t.Valid() && Typed(t)
  {
    var df := t.df;
    var e := ComponentStepError(t.componentNms, t.componentDepth, df.filePath, df.isSrc.value);
    if e.Some? then e
    else if !HasSegmentColumn(df.filePath, df.isSrc.value, t.moduleDepth) then Some(NoSegmentColumn(t.moduleDepth))
    else None
  }

  /** The component column `__tag_component` leaves, row by row, when it held
      `before`; nothing is said without names and a depth. */
  ghost predicate ComponentTagged(t: CommitFilesTagger, before: Option<seq<string>>)
    reads t, t.df
    requires t.Valid()
  {
    var df := t.df;
    t.componentNms.Some? && t.componentDepth.Some? ==>
      df.isSrc.Some? && df.componentNm.Some? &&
      forall i | 0 <= i < df.Rows() ::
        df.componentNm.value[i] == t.ComponentCell(df.isSrc.value[i], df.filePath[i], before, i)
  }

  /** The module column `__tag_module` leaves, row by row, when it held `before`. */
  ghost predicate ModuleTagged(t: CommitFilesTagger, before: Option<seq<Option<string>>>)
    reads t, t.df
    requires t.Valid()
  {
    var df := t.df;
    df.isSrc.Some? && df.moduleNm.Some? &&
    forall i | 0 <= i < df.Rows() ::
      df.moduleNm.value[i] == t.ModuleCell(df.isSrc.value[i], df.filePath[i], before, i)
  }

  /** The is_src column of the analytics tagger for the paths. */
  function SourceFlags(srcPath: string, paths: seq<string>): (r: seq<bool>)
    ensures |r| == |paths|
    ensures forall i | 0 <= i < |paths| :: r[i] == UnderSrcPath(srcPath, paths[i])
  {
    seq(|paths|, i requires 0 <= i < |paths| => UnderSrcPath(srcPath, paths[i]))
  }

  /** Asking twice gives one answer: the second call returns the table as the first left
      it, and a tagging that fails fails again the same way. */
  method TaggedFilesTwice(df: CommitFilesFrame, srcPath: string, moduleDepth: nat,
                          componentNms: Option<seq<string>>, componentDepth: Option<nat>)
    returns (first: Result<seq<Option<string>>, TagError>, second: Result<seq<Option<string>>, TagError>)
    requires df.Valid() && df.moduleNm.None?
    modifies df`ext, df`isSrc, df`componentNm, df`moduleNm
    ensures first == second
    ensures first.Err? <==>
              ComponentStepError(componentNms, componentDepth, df.filePath, SourceFlags(srcPath, df.filePath)).Some? ||
              !HasSegmentColumn(df.filePath, SourceFlags(srcPath, df.filePath), moduleDepth)
    ensures first.Ok? ==>
              |first.value| == df.Rows() &&
              forall i | 0 <= i < |first.value| ::
                first.value[i] == (if UnderSrcPath(srcPath, df.filePath[i])
                                   then LowerModuleOf(Segment(df.filePath[i], moduleDepth),
                                                      componentNms.Some? && componentDepth == Some(moduleDepth),
                                                      componentNms.GetOr([]))
                                   else None)
  {
    var tagger := new CommitFilesTagger(df, srcPath, moduleDepth, componentNms, componentDepth);
    var r1 := tagger.GetTaggedFiles();
    assert df.isSrc.value == SourceFlags(srcPath, df.filePath);
    first := if r1.Ok? then Ok(df.moduleNm.value) else Err(r1.error);
    var r2 := tagger.GetTaggedFiles();
    assert df.isSrc.value == SourceFlags(srcPath, df.filePath);
    second := if r2.Ok? then Ok(df.moduleNm.value) else Err(r2.error);
  }
}

/** The expected rows of the tagger tests, as facts about the row rules. */
module AnalyticsTaggingExamples {
  import opened Wrappers
  import opened Text
  import opened PathTagging

  const ViewControlModel: seq<string> := ["view", "control", "model"]

  lemma InitialsOfNames()
    ensures Initials(ViewControlModel) == {'v', 'c', 'm'}
  {
    assert "view"[0] == 'v' && "control"[0] == 'c' && "model"[0] == 'm';
  }

  lemma SecondSegment(top: string, rest: string)
    requires '/' !in top && '/' !in rest
    ensures Segment(top + "/" + rest, 1) == Some(rest)
  {
    SplitFirstChar(top, '/', rest);
    NoCharNoContains(rest, "/");
    SplitAbsent(rest, "/");
  }

  lemma PathPieces()
    ensures "src/test_view.php" == "src/test_view" + "." + "php"
    ensures "src/test_view.php" == "src" + "/" + "test_view.php"
    ensures '/' !in "src" && '/' !in "test_view.php"
  {
  }

  lemma SegmentPieces()
    ensures ToLower("test_view.php") == "test_view.php"
    ensures "test_view.php" == "test_" + "view.php"
    ensures "test_view.php" == "test_view" + "." + "php"
    ensures "test_view" == "test_" + "view"
    ensures forall i | 0 <= i < |"test_"| :: "test_"[i] !in {'v', 'c', 'm'}
  {
  }

  lemma ViewFirst()
    ensures ("test_" + "view.php")[5..] == "view.php"
    ensures MatchAt("view.php", ViewControlModel) == Some(0)
    ensures MatchAt("view", ViewControlModel) == Some(0)
  {
    assert "view" <= "view.php";
  }

  lemma NamesNonEmpty()
    ensures forall a <- ViewControlModel :: |a| > 0
    ensures Alternatives(ViewControlModel) == ViewControlModel
  {
  }

  lemma TrailingUnderscore()
    ensures StripTrailingSep("test_") == "test"
  {
    assert "test_"[4] == '_';
    assert "test_"[..4] == "test";
  }

  /** `src/test_view.php` is a PHP file under `./src` whose second segment is
      `test_view.php`. */
  lemma TestViewPath()
    ensures ExtOf("src/test_view.php") == "php"
    ensures UnderSrcPath("./src", "src/test_view.php")
    ensures Segment("src/test_view.php", 1) == Some("test_view.php")
  {
    PathPieces();
    StripLangExtRoundTrip("src/test_view", "php");
    StripRootMarkerOnce("src");
    SecondSegment("src", "test_view.php");
  }

  lemma SearchTestView()
    ensures Search("test_view.php", ViewControlModel, 0) == Some((5, 0))
  {
    SegmentPieces();
    InitialsOfNames();
    NamesNonEmpty();
    SearchPastPrefix("test_", "view.php", ViewControlModel);
    ViewFirst();
  }

  /** With names view/control/model at depth 1, the component of `src/test_view.php`
      is `view`. */
  lemma TestViewComponent()
    ensures LowerComponentOf(Segment("src/test_view.php", 1), ViewControlModel) == "view"
  {
    TestViewPath();
    SegmentPieces();
    NamesNonEmpty();
    SearchTestView();
  }

  lemma TestViewStem()
    ensures StripLangExt(ToLower("test_view.php")) == "test_view"
  {
    SegmentPieces();
    StripLangExtRoundTrip("test_view", "php");
  }

  lemma RemoveView()
    ensures RemoveNames("view", ViewControlModel) == ""
  {
    calc {
      RemoveNames("view", ViewControlModel);
      { ViewFirst();
        NamesNonEmpty();
        NonEmptyAll(ViewControlModel); }
      RemoveNames("view"[4..], ViewControlModel);
      { assert "view"[4..] == ""; }
      RemoveNames("", ViewControlModel);
      "";
    }
  }

  lemma TestViewWithoutComponent()
    ensures RemoveNames("test_view", ViewControlModel) == "test_"
  {
    SegmentPieces();
    InitialsOfNames();
    RemoveNamesPastPrefix("test_", "view", ViewControlModel);
    RemoveView();
    assert "test_" + "" == "test_";
  }

  /** With component and module both at depth 1, the module of `src/test_view.php` is
      `test`: extension, component name and trailing `_` are removed. */
  lemma TestViewModule()
    ensures LowerModuleOf(Segment("src/test_view.php", 1), true, ViewControlModel) == Some("test")
  {
    TestViewPath();
    TestViewStem();
    NamesNonEmpty();
    TestViewWithoutComponent();
    TrailingUnderscore();
  }

  lemma ContactPieces()
    ensures "src/contact.php" == "src" + "/" + "contact.php"
    ensures '/' !in "src" && '/' !in "contact.php"
    ensures ToLower("contact.php") == "contact.php"
    ensures "contact.php" == "contact" + "." + "php"
  {
  }

  /** Without component names and with module depth 1, the module of
      `src/contact.php` is `contact`. */
  lemma ContactModule()
    ensures LowerModuleOf(Segment("src/contact.php", 1), false, []) == Some("contact")
  {
    ContactPieces();
    SecondSegment("src", "contact.php");
    StripLangExtRoundTrip("contact", "php");
  }
}

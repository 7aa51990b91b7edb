/** The per-path rules of the commit-file taggers (src/commit_files_tagging.py and
    git_analytics/commit_files_tagging.py): the language extension of a path, whether a
    path lies under the source directory, the path segment at a depth, the component
    name found in a segment and the module name drawn from a segment.  The regular
    expressions of the taggers are written out as functions on characters; component
    names are matched as literal text. */
module PathTagging {
  import opened Wrappers
  import opened Text

  /** The recognised languages, in the order the extension regex lists them. */
  const Langs: seq<string> := ["py", "php", "cpp", "cs", "java", "js", "ts", "csproj"]

  /** The tag given when nothing is recognised. */
  const Other: string := "other"

  /** How tagging fails: component names are configured without a component depth, or
      the split of the source rows has no segment column at the depth asked for; pandas
      raises while selecting the column in both cases. */
  datatype TagError = MissingComponentDepth | NoSegmentColumn(depth: nat)

  lemma LangsHaveNoDot()
    ensures forall l <- Langs :: '.' !in l && |l| > 0
  {
  }

  /** The dot of a recognised extension is the last dot of the path. */
  lemma DotBeforeExt(path: string, l: string)
    requires l in Langs && EndsWith(path, "." + l)
    ensures path[|path| - |l| - 1] == '.'
    ensures forall j | |path| - |l| <= j < |path| :: path[j] != '.'
  {
    LangsHaveNoDot();
    assert path[|path| - |l| - 1] == ("." + l)[0];
    forall j | |path| - |l| <= j < |path|
      ensures path[j] != '.'
    {
      assert path[j] == ("." + l)[j - (|path| - |l| - 1)];
    }
  }

  /** Two recognised extensions never end the same path: none contains a dot. */
  lemma ExtUnique(path: string, a: string, b: string)
    requires a in Langs && b in Langs
    requires EndsWith(path, "." + a) && EndsWith(path, "." + b)
    ensures a == b
  {
    DotBeforeExt(path, a);
    DotBeforeExt(path, b);
    if |a| != |b| {
      assert false;
    } else {
      assert "." + a == "." + b;
      assert a == ("." + a)[1..];
    }
  }

  /** The first of `langs` that ends `path` after a dot. */
  function FindLang(path: string, langs: seq<string>): (r: Option<string>)
    ensures r.Some? ==> r.value in langs && EndsWith(path, "." + r.value)
    ensures r.None? ==> forall l <- langs :: !EndsWith(path, "." + l)
  {
    if |langs| == 0 then None
    else if EndsWith(path, "." + langs[0]) then Some(langs[0])
    else FindLang(path, langs[1..])
  }

  /** The `ext` tag: the language whose `.lang` ends the path (case-sensitively),
      otherwise "other". */
  function ExtOf(path: string): (r: string)
    ensures r == Other || r in Langs
  {
    match FindLang(path, Langs)
    case Some(l) => l
    case None => Other
  }

  /** A language is the tag exactly when the path ends with its extension. */
  lemma ExtOfIff(path: string, l: string)
    requires l in Langs
    ensures ExtOf(path) == l <==> EndsWith(path, "." + l)
  {
    match FindLang(path, Langs)
    case Some(m) =>
      if EndsWith(path, "." + l) {
        ExtUnique(path, l, m);
      }
    case None =>
  }

  /** "other" is the tag exactly when no language ends the path. */
  lemma ExtOfOther(path: string)
    ensures ExtOf(path) == Other <==> forall l <- Langs :: !EndsWith(path, "." + l)
  {
    assert Other !in Langs;
  }

  /** The module name of a file-level segment: one trailing `.lang` removed. */
  function StripLangExt(segment: string): (r: string)
    ensures ExtOf(segment) == Other ==> r == segment
    ensures ExtOf(segment) != Other ==> r + "." + ExtOf(segment) == segment
  {
    match FindLang(segment, Langs)
    case Some(l) => segment[..|segment| - |l| - 1]
    case None => segment
  }

  /** Removing the extension inverts appending it. */
  lemma StripLangExtRoundTrip(base: string, l: string)
    requires l in Langs
    ensures ExtOf(base + "." + l) == l
    ensures StripLangExt(base + "." + l) == base
  {
    var s := base + "." + l;
    assert s[|s| - |"." + l|..] == "." + l;
    ExtOfIff(s, l);
    assert StripLangExt(s) + "." + l == base + "." + l;
    assert StripLangExt(s) == (StripLangExt(s) + "." + l)[..|StripLangExt(s)|];
  }

  /** `sub('^\./|^/', '', path)`: one leading `./` or `/` removed. */
  function StripRootMarker(path: string): (r: string)
    ensures r == path || "./" + r == path || "/" + r == path
  {
    if "./" <= path then path[2..]
    else if "/" <= path then path[1..]
    else path
  }

  lemma StripRootMarkerOnce(p: string)
    ensures StripRootMarker("./" + p) == p && StripRootMarker("/" + p) == p
    ensures !("./" <= p) && !("/" <= p) ==> StripRootMarker(p) == p
  {
    assert ("./" + p)[2..] == p;
    assert ("/" + p)[1..] == p;
    assert ("/" + p)[0] == '/';
  }

  /** The `is_src` test of git_analytics: the path starts with the cleaned source path. */
  predicate UnderSrcPath(srcPath: string, filePath: string)
  {
    StripRootMarker(srcPath) <= filePath
  }

  /** The `is_src` test of src: as above, except that a cleaned source path of `.`
      makes every path a source path. */
  predicate UnderSrcPathOrDot(srcPath: string, filePath: string)
  {
    StripRootMarker(srcPath) == "." || StripRootMarker(srcPath) <= filePath
  }

  /** `./src`, `/src` and `src` select the same files, namely those starting with
      `src`; a source path that is a root marker alone selects every file. */
  lemma SrcPathSpellings(p: string, filePath: string)
    requires !("./" <= p) && !("/" <= p)
    ensures UnderSrcPath("./" + p, filePath) <==> p <= filePath
    ensures UnderSrcPath("/" + p, filePath) <==> p <= filePath
    ensures UnderSrcPath(p, filePath) <==> p <= filePath
    ensures UnderSrcPath("./", filePath) && UnderSrcPath("/", filePath)
  {
    StripRootMarkerOnce(p);
    StripRootMarkerOnce("");
  }

  /** The two versions differ only on the source path `.` (or `./.`, `/.`). */
  lemma SrcVersionsAgree(srcPath: string, filePath: string)
    ensures StripRootMarker(srcPath) != "." ==>
              (UnderSrcPathOrDot(srcPath, filePath) <==> UnderSrcPath(srcPath, filePath))
    ensures StripRootMarker(srcPath) == "." ==>
              UnderSrcPathOrDot(srcPath, filePath) &&
              (UnderSrcPath(srcPath, filePath) <==> "." <= filePath)
  {
  }

  /** `str.split('/', expand=True).iloc[:, depth]` for one row: the segment at `depth`,
      or None when the path has fewer segments. */
  function Segment(path: string, depth: nat): (r: Option<string>)
    ensures r.Some? <==> depth < |Split(path, "/")|
    ensures r.Some? ==> r.value == Split(path, "/")[depth] && '/' !in r.value
  {
    var segments := Split(path, "/");
    SplitPiecesFree(path, "/");
    if depth < |segments| then
      assert !Contains(segments[depth], "/");
      NoSlash(segments[depth]);
      Some(segments[depth])
    else None
  }

  /** The width of `str.split('/', expand=True)` over the source rows: the most segments
      a source row has, 0 without one.  Only the source rows are split. */
  function SplitWidth(paths: seq<string>, isSrc: seq<bool>): nat
    requires |isSrc| == |paths|
  {
    if |paths| == 0 then 0
    else
      var rest := SplitWidth(paths[1..], isSrc[1..]);
      if isSrc[0] && |Split(paths[0], "/")| > rest then |Split(paths[0], "/")| else rest
  }

  /** Whether that split has a column `depth` for `iloc` to select; selecting a column
      past its width raises IndexError. */
  predicate HasSegmentColumn(paths: seq<string>, isSrc: seq<bool>, depth: nat)
    requires |isSrc| == |paths|
  {
    depth < SplitWidth(paths, isSrc)
  }

  /** Some source row has a segment at `depth`. */
  predicate SourceRowHasSegment(paths: seq<string>, isSrc: seq<bool>, depth: nat)
    requires |isSrc| == |paths|
  {
    exists i | 0 <= i < |paths| :: isSrc[i] && Segment(paths[i], depth).Some?
  }

  /** The column `depth` exists exactly when some source row has a segment there: the
      other rows do not count, and without a source row no column exists. */
  lemma {:induction false} SegmentColumnIffSourceRow(paths: seq<string>, isSrc: seq<bool>, depth: nat)
    requires |isSrc| == |paths|
    ensures HasSegmentColumn(paths, isSrc, depth) <==> SourceRowHasSegment(paths, isSrc, depth)
    decreases |paths|
  {
    if |paths| > 0 {
      SegmentColumnIffSourceRow(paths[1..], isSrc[1..], depth);
      if SourceRowHasSegment(paths[1..], isSrc[1..], depth) {
        var j :| 0 <= j < |paths| - 1 && isSrc[1..][j] && Segment(paths[1..][j], depth).Some?;
        assert isSrc[j + 1] && Segment(paths[j + 1], depth).Some?;
      }
      if SourceRowHasSegment(paths, isSrc, depth) {
        var i :| 0 <= i < |paths| && isSrc[i] && Segment(paths[i], depth).Some?;
        if i > 0 {
          assert isSrc[1..][i - 1] && Segment(paths[1..][i - 1], depth).Some?;
        }
      }
    }
  }

  /** The failure of the component step, if any: names without a depth, or no segment
      column at the component depth. */
  function ComponentStepError(names: Option<seq<string>>, depth: Option<nat>,
                              paths: seq<string>, isSrc: seq<bool>): Option<TagError>
    requires |isSrc| == |paths|
  {
    if names.None? then None
    else if depth.None? then Some(MissingComponentDepth)
    else if !HasSegmentColumn(paths, isSrc, depth.value) then Some(NoSegmentColumn(depth.value))
    else None
  }

  lemma NoSlash(s: string)
    requires !Contains(s, "/")
    ensures '/' !in s
  {
    ContainsAt(s, "/");
    forall i | 0 <= i < |s|
      ensures s[i] != '/'
    {
      assert [s[i]] <= s[i..];
    }
  }

  /** The alternatives of the regex `(n1|n2|...)` built by joining the names with `|`:
      joining no names leaves the single empty alternative.  Each alternative is matched
      as literal text: names are taken to hold no regex metacharacters. */
  function Alternatives(names: seq<string>): (r: seq<string>)
    ensures |r| > 0
    ensures |names| > 0 ==> r == names
  {
    if |names| == 0 then [""] else names
  }

  /** The first alternative, in list order, that matches at the start of `t`. */
  function MatchAt(t: string, alts: seq<string>): (r: Option<nat>)
    ensures r.Some? ==> r.value < |alts| && alts[r.value] <= t
    ensures r.Some? ==> forall k | 0 <= k < r.value :: !(alts[k] <= t)
    ensures r.None? ==> forall k | 0 <= k < |alts| :: !(alts[k] <= t)
  {
    if |alts| == 0 then None
    else if alts[0] <= t then Some(0)
    else match MatchAt(t, alts[1..])
         case Some(k) => Some(k + 1)
         case None => None
  }

  /** `re.search` of the alternation from position `from`: the leftmost position where
      some alternative matches, with the first matching alternative there. */
  function Search(s: string, alts: seq<string>, from: nat): (r: Option<(nat, nat)>)
    requires from <= |s|
    ensures r.Some? ==> from <= r.value.0 <= |s| && r.value.1 < |alts|
    ensures r.Some? ==> alts[r.value.1] <= s[r.value.0..]
    ensures r.Some? ==> forall k | 0 <= k < r.value.1 :: !(alts[k] <= s[r.value.0..])
    ensures r.Some? ==> forall j, k | from <= j < r.value.0 && 0 <= k < |alts| :: !(alts[k] <= s[j..])
    ensures r.None? ==> forall j, k | from <= j <= |s| && 0 <= k < |alts| :: !(alts[k] <= s[j..])
    decreases |s| - from
  {
    match MatchAt(s[from..], alts)
    case Some(k) => Some((from, k))
    case None => if from == |s| then None else Search(s, alts, from + 1)
  }

  /** Positions where no alternative matches are passed over by the search. */
  lemma {:induction false} SearchSkip(s: string, alts: seq<string>, from: nat, to: nat)
    requires from <= to <= |s|
    requires forall j | from <= j < to :: MatchAt(s[j..], alts).None?
    ensures Search(s, alts, from) == Search(s, alts, to)
    decreases |s| - from
  {
    if from < to {
      SearchSkip(s, alts, from + 1, to);
    }
  }

  /** A prefix none of whose characters starts a name is passed over by the search. */
  lemma SearchPastPrefix(p: string, r: string, alts: seq<string>)
    requires forall a <- alts :: |a| > 0
    requires forall i | 0 <= i < |p| :: p[i] !in Initials(alts)
    ensures Search(p + r, alts, 0) == Search(p + r, alts, |p|)
  {
    var s := p + r;
    forall j | 0 <= j < |p|
      ensures MatchAt(s[j..], alts).None?
    {
      forall k | 0 <= k < |alts|
        ensures !(alts[k] <= s[j..])
      {
        assert alts[k] in alts;
        assert s[j..][0] == p[j];
      }
    }
    SearchSkip(s, alts, 0, |p|);
  }

  /** The `component_nm` of a source row: the alternative the regex finds in the
      segment, or "other" when the segment is missing or nothing matches. */
  function ComponentOf(segment: Option<string>, names: seq<string>): (r: string)
    ensures segment.None? ==> r == Other
    ensures |names| > 0 ==> r == Other || r in names
  {
    match segment
    case None => Other
    case Some(t) =>
      var alts := Alternatives(names);
      match Search(t, alts, 0)
      case Some((_, k)) => alts[k]
      case None => Other
  }

  /** When no configured name occurs in the segment, the tag is "other". */
  lemma ComponentOfAbsent(t: string, names: seq<string>)
    requires |names| > 0
    requires forall n <- names :: !Contains(t, n)
    ensures ComponentOf(Some(t), names) == Other
  {
    if Search(t, names, 0).Some? {
      var k := Search(t, names, 0).value.1;
      ContainsAt(t, names[k]);
      assert false;
    }
  }

  /** Name `k` occurs at position `i` of `t`, no name occurs further left, and no name
      before it in list order occurs at `i`. */
  predicate LeftmostFirst(t: string, names: seq<string>, i: int, k: int)
  {
    0 <= i <= |t| && 0 <= k < |names| && names[k] <= t[i..] &&
    (forall j, m | 0 <= j < i && 0 <= m < |names| :: !(names[m] <= t[j..])) &&
    (forall m | 0 <= m < k :: !(names[m] <= t[i..]))
  }

  /** When some configured name occurs, the tag is a configured name occurring at the
      leftmost position where any name occurs, and the first in list order there. */
  lemma ComponentOfFound(t: string, names: seq<string>, n: string)
    requires n in names && Contains(t, n)
    ensures exists i, k :: LeftmostFirst(t, names, i, k) && ComponentOf(Some(t), names) == names[k]
  {
    assert Alternatives(names) == names;
    var r := Search(t, names, 0);
    assert r.Some? by {
      ContainsAt(t, n);
      var j :| 0 <= j <= |t| && n <= t[j..];
      var m :| 0 <= m < |names| && names[m] == n;
      assert names[m] <= t[j..];
    }
    var i, k := r.value.0, r.value.1;
    assert ComponentOf(Some(t), names) == names[k];
    assert LeftmostFirst(t, names, i, k);
  }

  /** The non-empty alternatives: an empty one never removes anything. */
  function NonEmpty(alts: seq<string>): (r: seq<string>)
    ensures forall a <- r :: |a| > 0 && a in alts
    ensures forall a <- alts :: |a| > 0 ==> a in r
  {
    if |alts| == 0 then []
    else if |alts[0]| > 0 then [alts[0]] + NonEmpty(alts[1..])
    else NonEmpty(alts[1..])
  }

  /** Without empty alternatives nothing is filtered out. */
  lemma {:induction false} NonEmptyAll(alts: seq<string>)
    requires forall a <- alts :: |a| > 0
    ensures NonEmpty(alts) == alts
  {
    if |alts| > 0 {
      assert |alts[0]| > 0 by {
        assert alts[0] in alts;
      }
      assert NonEmpty(alts[1..]) == alts[1..] by {
        assert forall a <- alts[1..] :: a in alts;
        NonEmptyAll(alts[1..]);
      }
      calc {
        NonEmpty(alts);
        [alts[0]] + NonEmpty(alts[1..]);
        [alts[0]] + alts[1..];
        { assert alts == [alts[0]] + alts[1..]; }
        alts;
      }
    }
  }

  /** `re.sub` of the alternation with '': scanning left to right, the first non-empty
      alternative matching at the current position is removed and the scan goes on after
      it; otherwise the character is kept. */
  function RemoveNames(s: string, alts: seq<string>): (r: string)
    ensures |r| <= |s|
    decreases |s|
  {
    if |s| == 0 then ""
    else
      var ne := NonEmpty(alts);
      match MatchAt(s, ne)
      case Some(k) => RemoveNames(s[|ne[k]|..], alts)
      case None =>
        [s[0]] + RemoveNames(s[1..], alts)
  }

  /** A segment in which no name occurs is left as it is. */
  lemma {:induction false} RemoveNamesAbsent(s: string, alts: seq<string>)
    requires forall a <- alts :: |a| > 0 ==> !Contains(s, a)
    ensures RemoveNames(s, alts) == s
    decreases |s|
  {
    if |s| > 0 {
      var ne := NonEmpty(alts);
      forall k | 0 <= k < |ne|
        ensures !(ne[k] <= s)
      {
        assert ne[k] in alts;
      }
      forall a <- alts | |a| > 0
        ensures !Contains(s[1..], a)
      {
      }
      RemoveNamesAbsent(s[1..], alts);
    }
  }

  /** The characters that start a non-empty alternative. */
  function Initials(alts: seq<string>): (r: set<char>)
    ensures forall a <- alts :: |a| > 0 ==> a[0] in r
  {
    set a <- alts | |a| > 0 :: a[0]
  }

  /** Where the first character starts no name, it is kept and the scan goes on after it. */
  lemma KeepsFirst(s: string, alts: seq<string>)
    requires |s| > 0 && s[0] !in Initials(alts)
    ensures RemoveNames(s, alts) == [s[0]] + RemoveNames(s[1..], alts)
  {
    var ne := NonEmpty(alts);
    forall k | 0 <= k < |ne|
      ensures !(ne[k] <= s)
    {
      assert ne[k] in alts;
    }
    assert MatchAt(s, ne).None?;
  }

  lemma ConsAppend(c: char, a: string, b: string)
    ensures [c] + (a + b) == ([c] + a) + b
  {
  }

  /** `KeepsFirst` on a text split in two. */
  lemma KeepsFirstOf(p: string, r: string, alts: seq<string>)
    requires |p| > 0 && p[0] !in Initials(alts)
    ensures RemoveNames(p + r, alts) == [p[0]] + RemoveNames(p[1..] + r, alts)
  {
    calc {
      RemoveNames(p + r, alts);
      { KeepsFirst(p + r, alts); }
      [p[0]] + RemoveNames((p + r)[1..], alts);
      { assert (p + r)[1..] == p[1..] + r; }
      [p[0]] + RemoveNames(p[1..] + r, alts);
    }
  }

  /** A prefix none of whose characters starts a name is kept as it is. */
  lemma {:induction false} RemoveNamesPastPrefix(p: string, r: string, alts: seq<string>)
    requires forall i | 0 <= i < |p| :: p[i] !in Initials(alts)
    ensures RemoveNames(p + r, alts) == p + RemoveNames(r, alts)
    decreases |p|
  {
    if |p| > 0 {
      calc {
        RemoveNames(p + r, alts);
        { KeepsFirstOf(p, r, alts); }
        [p[0]] + RemoveNames(p[1..] + r, alts);
        { RemoveNamesPastPrefix(p[1..], r, alts); }
        [p[0]] + (p[1..] + RemoveNames(r, alts));
        { ConsAppend(p[0], p[1..], RemoveNames(r, alts)); }
        ([p[0]] + p[1..]) + RemoveNames(r, alts);
        { assert [p[0]] + p[1..] == p; }
        p + RemoveNames(r, alts);
      }
    } else {
      assert p + r == r;
    }
  }

  /** With a single name, the removal is Python's `str.replace(name, '')`. */
  lemma {:induction false} RemoveNamesSingle(s: string, name: string)
    requires |name| > 0
    ensures RemoveNames(s, [name]) == Replace(s, name, "")
    decreases |s|
  {
    if |s| > 0 {
      assert NonEmpty([name]) == [name];
      if name <= s {
        RemoveNamesSingle(s[|name|..], name);
      } else {
        RemoveNamesSingle(s[1..], name);
      }
    }
  }

  /** `str.replace('(\.|_|-)$', '')`: one trailing separator removed. */
  function StripTrailingSep(s: string): (r: string)
    ensures |s| > 0 && s[|s| - 1] in "._-" ==> r + [s[|s| - 1]] == s
    ensures !(|s| > 0 && s[|s| - 1] in "._-") ==> r == s
  {
    if |s| > 0 && s[|s| - 1] in "._-" then s[..|s| - 1] else s
  }

  /** The module name of a source row of src: the segment at the module depth without
      its extension, and when component and module share a depth, without the component
      names and one trailing separator.  A missing segment gives no module name. */
  function ModuleOf(segment: Option<string>, aligned: bool, names: seq<string>): (r: Option<string>)
    ensures r.Some? <==> segment.Some?
    ensures segment.Some? && !aligned ==> r == Some(StripLangExt(segment.value))
  {
    match segment
    case None => None
    case Some(t) =>
      var m := StripLangExt(t);
      if aligned then Some(StripTrailingSep(RemoveNames(m, Alternatives(names)))) else Some(m)
  }

  /** The module name of a source row of git_analytics: the same, on the lowercased
      segment. */
  function LowerModuleOf(segment: Option<string>, aligned: bool, names: seq<string>): (r: Option<string>)
    ensures r.Some? <==> segment.Some?
    ensures segment.Some? && !aligned ==> r == Some(StripLangExt(ToLower(segment.value)))
  {
    match segment
    case None => None
    case Some(t) => ModuleOf(Some(ToLower(t)), aligned, names)
  }

  /** The component name of a source row of git_analytics: matched on the lowercased
      segment. */
  function LowerComponentOf(segment: Option<string>, names: seq<string>): (r: string)
    ensures segment.None? ==> r == Other
    ensures |names| > 0 ==> r == Other || r in names
  {
    match segment
    case None => Other
    case Some(t) => ComponentOf(Some(ToLower(t)), names)
  }
}

/** The rename resolution of src/data_preparation.py.  git prints a moved file as
    `prefix{old => new}suffix`, or, when the two paths share nothing, as `old => new`.
    The preparation extracts the four parts with a regular expression, rebuilds the old
    and the new path, writes the new path into the row that records the move, and then
    rewrites every row holding an old path to its (one step further) new path. */
module FileRenaming {
  import opened Wrappers
  import opened Text
  import opened Frames

  /** The separator git puts between the two sides of a rename. */
  const Arrow: string := " => "

  /** The character class `[A-z\./0-9\-_]`: the range A-z spans codes 65 to 122, so it
      also holds `[ \ ] ^ _` and the backquote, but not `{`, `}` or the space. */
  predicate InClass(c: char)
  {
    ('A' <= c <= 'z') || c == '.' || c == '/' || ('0' <= c <= '9') || c == '-' || c == '_'
  }

  predicate AllInClass(s: string)
  {
    forall k | 0 <= k < |s| :: InClass(s[k])
  }

  /** The end of the longest run of class characters starting at `i`. */
  function RunEnd(s: string, i: nat): (r: nat)
    requires i <= |s|
    ensures i <= r <= |s|
    decreases |s| - i
  {
    if i < |s| && InClass(s[i]) then RunEnd(s, i + 1) else i
  }

  predicate ArrowAt(s: string, i: nat)
  {
    i + |Arrow| <= |s| && s[i..i + |Arrow|] == Arrow
  }

  /** The four groups of the regex (prefix, the old part, the new part, suffix), and
      whether the `{` was matched. */
  datatype RenameMatch = RenameMatch(prefix: string, before: string, after: string, suffix: string, braced: bool)

  /** The new part (a run) after the arrow at `r`, and the suffix: the run after an
      optional `}`. */
  function Tail(s: string, r: nat): (string, string)
    requires r <= |s|
  {
    var t := RunEnd(s, r);
    if t < |s| && s[t] == '}' then (s[r..t], s[t + 1..RunEnd(s, t + 1)]) else (s[r..t], "")
  }

  /** The regex tried at position `p`.  The prefix group takes the whole run; the
      match then needs either `{`, a run and the arrow, or the arrow at once (every
      shorter prefix fails for the same reason the whole run does). */
  function RenameMatchAt(s: string, p: nat): Option<RenameMatch>
    requires p <= |s|
  {
    var q := RunEnd(s, p);
    if q < |s| && s[q] == '{' && ArrowAt(s, RunEnd(s, q + 1)) then
      var r := RunEnd(s, q + 1);
      var tail := Tail(s, r + |Arrow|);
      Some(RenameMatch(s[p..q], s[q + 1..r], tail.0, tail.1, true))
    else if ArrowAt(s, q) then
      var tail := Tail(s, q + |Arrow|);
      Some(RenameMatch(s[p..q], "", tail.0, tail.1, false))
    else None
  }

  /** `str.extract`: the match at the leftmost position where there is one. */
  function Extract(s: string, from: nat): Option<RenameMatch>
    requires from <= |s|
    decreases |s| - from
  {
    match RenameMatchAt(s, from)
    case Some(m) => Some(m)
    case None => if from == |s| then None else Extract(s, from + 1)
  }

  /** A path holding the arrow always matches: at the arrow itself if nowhere before. */
  lemma {:induction false} ArrowMatched(s: string, from: nat, i: nat)
    requires from <= i <= |s| && ArrowAt(s, i)
    ensures Extract(s, from).Some?
    decreases i - from
  {
    if from == i {
      assert s[i] == ' ';
      assert RunEnd(s, i) == i;
    } else if RenameMatchAt(s, from).None? {
      ArrowMatched(s, from + 1, i);
    }
  }

  lemma ContainsArrow(s: string)
    requires Contains(s, Arrow)
    ensures Extract(s, 0).Some?
  {
    ContainsAt(s, Arrow);
    var i :| 0 <= i <= |s| && Arrow <= s[i..];
    assert s[i..i + |Arrow|] == Arrow;
    ArrowMatched(s, 0, i);
  }

  /** The run is made of class characters and stops at the first other character. */
  lemma {:induction false} RunEndIsRun(s: string, i: nat)
    requires i <= |s|
    ensures forall k | i <= k < RunEnd(s, i) :: InClass(s[k])
    ensures RunEnd(s, i) == |s| || !InClass(s[RunEnd(s, i)])
    decreases |s| - i
  {
    if i < |s| && InClass(s[i]) {
      RunEndIsRun(s, i + 1);
    }
  }

  /** A run of class characters ends where the first other character stands. */
  lemma RunEndAt(s: string, i: nat, j: nat)
    requires i <= j <= |s|
    requires forall k | i <= k < j :: InClass(s[k])
    requires j == |s| || !InClass(s[j])
    ensures RunEnd(s, i) == j
    decreases j - i
  {
    if i < j {
      RunEndAt(s, i + 1, j);
    }
  }

  /** `handle_root_files` as written: an empty old part moves the prefix into it,
      unless the prefix holds a `/`. */
  function RootFiles(m: RenameMatch): (r: RenameMatch)
    ensures m.before == "" && '/' !in m.prefix ==> r.before == m.prefix && r.prefix == ""
    ensures !(m.before == "" && '/' !in m.prefix) ==> r == m
  {
    if m.before == "" && '/' !in m.prefix then m.(before := m.prefix, prefix := "") else m
  }

  /** The corrected rule: the brace-less form `old => new` always has its whole old
      path in the prefix group, wherever that path lies. */
  function RootFilesFixed(m: RenameMatch): (r: RenameMatch)
    ensures m.before == "" && (!m.braced || '/' !in m.prefix) ==> r.before == m.prefix && r.prefix == ""
    ensures !(m.before == "" && (!m.braced || '/' !in m.prefix)) ==> r == m
  {
    if m.before == "" && (!m.braced || '/' !in m.prefix) then m.(before := m.prefix, prefix := "") else m
  }

  /** One row of the path mapping: an old path and the path it became. */
  datatype PathUpdate = PathUpdate(oldPath: string, newPath: string)

  /** The old and the new path of a match, each with `//` collapsed to `/`. */
  function PathPair(m: RenameMatch): PathUpdate
  {
    PathUpdate(Replace(m.prefix + m.before + m.suffix, "//", "/"), Replace(m.prefix + m.after + m.suffix, "//", "/"))
  }

  /** The regex groups of a row recording a rename. */
  function RenameGroups(s: string): RenameMatch
    requires Contains(s, Arrow)
  {
    ContainsArrow(s);
    Extract(s, 0).value
  }

  /** The (old path, new path) pair of a row recording a rename, under the root-file
      rule as written. */
  function RenamePair(s: string): PathUpdate
    requires Contains(s, Arrow)
  {
    PathPair(RootFiles(RenameGroups(s)))
  }

  /** The same pair under the corrected root-file rule. */
  function RenamePairFixed(s: string): PathUpdate
    requires Contains(s, Arrow)
  {
    PathPair(RootFilesFixed(RenameGroups(s)))
  }

  lemma ArrowInside(a: string, b: string)
    ensures ArrowAt(a + Arrow + b, |a|) && Contains(a + Arrow + b, Arrow)
  {
    var s := a + Arrow + b;
    assert s[|a|..|a| + |Arrow|] == Arrow;
    assert Arrow <= s[|a|..];
    ContainsAt(s, Arrow);
  }

  /** A run of class characters `w` standing at `i` ends where `w` does. */
  lemma RunOver(s: string, i: nat, w: string)
    requires i + |w| <= |s| && s[i..i + |w|] == w && AllInClass(w)
    requires i + |w| == |s| || !InClass(s[i + |w|])
    ensures RunEnd(s, i) == i + |w|
  {
    forall k | i <= k < i + |w| ensures InClass(s[k]) {
      assert s[k] == w[k - i];
    }
    RunEndAt(s, i, i + |w|);
  }

  /** The brace-less form `a => b` gives prefix `a`, an empty old part and new part `b`. */
  lemma BracelessGroups(a: string, b: string)
    requires AllInClass(a) && AllInClass(b)
    ensures Contains(a + Arrow + b, Arrow)
    ensures RenameGroups(a + Arrow + b) == RenameMatch(a, "", b, "", false)
  {
    var s := a + Arrow + b;
    ArrowInside(a, b);
    assert s[0..|a|] == a;
    RunOver(s, 0, a);
    assert s[|a| + |Arrow|..|s|] == b;
    RunOver(s, |a| + |Arrow|, b);
    assert Tail(s, |a| + |Arrow|) == (b, "");
    assert RenameMatchAt(s, 0) == Some(RenameMatch(a, "", b, "", false));
  }

  /** `s` is laid out as `p{o => n}x`, read by position. */
  predicate BracedLayout(s: string, p: string, o: string, n: string, x: string)
  {
    var r := |p| + 1 + |o|;
    var t := r + |Arrow| + |n|;
    |s| == t + 1 + |x| && s[0..|p|] == p && s[|p|] == '{' && s[|p| + 1..r] == o &&
    ArrowAt(s, r) && s[r + |Arrow|..t] == n && s[t] == '}' && s[t + 1..|s|] == x
  }

  /** The runs of `s` end where those of `p{o => n}x` do. */
  predicate BracedRunEnds(s: string, p: string, o: string, n: string, x: string)
  {
    var r := |p| + 1 + |o|;
    var t := r + |Arrow| + |n|;
    |s| == t + 1 + |x| &&
    RunEnd(s, 0) == |p| && RunEnd(s, |p| + 1) == r && RunEnd(s, r + |Arrow|) == t && RunEnd(s, t + 1) == |s|
  }

  /** The parts of `p{o => n}x`, read back by position. */
  lemma BracedPieces(p: string, o: string, n: string, x: string, s: string)
    requires s == p + "{" + o + Arrow + n + "}" + x
    ensures BracedLayout(s, p, o, n, x)
  {
    var r := |p| + 1 + |o|;
    assert s[r..r + |Arrow|] == Arrow;
  }

  /** A path holding the arrow whose match starts at its first character. */
  lemma GroupsAtStart(s: string, r: nat)
    requires ArrowAt(s, r) && RenameMatchAt(s, 0).Some?
    ensures Contains(s, Arrow) && RenameGroups(s) == RenameMatchAt(s, 0).value
  {
    assert Arrow <= s[r..];
    ContainsAt(s, Arrow);
  }

  /** The groups after the arrow: a run closed by `}`, then the run after it. */
  lemma TailClosed(s: string, i: nat, t: nat)
    requires i <= t < |s| && RunEnd(s, i) == t && s[t] == '}' && RunEnd(s, t + 1) == |s|
    ensures Tail(s, i) == (s[i..t], s[t + 1..|s|])
  {
  }

  /** The braced branch of the match at the start of a path. */
  lemma BracedBranch(s: string, q: nat, r: nat)
    requires q < |s| && RunEnd(s, 0) == q && s[q] == '{' && RunEnd(s, q + 1) == r && ArrowAt(s, r)
    ensures RenameMatchAt(s, 0) ==
              Some(RenameMatch(s[0..q], s[q + 1..r], Tail(s, r + |Arrow|).0, Tail(s, r + |Arrow|).1, true))
  {
  }

  /** The match at the start of a path whose runs end where the braced form needs. */
  lemma BracedAt(s: string, q: nat, r: nat, t: nat)
    requires q < |s| && RunEnd(s, 0) == q && s[q] == '{'
    requires RunEnd(s, q + 1) == r && ArrowAt(s, r)
    requires RunEnd(s, r + |Arrow|) == t && t < |s| && s[t] == '}' && RunEnd(s, t + 1) == |s|
    ensures RenameMatchAt(s, 0) == Some(RenameMatch(s[0..q], s[q + 1..r], s[r + |Arrow|..t], s[t + 1..|s|], true))
  {
    BracedBranch(s, q, r);
    TailClosed(s, r + |Arrow|, t);
  }

  /** The runs of `p{o => n}x` end at the brace, the arrow, the brace and the end: one
      lemma per run. */
  lemma PrefixRun(p: string, o: string, n: string, x: string, s: string)
    requires AllInClass(p) && s == p + "{" + o + Arrow + n + "}" + x
    ensures RunEnd(s, 0) == |p|
  {
    forall k | 0 <= k < |p| ensures InClass(s[k]) {
      assert s[k] == p[k];
    }
    assert s[|p|] == '{';
    RunEndAt(s, 0, |p|);
  }

  lemma OldPartRun(p: string, o: string, n: string, x: string, s: string)
    requires AllInClass(o) && s == p + "{" + o + Arrow + n + "}" + x
    ensures RunEnd(s, |p| + 1) == |p| + 1 + |o|
  {
    var r := |p| + 1 + |o|;
    forall k | |p| + 1 <= k < r ensures InClass(s[k]) {
      assert s[k] == o[k - |p| - 1];
    }
    assert s[r] == ' ';
    RunEndAt(s, |p| + 1, r);
  }

  lemma NewPartRun(p: string, o: string, n: string, x: string, s: string)
    requires AllInClass(n) && s == p + "{" + o + Arrow + n + "}" + x
    ensures RunEnd(s, |p| + 1 + |o| + |Arrow|) == |p| + 1 + |o| + |Arrow| + |n|
  {
    var i := |p| + 1 + |o| + |Arrow|;
    var t := i + |n|;
    forall k | i <= k < t ensures InClass(s[k]) {
      assert s[k] == n[k - i];
    }
    assert s[t] == '}';
    RunEndAt(s, i, t);
  }

  lemma SuffixRun(s: string, i: nat, x: string)
    requires AllInClass(x) && i <= |s| && s[i..|s|] == x
    ensures RunEnd(s, i) == |s|
  {
    forall k | i <= k < |s| ensures InClass(s[k]) {
      assert s[k] == x[k - i];
    }
    RunEndAt(s, i, |s|);
  }

  /** The runs of a path holding `p{o => n}x`, each part being all class characters. */
  lemma BracedRuns(p: string, o: string, n: string, x: string, s: string)
    requires AllInClass(p) && AllInClass(o) && AllInClass(n) && AllInClass(x)
    requires s == p + "{" + o + Arrow + n + "}" + x
    requires BracedLayout(s, p, o, n, x)
    ensures BracedRunEnds(s, p, o, n, x)
  {
    PrefixRun(p, o, n, x, s);
    OldPartRun(p, o, n, x, s);
    NewPartRun(p, o, n, x, s);
    SuffixRun(s, |p| + 1 + |o| + |Arrow| + |n| + 1, x);
  }

  /** A path whose pieces and runs are those of the braced form gives those pieces. */
  lemma BracedMatch(s: string, p: string, o: string, n: string, x: string)
    requires BracedLayout(s, p, o, n, x) && BracedRunEnds(s, p, o, n, x)
    ensures Contains(s, Arrow) && RenameGroups(s) == RenameMatch(p, o, n, x, true)
  {
    var r := |p| + 1 + |o|;
    var t := r + |Arrow| + |n|;
    BracedAt(s, |p|, r, t);
    GroupsAtStart(s, r);
  }

  /** The braced form `p{o => n}x` gives its four parts. */
  lemma BracedGroups(p: string, o: string, n: string, x: string)
    requires AllInClass(p) && AllInClass(o) && AllInClass(n) && AllInClass(x)
    ensures Contains(p + "{" + o + Arrow + n + "}" + x, Arrow)
    ensures RenameGroups(p + "{" + o + Arrow + n + "}" + x) == RenameMatch(p, o, n, x, true)
  {
    var s := p + "{" + o + Arrow + n + "}" + x;
    BracedPieces(p, o, n, x, s);
    BracedRuns(p, o, n, x, s);
    BracedMatch(s, p, o, n, x);
  }

  /** The pair of a match whose whole old path is its old part. */
  lemma WholePaths(o: string, n: string)
    requires !Contains(o, "//") && !Contains(n, "//")
    ensures PathPair(RenameMatch("", o, n, "", false)) == PathUpdate(o, n)
  {
    assert "" + o + "" == o && "" + n + "" == n;
    ReplaceAbsent(o, "//", "/");
    ReplaceAbsent(n, "//", "/");
  }

  /** The corrected rule maps a brace-less `a => b` to the pair (a, b) wherever `a` lies. */
  lemma BracelessRename(a: string, b: string)
    requires AllInClass(a) && AllInClass(b)
    requires !Contains(a, "//") && !Contains(b, "//")
    ensures Contains(a + Arrow + b, Arrow)
    ensures RenamePairFixed(a + Arrow + b) == PathUpdate(a, b)
  {
    BracelessGroups(a, b);
    assert RootFilesFixed(RenameMatch(a, "", b, "", false)) == RenameMatch("", a, b, "", false);
    WholePaths(a, b);
  }

  /** As written, a brace-less `a => b` whose old path `a` holds a `/` gets the new path
      `a + b`, not `b`: "src/app.py => app.py" becomes "src/app.pyapp.py". */
  lemma BracelessRenameAsWritten(a: string, b: string)
    requires AllInClass(a) && AllInClass(b)
    requires '/' in a && !Contains(a + b, "//")
    ensures Contains(a + Arrow + b, Arrow)
    ensures RenamePair(a + Arrow + b) == PathUpdate(a, a + b)
    ensures RenamePair(a + Arrow + b).newPath != RenamePairFixed(a + Arrow + b).newPath
  {
    BracelessGroups(a, b);
    var m := RenameMatch(a, "", b, "", false);
    assert RootFiles(m) == m;
    assert a + "" + "" == a && a + b + "" == a + b;
    NotContainsPrefix(a, b, "//");
    NotContainsSuffix(a + b, |a|, "//");
    assert (a + b)[|a|..] == b;
    ReplaceAbsent(a, "//", "/");
    ReplaceAbsent(a + b, "//", "/");
    BracelessRename(a, b);
    assert |a + b| != |b|;
  }

  /** The root-file case as the source means it: a brace-less rename of a file at the
      root, `a => b` with no `/` in `a`, maps `a` to `b` under both rules. */
  lemma RootFileRename(a: string, b: string)
    requires AllInClass(a) && AllInClass(b) && '/' !in a
    requires !Contains(b, "//")
    ensures Contains(a + Arrow + b, Arrow)
    ensures RenamePair(a + Arrow + b) == RenamePairFixed(a + Arrow + b) == PathUpdate(a, b)
  {
    BracelessGroups(a, b);
    NoCharNoContains(a, "//");
    BracelessRename(a, b);
    var m := RenameMatch(a, "", b, "", false);
    assert RootFiles(m) == RootFilesFixed(m);
  }

  /** A braced rename with a non-empty old part, or a prefix holding a `/`, is rebuilt as
      prefix + part + suffix on each side, under both rules. */
  lemma BracedRename(p: string, o: string, n: string, x: string)
    requires AllInClass(p) && AllInClass(o) && AllInClass(n) && AllInClass(x)
    requires o != "" || '/' in p
    ensures Contains(p + "{" + o + Arrow + n + "}" + x, Arrow)
    ensures RenamePair(p + "{" + o + Arrow + n + "}" + x) == RenamePairFixed(p + "{" + o + Arrow + n + "}" + x)
    ensures RenamePair(p + "{" + o + Arrow + n + "}" + x) ==
            PathUpdate(Replace(p + o + x, "//", "/"), Replace(p + n + x, "//", "/"))
  {
    BracedGroups(p, o, n, x);
  }

  /** Collapsing `//` passes over a text without `/`. */
  lemma {:induction false} ReplaceSlashFree(a: string, z: string)
    requires '/' !in a
    ensures Replace(a + z, "//", "/") == a + Replace(z, "//", "/")
    decreases |a|
  {
    if |a| > 0 {
      assert (a + z)[0] == a[0];
      assert !("//" <= a + z);
      assert (a + z)[1..] == a[1..] + z;
      ReplaceSlashFree(a[1..], z);
      assert [a[0]] + a[1..] == a;
    } else {
      assert a + z == z;
    }
  }

  /** A leading `//` collapses to one `/`. */
  lemma CollapseLeading(z: string)
    ensures Replace("//" + z, "//", "/") == "/" + Replace(z, "//", "/")
  {
    assert "//" <= "//" + z;
    assert ("//" + z)[2..] == z;
  }

  /** The old side of an inserted directory: `d//f` collapses to `d/f`. */
  lemma CollapseEmptyPart(d: string, f: string)
    requires '/' !in d && '/' !in f
    ensures Replace((d + "/") + "" + ("/" + f), "//", "/") == d + "/" + f
  {
    NoCharNoContains(f, "//");
    calc {
      Replace((d + "/") + "" + ("/" + f), "//", "/");
      { assert (d + "/") + "" + ("/" + f) == d + ("//" + f); }
      Replace(d + ("//" + f), "//", "/");
      { ReplaceSlashFree(d, "//" + f); }
      d + Replace("//" + f, "//", "/");
      { CollapseLeading(f); ReplaceAbsent(f, "//", "/"); }
      d + ("/" + f);
    }
    assert d + ("/" + f) == d + "/" + f;
  }

  /** A `/` not followed by another is kept. */
  lemma CollapseSingle(z: string)
    requires z == "" || z[0] != '/'
    ensures Replace("/" + z, "//", "/") == "/" + Replace(z, "//", "/")
  {
    assert !("//" <= "/" + z) by {
      if |z| > 0 {
        assert ("/" + z)[1] == z[0];
      }
    }
    assert ("/" + z)[1..] == z;
  }

  /** The new side of an inserted directory: `d/m/f` has no `//` to collapse. */
  lemma CollapseNothing(d: string, m: string, f: string)
    requires '/' !in d && '/' !in m && '/' !in f && m != ""
    ensures Replace((d + "/") + m + ("/" + f), "//", "/") == d + "/" + m + "/" + f
  {
    NoCharNoContains(f, "//");
    calc {
      Replace((d + "/") + m + ("/" + f), "//", "/");
      { assert (d + "/") + m + ("/" + f) == d + ("/" + (m + ("/" + f))); }
      Replace(d + ("/" + (m + ("/" + f))), "//", "/");
      { ReplaceSlashFree(d, "/" + (m + ("/" + f))); }
      d + Replace("/" + (m + ("/" + f)), "//", "/");
      { assert (m + ("/" + f))[0] == m[0]; CollapseSingle(m + ("/" + f)); }
      d + ("/" + Replace(m + ("/" + f), "//", "/"));
      { ReplaceSlashFree(m, "/" + f); }
      d + ("/" + (m + Replace("/" + f, "//", "/")));
      { CollapseSingle(f); ReplaceAbsent(f, "//", "/"); }
      d + ("/" + (m + ("/" + f)));
    }
    assert d + ("/" + (m + ("/" + f))) == d + "/" + m + "/" + f;
  }

  /** The inserted-directory example: `d/{ => m}/f` moves `d/f` to `d/m/f`, the empty
      old part leaving a `//` that the collapse removes. */
  lemma InsertedDirectory(d: string, m: string, f: string)
    requires AllInClass(d) && AllInClass(m) && AllInClass(f)
    requires '/' !in d && '/' !in m && '/' !in f && m != ""
    ensures Contains(d + "/{" + Arrow + m + "}/" + f, Arrow)
    ensures RenamePair(d + "/{" + Arrow + m + "}/" + f) == PathUpdate(d + "/" + f, d + "/" + m + "/" + f)
  {
    var p, x := d + "/", "/" + f;
    assert d + "/{" + Arrow + m + "}/" + f == p + "{" + "" + Arrow + m + "}" + x;
    assert AllInClass(p) && AllInClass(x) by { assert InClass('/'); }
    assert '/' in p by { assert p[|d|] == '/'; }
    BracedRename(p, "", m, x);
    CollapseEmptyPart(d, f);
    CollapseNothing(d, m, f);
  }

  /** `handle_root_files`, on the local mapping table in place. */
  method HandleRootFiles(mapping: array<RenameMatch>)
    modifies mapping
    ensures forall k | 0 <= k < mapping.Length :: mapping[k] == RootFiles(old(mapping[k]))
  {
    forall k | 0 <= k < mapping.Length {
      mapping[k] := RootFiles(mapping[k]);
    }
  }

  /** The indices of the rows whose path records a rename, in row order. */
  function RenameRows(paths: seq<string>): (r: seq<nat>)
    ensures forall k | 0 <= k < |r| :: r[k] < |paths| && Contains(paths[r[k]], Arrow)
    ensures Increasing(r)
    ensures forall i | 0 <= i < |paths| && Contains(paths[i], Arrow) :: i in r
    decreases |paths|
  {
    if |paths| == 0 then []
    else RenameRows(paths[..|paths| - 1]) + (if Contains(paths[|paths| - 1], Arrow) then [|paths| - 1] else [])
  }

  predicate Increasing(rows: seq<nat>)
  {
    forall k, l | 0 <= k < l < |rows| :: rows[k] < rows[l]
  }

  /** `.loc[rows, col] = values`: each listed row receives its value, the rest keep theirs. */
  function Scatter(paths: seq<string>, rows: seq<nat>, values: seq<string>): (r: seq<string>)
    requires |rows| == |values| && forall k | 0 <= k < |rows| :: rows[k] < |paths|
    ensures |r| == |paths|
    ensures forall i | 0 <= i < |paths| && i !in rows :: r[i] == paths[i]
    ensures Increasing(rows) ==> forall k | 0 <= k < |rows| :: r[rows[k]] == values[k]
    decreases |rows|
  {
    if |rows| == 0 then paths
    else Scatter(paths[rows[0] := values[0]], rows[1..], values[1..])
  }

  /** `set_new_file_path_on_update`: every row of the mapping takes its new path in place;
      the other rows, and every other column, are left alone. */
  method SetNewFilePathOnUpdate(df: CommitFilesFrame, rows: seq<nat>, updates: seq<PathUpdate>)
    requires df.Valid() && |rows| == |updates| && Increasing(rows)
    requires forall k | 0 <= k < |rows| :: rows[k] < df.Rows()
    modifies df`filePath
    ensures df.Valid() && df.Rows() == old(df.Rows())
    ensures forall k | 0 <= k < |rows| :: df.filePath[rows[k]] == updates[k].newPath
    ensures forall i | 0 <= i < df.Rows() && i !in rows :: df.filePath[i] == old(df.filePath[i])
  {
    var values := seq(|updates|, k requires 0 <= k < |updates| => updates[k].newPath);
    df.filePath := Scatter(df.filePath, rows, values);
  }

  /** `drop_duplicates`: the distinct pairs, each where it first occurs. */
  function DropDuplicates(updates: seq<PathUpdate>): seq<PathUpdate>
    decreases |updates|
  {
    if |updates| == 0 then []
    else
      var init := DropDuplicates(updates[..|updates| - 1]);
      var last := updates[|updates| - 1];
      if last in init then init else init + [last]
  }

  /** The deduplicated table holds the same pairs, each once. */
  lemma {:induction false} DropDuplicatesSpec(updates: seq<PathUpdate>)
    ensures forall u :: u in DropDuplicates(updates) <==> u in updates
    ensures forall k, l | 0 <= k < l < |DropDuplicates(updates)| :: DropDuplicates(updates)[k] != DropDuplicates(updates)[l]
    decreases |updates|
  {
    if |updates| > 0 {
      var init := updates[..|updates| - 1];
      DropDuplicatesSpec(init);
      assert updates == init + [updates[|updates| - 1]];
    }
  }

  /** The new paths of the pairs leaving `p`, in table order. */
  function Targets(right: seq<PathUpdate>, p: string): seq<string>
    decreases |right|
  {
    if |right| == 0 then []
    else
      var last := right[|right| - 1];
      Targets(right[..|right| - 1], p) + (if last.oldPath == p then [last.newPath] else [])
  }

  lemma {:induction false} TargetsSpec(right: seq<PathUpdate>, p: string)
    ensures forall t :: t in Targets(right, p) <==> PathUpdate(p, t) in right
    decreases |right|
  {
    if |right| > 0 {
      var init := right[..|right| - 1];
      TargetsSpec(init, p);
      assert right == init + [right[|right| - 1]];
    }
  }

  /** The rows a left merge makes of one left pair: one per pair leaving its new path,
      carrying that pair's new path, or the pair itself when none does. */
  function MergeRow(u: PathUpdate, right: seq<PathUpdate>): seq<PathUpdate>
  {
    var targets := Targets(right, u.newPath);
    if |targets| == 0 then [u]
    else seq(|targets|, k requires 0 <= k < |targets| => PathUpdate(u.oldPath, targets[k]))
  }

  /** A left pair keeps its old path; it is kept whole when no pair leaves its new path,
      and is otherwise redirected to the new paths of the pairs that do. */
  lemma MergeRowSpec(u: PathUpdate, right: seq<PathUpdate>)
    ensures |MergeRow(u, right)| >= 1
    ensures forall w | w in MergeRow(u, right) :: w.oldPath == u.oldPath
    ensures (forall t :: PathUpdate(u.newPath, t) !in right) ==> MergeRow(u, right) == [u]
    ensures (exists t :: PathUpdate(u.newPath, t) in right) ==>
              forall w | w in MergeRow(u, right) :: PathUpdate(u.newPath, w.newPath) in right
  {
    TargetsSpec(right, u.newPath);
    var targets := Targets(right, u.newPath);
    if |targets| > 0 {
      assert targets[0] in targets;
      forall w | w in MergeRow(u, right) ensures w.oldPath == u.oldPath && w.newPath in targets {
        var k :| 0 <= k < |targets| && MergeRow(u, right)[k] == w;
      }
    }
  }

  /** The left merge of the pairs on `new == old`, left order kept. */
  function MergeLeft(left: seq<PathUpdate>, right: seq<PathUpdate>): seq<PathUpdate>
    decreases |left|
  {
    if |left| == 0 then []
    else MergeLeft(left[..|left| - 1], right) + MergeRow(left[|left| - 1], right)
  }

  /** `handle_multi_renaming`: each distinct pair redirected one step along the table. */
  function HandleMultiRenaming(updates: seq<PathUpdate>): seq<PathUpdate>
  {
    MergeLeft(DropDuplicates(updates), updates)
  }

  /** `get_mapping_as_dict`: old path to new path, a later row overwriting an earlier one. */
  function MappingAsMap(updates: seq<PathUpdate>): map<string, string>
    decreases |updates|
  {
    if |updates| == 0 then map[]
    else
      var last := updates[|updates| - 1];
      MappingAsMap(updates[..|updates| - 1])[last.oldPath := last.newPath]
  }

  /** The dictionary's keys are the old paths of the table. */
  lemma {:induction false} MappingKeys(updates: seq<PathUpdate>)
    ensures MappingAsMap(updates).Keys == set u | u in updates :: u.oldPath
    decreases |updates|
  {
    if |updates| > 0 {
      var init := updates[..|updates| - 1];
      MappingKeys(init);
      assert updates == init + [updates[|updates| - 1]];
    }
  }

  /** For a repeated old path the last pair wins. */
  lemma {:induction false} MappingLastWins(updates: seq<PathUpdate>, k: nat)
    requires k < |updates|
    requires forall j | k < j < |updates| :: updates[j].oldPath != updates[k].oldPath
    ensures updates[k].oldPath in MappingAsMap(updates)
    ensures MappingAsMap(updates)[updates[k].oldPath] == updates[k].newPath
    decreases |updates|
  {
    if k < |updates| - 1 {
      var init := updates[..|updates| - 1];
      assert init[k] == updates[k];
      forall j | k < j < |init| ensures init[j].oldPath != init[k].oldPath {
        assert init[j] == updates[j];
      }
      MappingLastWins(init, k);
    }
  }

  /** An old path all of whose pairs agree on the new path maps to it. */
  lemma {:induction false} MappingAgreed(updates: seq<PathUpdate>, o: string, n: string)
    requires PathUpdate(o, n) in updates
    requires forall u | u in updates && u.oldPath == o :: u.newPath == n
    ensures o in MappingAsMap(updates) && MappingAsMap(updates)[o] == n
    decreases |updates|
  {
    var init := updates[..|updates| - 1];
    var last := updates[|updates| - 1];
    assert updates == init + [last];
    if last.oldPath != o {
      MappingAgreed(init, o, n);
    }
  }

  /** Every merged row comes from the merge of one left pair. */
  lemma {:induction false} MergeLeftHas(left: seq<PathUpdate>, right: seq<PathUpdate>, u: PathUpdate, w: PathUpdate)
    requires u in left && w in MergeRow(u, right)
    ensures w in MergeLeft(left, right)
    decreases |left|
  {
    var init := left[..|left| - 1];
    assert left == init + [left[|left| - 1]];
    if u != left[|left| - 1] {
      MergeLeftHas(init, right, u, w);
    }
  }

  /** When the merge of every left pair from `o` yields only `(o, v)`, so does the whole
      merge for `o`. */
  lemma {:induction false} MergeLeftRowsOf(left: seq<PathUpdate>, right: seq<PathUpdate>, o: string, v: string)
    requires forall u | u in left && u.oldPath == o :: forall w | w in MergeRow(u, right) :: w == PathUpdate(o, v)
    ensures forall w | w in MergeLeft(left, right) && w.oldPath == o :: w == PathUpdate(o, v)
    decreases |left|
  {
    if |left| > 0 {
      var init := left[..|left| - 1];
      var last := left[|left| - 1];
      assert left == init + [last];
      MergeLeftRowsOf(init, right, o, v);
    }
  }

  /** A pair whose new path no pair leaves is kept: an old path renamed to a single new
      path, itself never renamed, resolves to that new path. */
  lemma SingleRenameResolved(updates: seq<PathUpdate>, o: string, n: string)
    requires PathUpdate(o, n) in updates
    requires forall u | u in updates && u.oldPath == o :: u.newPath == n
    requires forall t :: PathUpdate(n, t) !in updates
    ensures o in MappingAsMap(HandleMultiRenaming(updates))
    ensures MappingAsMap(HandleMultiRenaming(updates))[o] == n
  {
    var u := PathUpdate(o, n);
    var left := DropDuplicates(updates);
    DropDuplicatesSpec(updates);
    MergeRowSpec(u, updates);
    MergeLeftRowsOf(left, updates, o, n);
    MergeLeftHas(left, updates, u, u);
    MappingAgreed(HandleMultiRenaming(updates), o, n);
  }

  /** A pair whose new path is another pair's old path is redirected to that pair's new
      path (one step only). */
  lemma ChainStep(updates: seq<PathUpdate>, o: string, n: string, n2: string)
    requires PathUpdate(o, n) in updates && PathUpdate(n, n2) in updates
    requires forall u | u in updates && u.oldPath == o :: u.newPath == n
    requires forall u | u in updates && u.oldPath == n :: u.newPath == n2
    ensures o in MappingAsMap(HandleMultiRenaming(updates))
    ensures MappingAsMap(HandleMultiRenaming(updates))[o] == n2
  {
    var u := PathUpdate(o, n);
    var left := DropDuplicates(updates);
    DropDuplicatesSpec(updates);
    MergeRowSpec(u, updates);
    var rows := MergeRow(u, updates);
    assert forall w | w in rows :: w == PathUpdate(o, n2);
    MergeLeftRowsOf(left, updates, o, n2);
    MergeLeftHas(left, updates, u, rows[0]);
    MappingAgreed(HandleMultiRenaming(updates), o, n2);
  }

  /** The dictionary has an entry for each old path of the table, and no other. */
  lemma ResolvedKeys(updates: seq<PathUpdate>)
    ensures MappingAsMap(HandleMultiRenaming(updates)).Keys == set u | u in updates :: u.oldPath
  {
    var left := DropDuplicates(updates);
    var merged := HandleMultiRenaming(updates);
    MappingKeys(merged);
    DropDuplicatesSpec(updates);
    forall w | w in merged ensures w.oldPath in set u | u in updates :: u.oldPath {
      MergeLeftFrom(left, updates, w);
      var u :| u in left && u.oldPath == w.oldPath;
    }
    forall u | u in updates ensures u.oldPath in set w | w in merged :: w.oldPath {
      var rows := MergeRow(u, updates);
      MergeRowSpec(u, updates);
      assert rows[0] in rows;
      MergeLeftHas(left, updates, u, rows[0]);
    }
  }

  /** A dictionary with the given keys and value at each key. */
  lemma MapByKeys(m: map<string, string>, expected: map<string, string>)
    requires m.Keys == expected.Keys
    requires forall k | k in expected :: m[k] == expected[k]
    ensures m == expected
  {
  }

  /** The dictionary's keys when the old paths of the table are those listed. */
  lemma OldPathsOf(updates: seq<PathUpdate>, olds: seq<string>)
    requires forall u | u in updates :: u.oldPath in olds
    requires forall o | o in olds :: exists u :: u in updates && u.oldPath == o
    ensures MappingAsMap(HandleMultiRenaming(updates)).Keys == set o | o in olds
  {
    ResolvedKeys(updates);
  }

  /** The v0 -> v1 -> v2 history, in any order and with any repetition: both old paths
      resolve to v2. */
  lemma ChainOfTwo(updates: seq<PathUpdate>, v0: string, v1: string, v2: string)
    requires v0 != v1 && v1 != v2 && v0 != v2
    requires PathUpdate(v0, v1) in updates && PathUpdate(v1, v2) in updates
    requires forall u | u in updates :: u == PathUpdate(v0, v1) || u == PathUpdate(v1, v2)
    ensures MappingAsMap(HandleMultiRenaming(updates)) == map[v0 := v2, v1 := v2]
  {
    KeysOfTwo(updates, v0, v1, v2);
    ChainStep(updates, v0, v1, v2);
    SingleRenameResolved(updates, v1, v2);
    MapByKeys(MappingAsMap(HandleMultiRenaming(updates)), map[v0 := v2, v1 := v2]);
  }

  lemma KeysOfTwo(updates: seq<PathUpdate>, v0: string, v1: string, v2: string)
    requires PathUpdate(v0, v1) in updates && PathUpdate(v1, v2) in updates
    requires forall u | u in updates :: u == PathUpdate(v0, v1) || u == PathUpdate(v1, v2)
    ensures MappingAsMap(HandleMultiRenaming(updates)).Keys == {v0, v1}
  {
    OldPathsOf(updates, [v0, v1]);
  }

  lemma KeysOfThree(updates: seq<PathUpdate>, v0: string, v1: string, v2: string, v3: string)
    requires PathUpdate(v0, v1) in updates && PathUpdate(v1, v2) in updates && PathUpdate(v2, v3) in updates
    requires forall u | u in updates :: u == PathUpdate(v0, v1) || u == PathUpdate(v1, v2) || u == PathUpdate(v2, v3)
    ensures MappingAsMap(HandleMultiRenaming(updates)).Keys == {v0, v1, v2}
  {
    OldPathsOf(updates, [v0, v1, v2]);
  }

  /** A longer history is followed one step only: v0 -> v1 -> v2 -> v3 leaves v0 at v2. */
  lemma ChainOfThree(updates: seq<PathUpdate>, v0: string, v1: string, v2: string, v3: string)
    requires v0 != v1 && v0 != v2 && v0 != v3 && v1 != v2 && v1 != v3 && v2 != v3
    requires PathUpdate(v0, v1) in updates && PathUpdate(v1, v2) in updates && PathUpdate(v2, v3) in updates
    requires forall u | u in updates :: u == PathUpdate(v0, v1) || u == PathUpdate(v1, v2) || u == PathUpdate(v2, v3)
    ensures MappingAsMap(HandleMultiRenaming(updates)) == map[v0 := v2, v1 := v3, v2 := v3]
  {
    KeysOfThree(updates, v0, v1, v2, v3);
    ChainStep(updates, v0, v1, v2);
    ChainStep(updates, v1, v2, v3);
    SingleRenameResolved(updates, v2, v3);
    MapByKeys(MappingAsMap(HandleMultiRenaming(updates)), map[v0 := v2, v1 := v3, v2 := v3]);
  }

  /** Every merged row starts from the old path of some left pair. */
  lemma {:induction false} MergeLeftFrom(left: seq<PathUpdate>, right: seq<PathUpdate>, w: PathUpdate)
    requires w in MergeLeft(left, right)
    ensures exists u :: u in left && u.oldPath == w.oldPath
    decreases |left|
  {
    var init := left[..|left| - 1];
    var last := left[|left| - 1];
    assert left == init + [last];
    if w !in MergeRow(last, right) {
      MergeLeftFrom(init, right, w);
    } else {
      MergeRowSpec(last, right);
    }
  }

  /** `Series.replace` with a dict: a whole value equal to a key becomes its value. */
  function Lookup(m: map<string, string>, v: string): string
  {
    if v in m then m[v] else v
  }

  function ReplaceValues(paths: seq<string>, m: map<string, string>): (r: seq<string>)
    ensures |r| == |paths|
    ensures forall i | 0 <= i < |paths| :: r[i] == Lookup(m, paths[i])
  {
    seq(|paths|, i requires 0 <= i < |paths| => Lookup(m, paths[i]))
  }

  /** The pairs of the rename rows, in row order. */
  function Updates(paths: seq<string>): (r: seq<PathUpdate>)
    ensures |r| == |RenameRows(paths)|
  {
    var rows := RenameRows(paths);
    seq(|rows|, k requires 0 <= k < |rows| => RenamePair(paths[rows[k]]))
  }

  /** The old-path to new-path dictionary the preparation applies to every row. */
  function ResolvedMapping(paths: seq<string>): map<string, string>
  {
    MappingAsMap(HandleMultiRenaming(Updates(paths)))
  }

  /** The pairs the mapping table yields once the root-file rule has run on each row. */
  lemma MappingTableUpdates(paths: seq<string>, fixed: seq<RenameMatch>)
    requires |fixed| == |RenameRows(paths)|
    requires forall k | 0 <= k < |fixed| :: fixed[k] == RootFiles(RenameGroups(paths[RenameRows(paths)[k]]))
    ensures seq(|fixed|, k requires 0 <= k < |fixed| => PathPair(fixed[k])) == Updates(paths)
  {
  }

  /** After the new paths are written, a rename row holds its new path and any other row
      its own path. */
  lemma UpdatedRows(paths: seq<string>, updated: seq<string>)
    requires |updated| == |paths|
    requires forall k | 0 <= k < |RenameRows(paths)| :: updated[RenameRows(paths)[k]] == Updates(paths)[k].newPath
    requires forall i | 0 <= i < |paths| && i !in RenameRows(paths) :: updated[i] == paths[i]
    ensures forall i | 0 <= i < |paths| && Contains(paths[i], Arrow) :: updated[i] == RenamePair(paths[i]).newPath
    ensures forall i | 0 <= i < |paths| && !Contains(paths[i], Arrow) :: updated[i] == paths[i]
  {
    var rows := RenameRows(paths);
    forall i | 0 <= i < |paths| && Contains(paths[i], Arrow) ensures updated[i] == RenamePair(paths[i]).newPath {
      var k :| 0 <= k < |rows| && rows[k] == i;
    }
  }

  /** The old and new path of every rename row: the regex groups of each row, the
      root-file rule applied to the table in place, and the paths rebuilt. */
  method PathMappingTable(paths: seq<string>) returns (updates: seq<PathUpdate>)
    ensures updates == Updates(paths)
  {
    var rows := RenameRows(paths);
    var mapping := new RenameMatch[|rows|](k requires 0 <= k < |rows| && rows[k] < |paths| && Contains(paths[rows[k]], Arrow) =>
                                             RenameGroups(paths[rows[k]]));
    HandleRootFiles(mapping);
    var fixed := mapping[..];
    updates := seq(|fixed|, k requires 0 <= k < |fixed| => PathPair(fixed[k]));
    MappingTableUpdates(paths, fixed);
  }

  /** `handle_file_renaming`: without any rename row the table is handed back as it is;
      otherwise every rename row first takes its new path, and then every path equal to
      a mapped old path takes the mapped one.  Rows, their order and the other columns
      are untouched. */
  method HandleFileRenaming(df: CommitFilesFrame) returns (r: CommitFilesFrame)
    requires df.Valid()
    modifies df`filePath
    ensures r == df && df.Valid() && df.Rows() == old(df.Rows())
    ensures (forall i | 0 <= i < df.Rows() :: !Contains(old(df.filePath[i]), Arrow)) ==> df.filePath == old(df.filePath)
    ensures forall i | 0 <= i < df.Rows() && Contains(old(df.filePath[i]), Arrow) ::
              df.filePath[i] == Lookup(ResolvedMapping(old(df.filePath)), RenamePair(old(df.filePath[i])).newPath)
    ensures forall i | 0 <= i < df.Rows() && !Contains(old(df.filePath[i]), Arrow) ::
              df.filePath[i] == Lookup(ResolvedMapping(old(df.filePath)), old(df.filePath[i]))
  {
    var paths := df.filePath;
    var rows := RenameRows(paths);
    if |rows| == 0 {
      return df;
    }
    var updates := PathMappingTable(paths);
    SetNewFilePathOnUpdate(df, rows, updates);
    UpdatedRows(paths, df.filePath);
    var pathMapping := MappingAsMap(HandleMultiRenaming(updates));
    df.filePath := ReplaceValues(df.filePath, pathMapping);
    r := df;
  }
}

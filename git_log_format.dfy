/** The text `git log --numstat --pretty=format:+++%H\t%ad\t%an\t%s` prints, built from
    the commits it describes, and the proof that the parse gives those commits back:
    one commit row per commit in log order, the subject's tabs turned into spaces, and
    one file row per numstat line, grouped by commit in log order. */
module GitLogFormat {
  import opened Wrappers
  import opened Text
  import opened GitLogParsing

  /** One numstat line: the inserted and deleted counts, absent for a binary file
      (git prints `-` for both), and the path. */
  datatype Stat = Stat(counts: Option<(nat, nat)>, path: string)

  datatype GitCommit = GitCommit(id: string, creationDt: string, authorNm: string, msg: string, stats: seq<Stat>)

  function StatLine(s: Stat): string
  {
    match s.counts
    case None => Join(["-", "-", s.path], "\t")
    case Some((inserted, deleted)) => Join([NatToString(inserted), NatToString(deleted), s.path], "\t")
  }

  function StatLines(stats: seq<Stat>): (r: seq<string>)
    ensures |r| == |stats|
  {
    seq(|stats|, i requires 0 <= i < |stats| => StatLine(stats[i]))
  }

  /** The header line: the four format fields separated by tabs. */
  function Header(c: GitCommit): string
  {
    Join([c.id, c.creationDt, c.authorNm, c.msg], "\t")
  }

  /** The lines of a block. A commit that changed files gives the header, one stat line
      per file and a last empty line, so every line ends in a newline. A commit without
      numstat lines (a merge, shown without a diff, or an empty commit) gives its header
      alone, with no newline after it. */
  function BlockLines(c: GitCommit): (r: seq<string>)
    ensures |r| > 0 && r[0] == Header(c)
  {
    if c.stats == [] then [Header(c)] else [Header(c)] + StatLines(c.stats) + [""]
  }

  /** What git prints after the marker for one commit. */
  function Block(c: GitCommit): string
  {
    Join(BlockLines(c), "\n")
  }

  /** The texts between markers: each block but the last is followed by a newline, which
      leaves a blank line after a commit's stat lines and ends the line of a header
      printed alone. */
  function Pieces(cs: seq<GitCommit>): (r: seq<string>)
    ensures |r| == |cs|
  {
    seq(|cs|, i requires 0 <= i < |cs| => if i < |cs| - 1 then Block(cs[i]) + "\n" else Block(cs[i]))
  }

  /** The whole text git prints for a history: a marker before every block. */
  function GitOutput(cs: seq<GitCommit>): string
  {
    if |cs| == 0 then "" else Marker + Join(Pieces(cs), Marker)
  }

  /** A commit without numstat lines prints as its header alone: a newline ends it when
      another commit follows, and nothing follows it when it is the last. */
  lemma HeaderOnlyOutput(c: GitCommit, d: GitCommit)
    requires c.stats == []
    ensures GitOutput([c]) == Marker + Header(c)
    ensures GitOutput([c, d]) == Marker + Header(c) + "\n" + Marker + Block(d)
  {
    assert Pieces([c, d]) == [Header(c) + "\n", Block(d)];
    assert Join([Header(c) + "\n", Block(d)], Marker) == Header(c) + "\n" + Marker + Block(d);
  }

  /** A header field or a path: a single line without tabs or the commit marker. */
  predicate PlainField(s: string)
  {
    '\t' !in s && '\n' !in s && !Contains(s, Marker)
  }

  /** What git output must satisfy for the format to be unambiguous; the subject line may
      hold tabs. */
  predicate WellFormed(c: GitCommit)
  {
    PlainField(c.id) && PlainField(c.creationDt) && PlainField(c.authorNm) &&
    '\n' !in c.msg && !Contains(c.msg, Marker) &&
    forall s <- c.stats :: PlainField(s.path)
  }

  function ExpectedCommit(c: GitCommit): Commit
  {
    Commit(c.id, Some(c.creationDt), Some(c.authorNm), Some(Replace(c.msg, "\t", " ")))
  }

  function ExpectedRow(id: string, s: Stat): FileRow
  {
    match s.counts
    case None => FileRow(id, s.path, 0, 0)
    case Some((inserted, deleted)) => FileRow(id, s.path, inserted, deleted)
  }

  /** The file rows of a history: each commit's rows in turn. */
  function ExpectedFiles(cs: seq<GitCommit>): seq<FileRow>
  {
    Flatten(seq(|cs|, i requires 0 <= i < |cs| => ExpectedRowsOf(cs[i].id, cs[i].stats)))
  }

  function ExpectedFields(c: GitCommit): seq<string>
  {
    [c.id, c.creationDt, c.authorNm, Replace(c.msg, "\t", " ")]
  }

  /** The header is the three plain fields and the subject, tab after tab. */
  lemma HeaderText(c: GitCommit)
    ensures Header(c) == c.id + ['\t'] + (c.creationDt + ['\t'] + (c.authorNm + ['\t'] + c.msg))
  {
    assert [c.id, c.creationDt, c.authorNm, c.msg] == [c.id] + [c.creationDt, c.authorNm, c.msg];
    assert [c.creationDt, c.authorNm, c.msg] == [c.creationDt] + [c.authorNm, c.msg];
    assert [c.authorNm, c.msg] == [c.authorNm] + [c.msg];
    JoinCons(c.id, [c.creationDt, c.authorNm, c.msg], "\t");
    JoinCons(c.creationDt, [c.authorNm, c.msg], "\t");
    JoinCons(c.authorNm, [c.msg], "\t");
  }

  /** Splitting a header at tabs: the three plain fields, then the pieces of the
      subject. */
  lemma HeaderSplit(c: GitCommit)
    requires WellFormed(c)
    ensures Split(Header(c), "\t") == [c.id, c.creationDt, c.authorNm] + Split(c.msg, "\t")
  {
    var tail := c.authorNm + ['\t'] + c.msg;
    calc {
      Split(Header(c), "\t");
      { HeaderText(c); }
      Split(c.id + ['\t'] + (c.creationDt + ['\t'] + tail), ['\t']);
      { SplitFirstChar(c.id, '\t', c.creationDt + ['\t'] + tail); }
      [c.id] + Split(c.creationDt + ['\t'] + tail, ['\t']);
      { SplitFirstChar(c.creationDt, '\t', tail); }
      [c.id] + ([c.creationDt] + Split(tail, ['\t']));
      { SplitFirstChar(c.authorNm, '\t', c.msg); }
      [c.id] + ([c.creationDt] + ([c.authorNm] + Split(c.msg, ['\t'])));
      [c.id, c.creationDt, c.authorNm] + Split(c.msg, "\t");
    }
  }

  /** A header splits into its four fields; tabs inside the subject come back as spaces. */
  lemma HeaderFields(c: GitCommit)
    requires WellFormed(c)
    ensures CommitInfo(Header(c)) == ExpectedFields(c)
  {
    var msgFields := Split(c.msg, "\t");
    var fields := [c.id, c.creationDt, c.authorNm] + msgFields;
    HeaderSplit(c);
    assert Join(msgFields, " ") == Replace(c.msg, "\t", " ") by {
      JoinSplitIsReplace(c.msg, "\t", " ");
    }
    assert fields[3..] == msgFields;
    if |msgFields| == 1 {
      assert Join(msgFields, " ") == msgFields[0];
    }
  }

  lemma DigitsHaveNo(n: nat, c: char)
    requires !IsDigit(c)
    ensures c !in NatToString(n)
  {
    var s := NatToString(n);
    forall i | 0 <= i < |s| ensures s[i] != c {
      assert IsDigit(s[i]);
    }
  }

  /** A numstat line splits back into its three fields. */
  lemma StatLineFields(s: Stat)
    requires PlainField(s.path)
    ensures s.counts.None? ==> Split(StatLine(s), "\t") == ["-", "-", s.path]
    ensures s.counts.Some? ==>
              Split(StatLine(s), "\t") == [NatToString(s.counts.value.0), NatToString(s.counts.value.1), s.path]
  {
    match s.counts
    case None =>
      SplitJoinChar(["-", "-", s.path], '\t');
    case Some((inserted, deleted)) =>
      DigitsHaveNo(inserted, '\t');
      DigitsHaveNo(deleted, '\t');
      SplitJoinChar([NatToString(inserted), NatToString(deleted), s.path], '\t');
  }

  /** A numstat line reads back as the row it stands for; `-` counts read as 0. */
  lemma StatLineRow(id: string, s: Stat)
    requires PlainField(s.path)
    ensures FileInfo(id, StatLine(s)) == Ok(ExpectedRow(id, s))
  {
    StatLineFields(s);
    match s.counts
    case None =>
    case Some((inserted, deleted)) =>
      var a := NatToString(inserted);
      assert a != "-" by {
        assert IsDigit(a[0]);
      }
      ParseNatToString(inserted);
      ParseNatToString(deleted);
  }

  function ExpectedRowsOf(id: string, stats: seq<Stat>): (r: seq<FileRow>)
    ensures |r| == |stats|
  {
    seq(|stats|, i requires 0 <= i < |stats| => ExpectedRow(id, stats[i]))
  }

  lemma StatLinesRows(id: string, stats: seq<Stat>)
    requires forall s <- stats :: PlainField(s.path)
    ensures FilesInfo(id, StatLines(stats)) == Ok(ExpectedRowsOf(id, stats))
  {
    var lines, rows := StatLines(stats), ExpectedRowsOf(id, stats);
    forall i | 0 <= i < |lines| ensures FileInfo(id, lines[i]) == Ok(rows[i]) {
      assert stats[i] in stats;
      StatLineRow(id, stats[i]);
    }
    FilesInfoAll(id, lines, rows);
  }

  /** A stat line whose path is plain holds no newline and no marker. */
  lemma StatLinePlain(s: Stat)
    requires PlainField(s.path)
    ensures '\n' !in StatLine(s) && !Contains(StatLine(s), Marker)
  {
    NoCharNoContains("-", Marker);
    match s.counts
    case None =>
      CharNotInJoin(["-", "-", s.path], "\t", '\n');
      NotContainsJoin(["-", "-", s.path], '\t', Marker);
    case Some((inserted, deleted)) =>
      var a, b := NatToString(inserted), NatToString(deleted);
      DigitsHaveNo(inserted, '\n');
      DigitsHaveNo(deleted, '\n');
      DigitsHaveNo(inserted, '+');
      DigitsHaveNo(deleted, '+');
      NoCharNoContains(a, Marker);
      NoCharNoContains(b, Marker);
      CharNotInJoin([a, b, s.path], "\t", '\n');
      NotContainsJoin([a, b, s.path], '\t', Marker);
  }

  lemma BlockLinesPlain(c: GitCommit)
    requires WellFormed(c)
    ensures forall l <- BlockLines(c) :: '\n' !in l && !Contains(l, Marker)
  {
    var fields := [c.id, c.creationDt, c.authorNm, c.msg];
    CharNotInJoin(fields, "\t", '\n');
    NotContainsJoin(fields, '\t', Marker);
    ShortNoContains("", Marker);
    forall l <- BlockLines(c) ensures '\n' !in l && !Contains(l, Marker) {
      if l in StatLines(c.stats) {
        var i :| 0 <= i < |c.stats| && StatLines(c.stats)[i] == l;
        assert c.stats[i] in c.stats;
        StatLinePlain(c.stats[i]);
      }
    }
  }

  /** Every block, followed by a newline, parses to its commit's fields and rows. After
      stat lines, the two empty lines the closing newlines leave are the two lines
      dropped; after a header printed alone, the one empty line is dropped and no row is
      left. */
  lemma BlockParses(c: GitCommit)
    requires WellFormed(c)
    ensures ParseChunk(Block(c) + "\n") == Ok((ExpectedFields(c), ExpectedRowsOf(c.id, c.stats)))
  {
    var lines := BlockLines(c) + [""];
    JoinSnoc(BlockLines(c), "", "\n");
    assert Block(c) + "\n" == Join(lines, "\n");
    BlockLinesPlain(c);
    SplitJoinChar(lines, '\n');
    if c.stats == [] {
      assert lines[1..] == [""];
    } else {
      assert lines[1..] == StatLines(c.stats) + ["", ""];
    }
    assert DropLastTwo(lines[1..]) == StatLines(c.stats);
    HeaderFields(c);
    StatLinesRows(c.id, c.stats);
  }

  /** No marker starts inside a block. Nor does one start inside the text made of a
      block, the newline after it and the first two characters of the next marker. */
  lemma NoMarkerInBlock(c: GitCommit)
    requires WellFormed(c)
    ensures !Contains(Block(c), Marker)
    ensures !Contains(Block(c) + "\n" + Marker[..|Marker| - 1], Marker)
  {
    BlockLinesPlain(c);
    NotContainsJoin(BlockLines(c), '\n', Marker);
    var lines := BlockLines(c) + ["++"];
    JoinSnoc(BlockLines(c), "++", "\n");
    assert Marker[..|Marker| - 1] == "++";
    ShortNoContains("++", Marker);
    NotContainsJoin(lines, '\n', Marker);
  }

  /** What follows a marker holds no marker, nor one starting before the next marker. */
  lemma PieceNoMarker(cs: seq<GitCommit>, i: nat)
    requires i < |cs| && WellFormed(cs[i])
    ensures i < |cs| - 1 ==> NoSepAcross(Pieces(cs)[i], Marker)
    ensures i == |cs| - 1 ==> !Contains(Pieces(cs)[i], Marker)
  {
    NoMarkerInBlock(cs[i]);
  }

  /** The text after each marker, in order. */
  lemma GitOutputSplit(cs: seq<GitCommit>)
    requires |cs| > 0 && forall c <- cs :: WellFormed(c)
    ensures Split(GitOutput(cs), Marker) == [""] + Pieces(cs)
  {
    var pieces := Pieces(cs);
    forall i | 0 <= i < |pieces| - 1 ensures NoSepAcross(pieces[i], Marker) {
      assert cs[i] in cs;
      PieceNoMarker(cs, i);
    }
    assert cs[|cs| - 1] in cs;
    PieceNoMarker(cs, |cs| - 1);
    SplitMarked(pieces, Marker);
  }

  function BlockChunks(cs: seq<GitCommit>): (r: seq<string>)
    ensures |r| == |cs|
  {
    seq(|cs|, i requires 0 <= i < |cs| => Block(cs[i]) + "\n")
  }

  function FieldRows(cs: seq<GitCommit>): (r: seq<seq<string>>)
    ensures |r| == |cs|
  {
    seq(|cs|, i requires 0 <= i < |cs| => ExpectedFields(cs[i]))
  }

  /** The blocks the parse works on are exactly the commits' blocks, each closed by its
      blank line: the newline added to the last block stands in for the blank line git
      does not print at the end. */
  lemma GitOutputChunks(cs: seq<GitCommit>)
    requires |cs| > 0 && forall c <- cs :: WellFormed(c)
    ensures Chunks(GitOutput(cs)) == Ok(BlockChunks(cs))
  {
    GitOutputSplit(cs);
    ChunksOfPieces(GitOutput(cs), Pieces(cs));
    PiecesClosed(cs);
  }

  /** The pieces with a newline after the last one are the blocks, each followed by a
      newline. */
  lemma PiecesClosed(cs: seq<GitCommit>)
    requires |cs| > 0
    ensures Pieces(cs)[..|cs| - 1] + [Pieces(cs)[|cs| - 1] + "\n"] == BlockChunks(cs)
  {
    var pieces, n := Pieces(cs), |cs|;
    var a, b := pieces[..n - 1] + [pieces[n - 1] + "\n"], BlockChunks(cs);
    forall i | 0 <= i < n ensures a[i] == b[i] {
      if i < n - 1 {
        assert a[i] == pieces[i];
      }
    }
  }

  lemma ChunksParse(cs: seq<GitCommit>)
    requires forall c <- cs :: WellFormed(c)
    ensures ParseChunks(BlockChunks(cs)) == Progress(FieldRows(cs), ExpectedFiles(cs), None)
  {
    var chunks, infos := BlockChunks(cs), FieldRows(cs);
    var rows := seq(|cs|, i requires 0 <= i < |cs| => ExpectedRowsOf(cs[i].id, cs[i].stats));
    forall i | 0 <= i < |cs| ensures ParseChunk(chunks[i]) == Ok((infos[i], rows[i])) {
      assert cs[i] in cs;
      BlockParses(cs[i]);
    }
    ParseChunksAll(chunks, infos, rows);
  }

  function ExpectedCommits(cs: seq<GitCommit>): (r: seq<Commit>)
    ensures |r| == |cs|
  {
    seq(|cs|, i requires 0 <= i < |cs| => ExpectedCommit(cs[i]))
  }

  /** Rows of four fields make a commit table without padding. */
  lemma FieldRowsTable(cs: seq<GitCommit>)
    requires |cs| > 0
    ensures CommitTable(FieldRows(cs)) == Ok(ExpectedCommits(cs))
  {
    var rows := FieldRows(cs);
    assert forall r <- rows :: |r| == 4;
    assert |rows[0]| == 4;
    assert MaxWidth(rows) == 4;
    var table := seq(|rows|, i requires 0 <= i < |rows| => Commit(rows[i][0], Cell(rows[i], 1), Cell(rows[i], 2), Cell(rows[i], 3)));
    assert CommitTable(rows) == Ok(table);
    forall i | 0 <= i < |cs| ensures table[i] == ExpectedCommits(cs)[i] {
      assert rows[i] == ExpectedFields(cs[i]);
    }
    assert table == ExpectedCommits(cs);
  }

  /** Parsing what git prints for a non-empty history gives back one commit row per
      commit, in log order, with tabs in the subject turned into spaces, and the file
      rows of every numstat line, grouped by commit in log order.  Nothing is lost at the
      end of the text. */
  lemma ParseGitOutput(cs: seq<GitCommit>)
    requires |cs| > 0 && forall c <- cs :: WellFormed(c)
    ensures ParseLogSpec(GitOutput(cs)) == Ok(ParsedLog(ExpectedCommits(cs), ExpectedFiles(cs)))
  {
    GitOutputChunks(cs);
    ChunksParse(cs);
    FieldRowsTable(cs);
    ParseLogOk(GitOutput(cs), BlockChunks(cs), FieldRows(cs), ExpectedFiles(cs), ExpectedCommits(cs));
  }

  /** A tab-prefixed text: the tab becomes a space and the rest is replaced in turn. */
  lemma ReplaceTab(z: string)
    ensures Replace("\t" + z, "\t", " ") == " " + Replace(z, "\t", " ")
  {
    assert "\t" <= "\t" + z && ("\t" + z)[1..] == z;
  }

  /** The tabs between three tab-free words become spaces. */
  lemma ReplaceTabs(w1: string, w2: string, w3: string)
    requires '\t' !in w1 && '\t' !in w2 && '\t' !in w3
    ensures Replace(w1 + "\t" + w2 + "\t" + w3, "\t", " ") == w1 + " " + w2 + " " + w3
  {
    calc {
      Replace(w1 + "\t" + w2 + "\t" + w3, "\t", " ");
      { assert w1 + "\t" + w2 + "\t" + w3 == w1 + ("\t" + (w2 + ("\t" + w3))); }
      Replace(w1 + ("\t" + (w2 + ("\t" + w3))), "\t", " ");
      { ReplacePastPrefix(w1, "\t" + (w2 + ("\t" + w3)), "\t", " "); ReplaceTab(w2 + ("\t" + w3)); }
      w1 + (" " + Replace(w2 + ("\t" + w3), "\t", " "));
      { ReplacePastPrefix(w2, "\t" + w3, "\t", " "); ReplaceTab(w3); }
      w1 + (" " + (w2 + (" " + Replace(w3, "\t", " "))));
      { NoCharNoContains(w3, "\t"); ReplaceAbsent(w3, "\t", " "); }
      w1 + (" " + (w2 + (" " + w3)));
      { assert w1 + (" " + (w2 + (" " + w3))) == w1 + " " + w2 + " " + w3; }
      w1 + " " + w2 + " " + w3;
    }
  }

  /** Tab-separated plain words make a subject git can print. */
  lemma TabbedWellFormed(id: string, dt: string, author: string, w1: string, w2: string, w3: string)
    requires PlainField(id) && PlainField(dt) && PlainField(author)
    requires PlainField(w1) && PlainField(w2) && PlainField(w3)
    ensures WellFormed(GitCommit(id, dt, author, w1 + "\t" + w2 + "\t" + w3, []))
  {
    NotContainsGlued(w1, '\t', w2, Marker);
    NotContainsGlued(w1 + "\t" + w2, '\t', w3, Marker);
  }

  /** A subject of three words separated by tabs, as in the tabbed-header example
      (`Add`, `README`, `ovidentia`), reads back as the words separated by spaces. */
  lemma TabbedSubject(id: string, dt: string, author: string, w1: string, w2: string, w3: string)
    requires PlainField(id) && PlainField(dt) && PlainField(author)
    requires PlainField(w1) && PlainField(w2) && PlainField(w3)
    ensures CommitInfo(Header(GitCommit(id, dt, author, w1 + "\t" + w2 + "\t" + w3, []))) ==
              [id, dt, author, w1 + " " + w2 + " " + w3]
  {
    var c := GitCommit(id, dt, author, w1 + "\t" + w2 + "\t" + w3, []);
    TabbedWellFormed(id, dt, author, w1, w2, w3);
    HeaderFields(c);
    ReplaceTabs(w1, w2, w3);
  }
}

/** The Python string operations the pipeline leans on, written out character by
    character: str.split, str.join, str.replace, str.startswith/endswith, the
    `in` operator on strings, ASCII str.lower and int() on plain decimal text. */
module Text {
  import opened Wrappers

  /** `sub in s`: some position of s starts with sub. */
  predicate Contains(s: string, sub: string)
    decreases |s|
  {
    sub <= s || (|s| > 0 && Contains(s[1..], sub))
  }

  /** An occurrence at a position makes the text contain the pattern. */
  lemma {:induction false} ContainsFrom(s: string, sub: string, i: nat)
    requires i <= |s| && sub <= s[i..]
    ensures Contains(s, sub)
    decreases i
  {
    if i > 0 {
      assert s[1..][i - 1..] == s[i..];
      ContainsFrom(s[1..], sub, i - 1);
    }
  }

  /** A text containing the pattern has it at some position. */
  lemma {:induction false} ContainsWitness(s: string, sub: string) returns (i: nat)
    requires Contains(s, sub)
    ensures i <= |s| && sub <= s[i..]
    decreases |s|
  {
    if sub <= s {
      i := 0;
    } else {
      var j := ContainsWitness(s[1..], sub);
      assert s[1..][j..] == s[j + 1..];
      i := j + 1;
    }
  }

  lemma ContainsAt(s: string, sub: string)
    ensures Contains(s, sub) <==> exists i :: 0 <= i <= |s| && sub <= s[i..]
  {
    if Contains(s, sub) {
      var i := ContainsWitness(s, sub);
    }
    if exists i :: 0 <= i <= |s| && sub <= s[i..] {
      var i :| 0 <= i <= |s| && sub <= s[i..];
      ContainsFrom(s, sub, i);
    }
  }

  /** A suffix of a string holds no occurrence that the string itself lacks. */
  lemma {:induction false} NotContainsSuffix(s: string, k: nat, sub: string)
    requires k <= |s|
    requires !Contains(s, sub)
    ensures !Contains(s[k..], sub)
    decreases k
  {
    if k > 0 {
      NotContainsSuffix(s[1..], k - 1, sub);
      assert s[1..][k - 1..] == s[k..];
    }
  }

  /** Python's s.split(sep) for a non-empty separator: the leftmost occurrence is
      cut first and the scan resumes right after it. */
  function Split(s: string, sep: string): (r: seq<string>)
    requires |sep| > 0
    ensures |r| >= 1
    decreases |s|
  {
    if |s| == 0 then [""]
    else if sep <= s then [""] + Split(s[|sep|..], sep)
    else
      var rest := Split(s[1..], sep);
      [[s[0]] + rest[0]] + rest[1..]
  }

  /** Python's sep.join(parts). */
  function Join(parts: seq<string>, sep: string): string
  {
    if |parts| == 0 then ""
    else if |parts| == 1 then parts[0]
    else parts[0] + sep + Join(parts[1..], sep)
  }

  /** Python's s.replace(pat, rep): every non-overlapping occurrence, left to right. */
  function Replace(s: string, pat: string, rep: string): string
    requires |pat| > 0
    decreases |s|
  {
    if |s| == 0 then ""
    else if pat <= s then rep + Replace(s[|pat|..], pat, rep)
    else [s[0]] + Replace(s[1..], pat, rep)
  }

  /** Number of separators Split cuts at (left to right, non-overlapping). */
  function Occurrences(s: string, sep: string): nat
    requires |sep| > 0
    decreases |s|
  {
    if |s| == 0 then 0
    else if sep <= s then 1 + Occurrences(s[|sep|..], sep)
    else Occurrences(s[1..], sep)
  }

  lemma JoinCons(a: string, parts: seq<string>, sep: string)
    requires |parts| >= 1
    ensures Join([a] + parts, sep) == a + sep + Join(parts, sep)
  {
    assert ([a] + parts)[1..] == parts;
  }

  lemma JoinHead(c: char, parts: seq<string>, sep: string)
    requires |parts| >= 1
    ensures Join([[c] + parts[0]] + parts[1..], sep) == [c] + Join(parts, sep)
  {
    if |parts| > 1 {
      assert ([[c] + parts[0]] + parts[1..])[1..] == parts[1..];
    }
  }

  /** Splitting and joining with the same separator gives the text back. */
  lemma {:induction false} SplitJoin(s: string, sep: string)
    requires |sep| > 0
    ensures Join(Split(s, sep), sep) == s
    decreases |s|
  {
    if |s| == 0 {
    } else if sep <= s {
      var rest := Split(s[|sep|..], sep);
      calc {
        Join(Split(s, sep), sep);
        Join([""] + rest, sep);
        { JoinCons("", rest, sep); }
        "" + sep + Join(rest, sep);
        { SplitJoin(s[|sep|..], sep); }
        "" + sep + s[|sep|..];
        { assert "" + sep == sep; }
        sep + s[|sep|..];
        s;
      }
    } else {
      var rest := Split(s[1..], sep);
      calc {
        Join(Split(s, sep), sep);
        Join([[s[0]] + rest[0]] + rest[1..], sep);
        { JoinHead(s[0], rest, sep); }
        [s[0]] + Join(rest, sep);
        { SplitJoin(s[1..], sep); }
        [s[0]] + s[1..];
        s;
      }
    }
  }

  /** Joining the pieces of a split with another string replaces every separator by it. */
  lemma {:induction false} JoinSplitIsReplace(s: string, sep: string, rep: string)
    requires |sep| > 0
    ensures Join(Split(s, sep), rep) == Replace(s, sep, rep)
    decreases |s|
  {
    if |s| == 0 {
    } else if sep <= s {
      var rest := Split(s[|sep|..], sep);
      calc {
        Join(Split(s, sep), rep);
        Join([""] + rest, rep);
        { JoinCons("", rest, rep); }
        "" + rep + Join(rest, rep);
        { JoinSplitIsReplace(s[|sep|..], sep, rep); }
        "" + rep + Replace(s[|sep|..], sep, rep);
        { assert "" + rep == rep; }
        rep + Replace(s[|sep|..], sep, rep);
        Replace(s, sep, rep);
      }
    } else {
      var rest := Split(s[1..], sep);
      calc {
        Join(Split(s, sep), rep);
        Join([[s[0]] + rest[0]] + rest[1..], rep);
        { JoinHead(s[0], rest, rep); }
        [s[0]] + Join(rest, rep);
        { JoinSplitIsReplace(s[1..], sep, rep); }
        [s[0]] + Replace(s[1..], sep, rep);
        Replace(s, sep, rep);
      }
    }
  }

  /** The split has one more piece than there are separators. */
  lemma {:induction false} SplitCount(s: string, sep: string)
    requires |sep| > 0
    ensures |Split(s, sep)| == Occurrences(s, sep) + 1
    decreases |s|
  {
    if |s| == 0 {
    } else if sep <= s {
      SplitCount(s[|sep|..], sep);
    } else {
      SplitCount(s[1..], sep);
    }
  }

  lemma {:induction false} SplitFirstIsPrefix(s: string, sep: string)
    requires |sep| > 0
    ensures Split(s, sep)[0] <= s
    decreases |s|
  {
    if |s| > 0 && !(sep <= s) {
      SplitFirstIsPrefix(s[1..], sep);
    }
  }

  /** No piece of a split contains the separator. */
  lemma {:induction false} SplitPiecesFree(s: string, sep: string)
    requires |sep| > 0
    ensures forall p <- Split(s, sep) :: !Contains(p, sep)
    decreases |s|
  {
    if |s| == 0 {
      assert !Contains("", sep);
    } else if sep <= s {
      SplitPiecesFree(s[|sep|..], sep);
      assert !Contains("", sep);
    } else {
      var rest := Split(s[1..], sep);
      SplitPiecesFree(s[1..], sep);
      SplitFirstIsPrefix(s[1..], sep);
      var head := [s[0]] + rest[0];
      assert head[1..] == rest[0];
      assert head <= s;
      assert !Contains(head, sep);
    }
  }

  /** When no separator starts inside `a`, the split of `a + sep + rest` begins with `a`. */
  lemma {:induction false} SplitFirst(a: string, sep: string, rest: string)
    requires |sep| > 0
    requires !Contains(a + sep[..|sep| - 1], sep)
    ensures Split(a + sep + rest, sep) == [a] + Split(rest, sep)
    decreases |a|
  {
    var s := a + sep + rest;
    if |a| == 0 {
      assert s == sep + rest;
      assert s[|sep|..] == rest;
    } else {
      assert !(sep <= s) by {
        var t := a + sep[..|sep| - 1];
        assert s[..|sep|] == t[..|sep|];
      }
      assert s[1..] == a[1..] + sep + rest;
      assert Split(a[1..] + sep + rest, sep) == [a[1..]] + Split(rest, sep) by {
        var t := a + sep[..|sep| - 1];
        NotContainsSuffix(t, 1, sep);
        assert t[1..] == a[1..] + sep[..|sep| - 1];
        SplitFirst(a[1..], sep, rest);
      }
      SplitStep(s, sep);
      assert [s[0]] + a[1..] == a;
    }
  }

  lemma SplitStep(s: string, sep: string)
    requires |sep| > 0 && |s| > 0 && !(sep <= s)
    ensures Split(s, sep) == [[s[0]] + Split(s[1..], sep)[0]] + Split(s[1..], sep)[1..]
  {
  }

  /** A text without the pattern is left unchanged by Replace. */
  lemma {:induction false} ReplaceAbsent(s: string, pat: string, rep: string)
    requires |pat| > 0
    requires !Contains(s, pat)
    ensures Replace(s, pat, rep) == s
    decreases |s|
  {
    if |s| > 0 {
      ReplaceAbsent(s[1..], pat, rep);
    }
  }

  /** Replace passes over a prefix that holds no first character of the pattern. */
  lemma {:induction false} ReplacePastPrefix(a: string, z: string, pat: string, rep: string)
    requires |pat| > 0 && pat[0] !in a
    ensures Replace(a + z, pat, rep) == a + Replace(z, pat, rep)
    decreases |a|
  {
    if |a| == 0 {
      assert a + z == z;
    } else {
      assert (a + z)[1..] == a[1..] + z;
      ReplacePastPrefix(a[1..], z, pat, rep);
      assert a == [a[0]] + a[1..];
    }
  }

  /** The split of a text without the separator is the text alone. */
  lemma {:induction false} SplitAbsent(s: string, sep: string)
    requires |sep| > 0
    requires !Contains(s, sep)
    ensures Split(s, sep) == [s]
    decreases |s|
  {
    if |s| > 0 {
      assert !(sep <= s);
      assert !Contains(s[1..], sep);
      SplitAbsent(s[1..], sep);
      assert s == [s[0]] + s[1..];
    }
  }

  /** A text lacking the first character of a pattern lacks the pattern. */
  lemma NoCharNoContains(s: string, pat: string)
    requires |pat| > 0 && pat[0] !in s
    ensures !Contains(s, pat)
  {
    ContainsAt(s, pat);
    forall i | 0 <= i <= |s| ensures !(pat <= s[i..]) {
      if i < |s| {
        assert s[i..][0] in s;
      }
    }
  }

  /** A prefix of a text holds no occurrence that the text lacks. */
  lemma NotContainsPrefix(a: string, b: string, pat: string)
    requires !Contains(a + b, pat)
    ensures !Contains(a, pat)
  {
    ContainsAt(a, pat);
    ContainsAt(a + b, pat);
    forall i | 0 <= i <= |a| ensures !(pat <= a[i..]) {
      assert (a + b)[i..] == a[i..] + b;
    }
  }

  /** An occurrence in `a + [c] + b` starting inside `a` and ending before `c` lies in `a`. */
  lemma GluedLeft(a: string, c: char, b: string, pat: string, i: nat)
    requires i + |pat| <= |a| && !Contains(a, pat)
    ensures !(pat <= (a + [c] + b)[i..])
  {
    ContainsAt(a, pat);
    var s := a + [c] + b;
    assert s[i..i + |pat|] == a[i..i + |pat|];
    assert !(pat <= a[i..]);
  }

  /** An occurrence in `a + [c] + b` starting after `c` lies in `b`. */
  lemma GluedRight(a: string, c: char, b: string, pat: string, i: nat)
    requires |a| < i <= |a| + 1 + |b| && !Contains(b, pat)
    ensures !(pat <= (a + [c] + b)[i..])
  {
    ContainsAt(b, pat);
    assert (a + [c] + b)[i..] == b[i - |a| - 1..];
  }

  /** An occurrence in `a + [c] + b` covering `c` would hold `c`. */
  lemma GluedMiddle(a: string, c: char, b: string, pat: string, i: nat)
    requires i <= |a| < i + |pat| && c !in pat
    ensures !(pat <= (a + [c] + b)[i..])
  {
    var s := a + [c] + b;
    if |pat| <= |s| - i {
      assert s[i..][|a| - i] == c;
      assert pat[|a| - i] in pat;
    }
  }

  /** Gluing two texts with a character foreign to the pattern creates no occurrence. */
  lemma NotContainsGlued(a: string, c: char, b: string, pat: string)
    requires c !in pat
    requires !Contains(a, pat) && !Contains(b, pat)
    ensures !Contains(a + [c] + b, pat)
  {
    var s := a + [c] + b;
    forall i | 0 <= i <= |s| ensures !(pat <= s[i..]) {
      if i + |pat| <= |a| {
        GluedLeft(a, c, b, pat, i);
      } else if i > |a| {
        GluedRight(a, c, b, pat, i);
      } else {
        GluedMiddle(a, c, b, pat, i);
      }
    }
    ContainsAt(s, pat);
  }

  /** A text shorter than the pattern cannot hold it. */
  lemma {:induction false} ShortNoContains(s: string, pat: string)
    requires |s| < |pat|
    ensures !Contains(s, pat)
    decreases |s|
  {
    if |s| > 0 {
      ShortNoContains(s[1..], pat);
    }
  }

  /** SplitFirst for a one-character separator absent from the first piece. */
  lemma SplitFirstChar(a: string, c: char, rest: string)
    requires c !in a
    ensures Split(a + [c] + rest, [c]) == [a] + Split(rest, [c])
  {
    NoCharNoContains(a, [c]);
    assert a + [c][..0] == a;
    SplitFirst(a, [c], rest);
  }

  lemma {:induction false} JoinSnoc(parts: seq<string>, x: string, sep: string)
    requires |parts| > 0
    ensures Join(parts + [x], sep) == Join(parts, sep) + sep + x
    decreases |parts|
  {
    if |parts| == 1 {
      assert parts + [x] == [parts[0]] + [x];
      JoinCons(parts[0], [x], sep);
    } else {
      JoinSnoc(parts[1..], x, sep);
      assert parts + [x] == [parts[0]] + (parts[1..] + [x]);
      JoinCons(parts[0], parts[1..] + [x], sep);
      JoinCons(parts[0], parts[1..], sep);
      assert parts == [parts[0]] + parts[1..];
    }
  }

  /** No separator starts inside `p`, nor across `p` and a separator after it. */
  predicate NoSepAcross(p: string, sep: string)
    requires |sep| > 0
  {
    !Contains(p + sep[..|sep| - 1], sep)
  }

  /** Splitting a join gives the parts back when no separator starts inside a part,
      nor inside a part and the separator that follows it. */
  lemma {:induction false} SplitJoinParts(parts: seq<string>, sep: string)
    requires |sep| > 0 && |parts| > 0
    requires forall i {:trigger NoSepAcross(parts[i], sep)} | 0 <= i < |parts| - 1 :: NoSepAcross(parts[i], sep)
    requires !Contains(parts[|parts| - 1], sep)
    ensures Split(Join(parts, sep), sep) == parts
    decreases |parts|
  {
    if |parts| == 1 {
      SplitAbsent(parts[0], sep);
    } else {
      var rest := parts[1..];
      forall i | 0 <= i < |rest| - 1 ensures NoSepAcross(rest[i], sep) {
        assert rest[i] == parts[i + 1];
        assert NoSepAcross(parts[i + 1], sep);
      }
      SplitJoinParts(rest, sep);
      assert NoSepAcross(parts[0], sep);
      assert parts == [parts[0]] + rest;
      JoinCons(parts[0], rest, sep);
      SplitFirst(parts[0], sep, Join(rest, sep));
    }
  }

  /** A separator before each part: splitting gives an empty first piece, then the
      parts. */
  lemma SplitMarked(parts: seq<string>, sep: string)
    requires |sep| > 0 && |parts| > 0
    requires forall i {:trigger NoSepAcross(parts[i], sep)} | 0 <= i < |parts| - 1 :: NoSepAcross(parts[i], sep)
    requires !Contains(parts[|parts| - 1], sep)
    ensures Split(sep + Join(parts, sep), sep) == [""] + parts
  {
    var all := [""] + parts;
    assert NoSepAcross("", sep) by {
      ShortNoContains("" + sep[..|sep| - 1], sep);
    }
    forall i | 0 <= i < |all| - 1 ensures NoSepAcross(all[i], sep) {
      if i > 0 {
        assert all[i] == parts[i - 1];
      }
    }
    assert all[|all| - 1] == parts[|parts| - 1];
    SplitJoinParts(all, sep);
    calc {
      Join(all, sep);
      { JoinCons("", parts, sep); }
      "" + sep + Join(parts, sep);
      { assert "" + sep == sep; }
      sep + Join(parts, sep);
    }
  }

  /** The same for a one-character separator that occurs in no part. */
  lemma SplitJoinChar(parts: seq<string>, c: char)
    requires |parts| > 0 && forall p <- parts :: c !in p
    ensures Split(Join(parts, [c]), [c]) == parts
  {
    forall i | 0 <= i < |parts| ensures NoSepAcross(parts[i], [c]) {
      assert parts[i] + [c][..0] == parts[i];
      assert parts[i] in parts;
      NoCharNoContains(parts[i], [c]);
    }
    assert parts[|parts| - 1] + [c][..0] == parts[|parts| - 1];
    SplitJoinParts(parts, [c]);
  }

  /** Joining pattern-free parts with a character foreign to the pattern creates no
      occurrence. */
  lemma {:induction false} NotContainsJoin(parts: seq<string>, c: char, pat: string)
    requires |pat| > 0 && c !in pat
    requires forall p <- parts :: !Contains(p, pat)
    ensures !Contains(Join(parts, [c]), pat)
    decreases |parts|
  {
    if |parts| == 0 {
      ShortNoContains("", pat);
    } else if |parts| == 1 {
      assert parts[0] in parts;
    } else {
      var rest := parts[1..];
      assert forall p <- rest :: p in parts;
      NotContainsJoin(rest, c, pat);
      assert parts[0] in parts;
      JoinCons(parts[0], rest, [c]);
      assert parts == [parts[0]] + rest;
      NotContainsGlued(parts[0], c, Join(rest, [c]), pat);
    }
  }

  /** A character found neither in the parts nor in the separator is not in their join. */
  lemma {:induction false} CharNotInJoin(parts: seq<string>, sep: string, c: char)
    requires c !in sep && forall p <- parts :: c !in p
    ensures c !in Join(parts, sep)
    decreases |parts|
  {
    if |parts| > 1 {
      var rest := parts[1..];
      assert forall p <- rest :: p in parts;
      CharNotInJoin(rest, sep, c);
      assert parts[0] in parts;
    } else if |parts| == 1 {
      assert parts[0] in parts;
    }
  }

  predicate EndsWith(s: string, suffix: string)
  {
    |suffix| <= |s| && s[|s| - |suffix|..] == suffix
  }

  predicate IsUpper(c: char)
  {
    'A' <= c <= 'Z'
  }

  /** str.lower() restricted to ASCII letters. */
  function ToLower(s: string): (r: string)
    ensures |r| == |s|
    ensures forall i :: 0 <= i < |s| ==> r[i] == if IsUpper(s[i]) then (s[i] as int + 32) as char else s[i]
  {
    seq(|s|, i requires 0 <= i < |s| => if IsUpper(s[i]) then (s[i] as int + 32) as char else s[i])
  }

  predicate IsDigit(c: char)
  {
    '0' <= c <= '9'
  }

  predicate IsDigits(s: string)
  {
    |s| > 0 && forall i :: 0 <= i < |s| ==> IsDigit(s[i])
  }

  /** Value of a string of decimal digits, most significant first. */
  function DigitsValue(s: string): nat
    requires forall i :: 0 <= i < |s| ==> IsDigit(s[i])
  {
    if |s| == 0 then 0
    else
      assert IsDigit(s[|s| - 1]);
      DigitsValue(s[..|s| - 1]) * 10 + (s[|s| - 1] as int - '0' as int)
  }

  /** Python's int(text) on the form git prints counts in: an optional sign followed by
      ASCII digits.  Any other text gives None.  int() itself also accepts surrounding
      whitespace, `_` between digits and non-ASCII decimal digits; those are None here. */
  function ParseInt(text: string): Option<int>
  {
    if |text| > 0 && (text[0] == '-' || text[0] == '+') then
      if IsDigits(text[1..]) then
        var v: int := DigitsValue(text[1..]);
        Some(if text[0] == '-' then -v else v)
      else None
    else if IsDigits(text) then Some(DigitsValue(text))
    else None
  }

  /** Decimal rendering of a natural number, as str(n) gives it. */
  function NatToString(n: nat): (r: string)
    ensures IsDigits(r)
  {
    if n < 10 then [('0' as int + n) as char]
    else NatToString(n / 10) + [('0' as int + n % 10) as char]
  }

  /** int(str(n)) == n. */
  lemma {:induction false} ParseNatToString(n: nat)
    ensures ParseInt(NatToString(n)) == Some(n)
  {
    DigitsOfNat(n);
  }

  lemma {:induction false} DigitsOfNat(n: nat)
    ensures DigitsValue(NatToString(n)) == n
  {
    if n >= 10 {
      DigitsOfNat(n / 10);
      var s := NatToString(n);
      assert s[..|s| - 1] == NatToString(n / 10);
    }
  }
}

/** `compute_author_nm_mapping` of scripts/find_similar_author_nm.py: a greedy pass that
    groups author names whose similarity exceeds a threshold.  Names are taken in input
    order; a name not yet processed becomes a key, and takes in as aliases every later
    name not yet processed whose similarity to it is above the threshold; keys left with
    no alias are deleted.  The similarity measure is a parameter. */
module AuthorGrouping {

  /** The aliases grouped under each key. */
  type AliasMapping = map<string, seq<string>>

  /** Position of the first occurrence of a name in the input. */
  function Pos(names: seq<string>, x: string): (r: nat)
    requires x in names
    ensures r < |names| && names[r] == x
  {
    PosFrom(names, x, 0)
  }

  /** Position of the first occurrence at or after `from`, when there is none before. */
  function PosFrom(names: seq<string>, x: string, from: nat): (r: nat)
    requires x in names && from <= |names| && forall j | 0 <= j < from :: names[j] != x
    ensures from <= r < |names| && names[r] == x
    decreases |names| - from
  {
    if names[from] == x then from else PosFrom(names, x, from + 1)
  }

  /** No occurrence comes before the first. */
  lemma PosFirst(names: seq<string>, j: nat)
    requires j < |names|
    ensures Pos(names, names[j]) <= j
  {
    PosFromFirst(names, 0, j);
  }

  lemma {:induction false} PosFromFirst(names: seq<string>, from: nat, j: nat)
    requires from <= j < |names| && forall k | 0 <= k < from :: names[k] != names[j]
    ensures PosFrom(names, names[j], from) <= j
    decreases j - from
  {
    if names[from] != names[j] {
      PosFromFirst(names, from + 1, j);
    }
  }

  /** Strictly above the threshold, as the source compares. */
  predicate Similar(ratio: (string, string) -> int, threshold: int, a: string, b: string)
  {
    ratio(a, b) > threshold
  }

  /** `x` is listed under some key. */
  predicate IsAlias(mapping: AliasMapping, x: string)
  {
    exists k | k in mapping :: x in mapping[k]
  }

  /** `x` is listed under a key first met before position `j`. */
  predicate AliasedBefore(mapping: AliasMapping, names: seq<string>, x: string, j: nat)
  {
    exists k | k in mapping && k in names && Pos(names, k) < j :: x in mapping[k]
  }

  /** The name first met at position `j`, unless an earlier key took it in, took in every
      name similar to it that had not been processed by then (met earlier, or taken in
      by an earlier key). */
  predicate Absorbs(mapping: AliasMapping, names: seq<string>, ratio: (string, string) -> int, threshold: int, j: nat)
    requires j < |names|
  {
    var c := names[j];
    Pos(names, c) == j && !IsAlias(mapping, c) ==>
      forall m | m in names && m != c && Similar(ratio, threshold, c, m) ::
        (c in mapping && m in mapping[c]) || Pos(names, m) < j || AliasedBefore(mapping, names, m, j)
  }

  /** No name occurs twice in one list. */
  predicate Distinct(s: seq<string>)
  {
    forall x, y | 0 <= x < y < |s| :: s[x] != s[y]
  }

  /** No name occurs twice across all the alias lists. */
  predicate AliasesDisjoint(mapping: AliasMapping)
  {
    (forall k | k in mapping :: Distinct(mapping[k])) &&
    (forall k1, k2, a | k1 in mapping && k2 in mapping && k1 != k2 && a in mapping[k1] :: a !in mapping[k2])
  }

  /** Every key was met before position `i` and has an alias. */
  predicate KeysMet(mapping: AliasMapping, names: seq<string>, i: nat)
  {
    forall k | k in mapping :: k in names && Pos(names, k) < i && |mapping[k]| > 0
  }

  /** Every alias is an input name, is not a key, is similar enough to its key and comes
      after it. */
  predicate AliasesFit(mapping: AliasMapping, names: seq<string>, ratio: (string, string) -> int, threshold: int)
  {
    forall k, a | k in mapping && a in mapping[k] ::
      a in names && a !in mapping && Similar(ratio, threshold, k, a) && k in names && Pos(names, k) < Pos(names, a)
  }

  /** `compute_author_nm_mapping`.  Every key has at least one alias; every key and alias
      is an input name; no name is both a key and an alias (so no key lists itself); no
      name is listed twice; every alias is strictly more similar to its key than the
      threshold and comes after it in the input; and every name that was not taken in by
      an earlier key took in every similar name still unprocessed. */
  method ComputeAuthorNmMapping(names: seq<string>, ratio: (string, string) -> int, threshold: int)
    returns (mapping: AliasMapping)
    ensures forall k | k in mapping :: k in names && |mapping[k]| > 0
    ensures forall k, a | k in mapping && a in mapping[k] ::
              a in names && a !in mapping && Similar(ratio, threshold, k, a) && Pos(names, k) < Pos(names, a)
    ensures forall k | k in mapping :: Distinct(mapping[k])
    ensures forall k1, k2, a | k1 in mapping && k2 in mapping && k1 != k2 && a in mapping[k1] :: a !in mapping[k2]
    ensures forall j | 0 <= j < |names| :: Absorbs(mapping, names, ratio, threshold, j)
  {
    mapping := map[];
    var processed: set<string> := {};
    for i := 0 to |names|
      invariant Grouping(mapping, processed, names, ratio, threshold, i)
    {
      var author := names[i];
      if author in processed {
        SkipProcessed(mapping, processed, names, ratio, threshold, i);
        continue;
      }
      ghost var before := mapping;
      ghost var processedBefore := processed;
      mapping, processed := TakeInSimilar(names, ratio, threshold, author, mapping, processed);
      ghost var aliases := mapping[author];
      if |mapping[author]| == 0 {
        mapping := mapping - {author};
      }
      StepGrouping(before, processedBefore, aliases, mapping, processed, names, ratio, threshold, i);
    }
  }

  /** What holds once the names before position `i` are processed. */
  predicate Grouping(mapping: AliasMapping, processed: set<string>, names: seq<string>,
                     ratio: (string, string) -> int, threshold: int, i: nat)
  {
    i <= |names| &&
    KeysMet(mapping, names, i) && AliasesFit(mapping, names, ratio, threshold) && AliasesDisjoint(mapping) &&
    Tracked(mapping, processed, names, i) &&
    AllAbsorb(mapping, names, ratio, threshold, i)
  }

  /** `processed` holds exactly the names met so far and the names taken in. */
  predicate Tracked(mapping: AliasMapping, processed: set<string>, names: seq<string>, i: nat)
    requires i <= |names|
  {
    (forall j | 0 <= j < i :: names[j] in processed) &&
    (forall k, a | k in mapping && a in mapping[k] :: a in processed) &&
    (forall x | x in processed :: (x in names && Pos(names, x) < i) || IsAlias(mapping, x))
  }

  predicate AllAbsorb(mapping: AliasMapping, names: seq<string>, ratio: (string, string) -> int, threshold: int, i: nat)
    requires i <= |names|
  {
    forall j | 0 <= j < i :: Absorbs(mapping, names, ratio, threshold, j)
  }

  lemma SkipProcessed(mapping: AliasMapping, processed: set<string>, names: seq<string>,
                      ratio: (string, string) -> int, threshold: int, i: nat)
    requires i < |names| && names[i] in processed
    requires Grouping(mapping, processed, names, ratio, threshold, i)
    ensures Grouping(mapping, processed, names, ratio, threshold, i + 1)
  {
    assert Pos(names, names[i]) == i ==> IsAlias(mapping, names[i]);
    assert Absorbs(mapping, names, ratio, threshold, i);
  }

  lemma StepGrouping(before: AliasMapping, processedBefore: set<string>, aliases: seq<string>,
                     mapping: AliasMapping, processed: set<string>,
                     names: seq<string>, ratio: (string, string) -> int, threshold: int, i: nat)
    requires i < |names| && names[i] !in processedBefore
    requires Grouping(before, processedBefore, names, ratio, threshold, i)
    requires mapping == if |aliases| == 0 then before[names[i] := aliases] - {names[i]} else before[names[i] := aliases]
    requires forall x :: x in processed <==> x in processedBefore || x == names[i] || x in aliases
    requires forall a | a in aliases ::
               a in names && a != names[i] && a !in processedBefore && Similar(ratio, threshold, names[i], a)
    requires Distinct(aliases)
    requires forall s | 0 <= s < |names| ::
               names[s] != names[i] && names[s] !in processedBefore && Similar(ratio, threshold, names[i], names[s]) ==>
                 names[s] in aliases
    ensures Grouping(mapping, processed, names, ratio, threshold, i + 1)
  {
    PosFirst(names, i);
    assert names[i] !in before;
    assert mapping == Grown(before, names, i, aliases);
    StepKeys(before, aliases, names, i);
    StepAliases(before, aliases, names, ratio, threshold, i, processedBefore);
    StepDisjoint(before, aliases, names, i, processedBefore);
    StepTracked(before, processedBefore, aliases, processed, names, i);
    StepAbsorb(before, processedBefore, aliases, names, ratio, threshold, i);
  }

  lemma StepTracked(before: AliasMapping, processedBefore: set<string>, aliases: seq<string>, processed: set<string>,
                    names: seq<string>, i: nat)
    requires i < |names| && Pos(names, names[i]) == i && names[i] !in before
    requires Tracked(before, processedBefore, names, i)
    requires forall x :: x in processed <==> x in processedBefore || x == names[i] || x in aliases
    ensures Tracked(Grown(before, names, i, aliases), processed, names, i + 1)
  {
    StepProcessed(before, aliases, names, i, processedBefore, processed);
  }

  lemma StepAbsorb(before: AliasMapping, processedBefore: set<string>, aliases: seq<string>,
                   names: seq<string>, ratio: (string, string) -> int, threshold: int, i: nat)
    requires i < |names| && Pos(names, names[i]) == i
    requires KeysMet(before, names, i)
    requires forall x | x in processedBefore :: (x in names && Pos(names, x) < i) || IsAlias(before, x)
    requires AllAbsorb(before, names, ratio, threshold, i)
    requires forall s | 0 <= s < |names| ::
               names[s] != names[i] && names[s] !in processedBefore && Similar(ratio, threshold, names[i], names[s]) ==>
                 names[s] in aliases
    ensures AllAbsorb(Grown(before, names, i, aliases), names, ratio, threshold, i + 1)
  {
    forall j | 0 <= j < i
      ensures Absorbs(Grown(before, names, i, aliases), names, ratio, threshold, j)
    {
      AbsorbsKept(before, aliases, names, ratio, threshold, i, j);
    }
    AbsorbsStep(before, aliases, names, ratio, threshold, i, processedBefore);
  }

  /** Lines 20-31 for one new key: the key is marked processed and given an empty list,
      then every other name not yet processed and similar enough is appended to its list
      and marked processed, in input order. */
  method TakeInSimilar(names: seq<string>, ratio: (string, string) -> int, threshold: int, author: string,
                       mapping0: AliasMapping, processed0: set<string>)
    returns (mapping: AliasMapping, processed: set<string>)
    requires author !in processed0
    ensures author in mapping && mapping == mapping0[author := mapping[author]]
    ensures forall x :: x in processed <==> x in processed0 || x == author || x in mapping[author]
    ensures forall a | a in mapping[author] ::
              a in names && a != author && a !in processed0 && Similar(ratio, threshold, author, a)
    ensures Distinct(mapping[author])
    ensures forall s | 0 <= s < |names| ::
              names[s] != author && names[s] !in processed0 && Similar(ratio, threshold, author, names[s]) ==>
                names[s] in mapping[author]
  {
    processed := processed0 + {author};
    mapping := mapping0[author := []];
    for t := 0 to |names|
      invariant author in mapping && mapping == mapping0[author := mapping[author]]
      invariant forall x :: x in processed <==> x in processed0 || x == author || x in mapping[author]
      invariant forall a | a in mapping[author] ::
                  a in names && a != author && a !in processed0 && Similar(ratio, threshold, author, a)
      invariant Distinct(mapping[author])
      invariant forall s | 0 <= s < t ::
                  names[s] != author && names[s] !in processed0 && Similar(ratio, threshold, author, names[s]) ==>
                    names[s] in mapping[author]
    {
      var other := names[t];
      if other == author || other in processed {
        continue;
      }
      if Similar(ratio, threshold, author, other) {
        mapping := mapping[author := mapping[author] + [other]];
        processed := processed + {other};
      }
    }
  }

  /** The mapping after the name at position `i` took in `aliases`. */
  function Grown(before: AliasMapping, names: seq<string>, i: nat, aliases: seq<string>): AliasMapping
    requires i < |names|
  {
    if |aliases| == 0 then before else before[names[i] := aliases]
  }

  lemma StepKeys(before: AliasMapping, aliases: seq<string>, names: seq<string>, i: nat)
    requires i < |names| && Pos(names, names[i]) == i
    requires KeysMet(before, names, i)
    ensures KeysMet(Grown(before, names, i, aliases), names, i + 1)
  {
  }

  lemma StepAliases(before: AliasMapping, aliases: seq<string>, names: seq<string>,
                    ratio: (string, string) -> int, threshold: int, i: nat, processed: set<string>)
    requires i < |names| && Pos(names, names[i]) == i
    requires KeysMet(before, names, i) && AliasesFit(before, names, ratio, threshold)
    requires forall j | 0 <= j < i :: names[j] in processed
    requires forall k, a | k in before && a in before[k] :: a in processed
    requires names[i] !in processed
    requires forall a | a in aliases :: a in names && a != names[i] && a !in processed && Similar(ratio, threshold, names[i], a)
    ensures AliasesFit(Grown(before, names, i, aliases), names, ratio, threshold)
  {
    if |aliases| > 0 {
      var n := names[i];
      var after := Grown(before, names, i, aliases);
      assert after == before[n := aliases];
      forall k, a | k in after && a in after[k]
        ensures a in names && a !in after && Similar(ratio, threshold, k, a) && k in names && Pos(names, k) < Pos(names, a)
      {
        if k == n {
          assert a in aliases;
          NewAliasFits(before, names, i, processed, a);
        } else {
          assert a in before[k];
          assert Similar(ratio, threshold, k, a);
        }
      }
    }
  }

  /** A name taken in at position `i` was not met before it and is not an earlier key. */
  lemma NewAliasFits(before: AliasMapping, names: seq<string>, i: nat, processed: set<string>, a: string)
    requires i < |names| && Pos(names, names[i]) == i
    requires KeysMet(before, names, i)
    requires forall j | 0 <= j < i :: names[j] in processed
    requires a in names && a != names[i] && a !in processed
    ensures a !in before && i < Pos(names, a)
  {
  }

  lemma StepDisjoint(before: AliasMapping, aliases: seq<string>, names: seq<string>, i: nat, processed: set<string>)
    requires i < |names|
    requires AliasesDisjoint(before) && names[i] !in before
    requires forall k, a | k in before && a in before[k] :: a in processed
    requires forall a | a in aliases :: a !in processed
    requires Distinct(aliases)
    ensures AliasesDisjoint(Grown(before, names, i, aliases))
  {
    if |aliases| > 0 {
      var n := names[i];
      var after := before[n := aliases];
      forall k1, k2, a | k1 in after && k2 in after && k1 != k2 && a in after[k1]
        ensures a !in after[k2]
      {
        if k1 == n {
          assert a !in processed;
        } else if k2 == n {
          assert a in before[k1];
          assert a in processed;
        } else {
          assert a in before[k1];
        }
      }
    }
  }

  lemma StepProcessed(before: AliasMapping, aliases: seq<string>, names: seq<string>, i: nat,
                      processedBefore: set<string>, processed: set<string>)
    requires i < |names| && Pos(names, names[i]) == i
    requires names[i] !in before
    requires forall x | x in processedBefore :: (x in names && Pos(names, x) < i) || IsAlias(before, x)
    requires forall x :: x in processed <==> x in processedBefore || x == names[i] || x in aliases
    ensures forall x | x in processed :: (x in names && Pos(names, x) < i + 1) || IsAlias(Grown(before, names, i, aliases), x)
  {
    var after := Grown(before, names, i, aliases);
    forall x | x in processed
      ensures (x in names && Pos(names, x) < i + 1) || IsAlias(after, x)
    {
      if x in aliases {
        assert names[i] in after && x in after[names[i]];
      } else if x in processedBefore && !(x in names && Pos(names, x) < i) {
        var k :| k in before && x in before[k];
        assert k in after && after[k] == before[k];
      }
    }
  }

  lemma AbsorbsKept(before: AliasMapping, aliases: seq<string>, names: seq<string>,
                    ratio: (string, string) -> int, threshold: int, i: nat, j: nat)
    requires j < i < |names| && Pos(names, names[i]) == i
    requires forall k | k in before :: k in names && Pos(names, k) < i
    requires Absorbs(before, names, ratio, threshold, j)
    ensures Absorbs(Grown(before, names, i, aliases), names, ratio, threshold, j)
  {
    var after := Grown(before, names, i, aliases);
    var c := names[j];
    GrownKeeps(before, aliases, names, i);
    AliasKept(before, after, c);
    if Pos(names, c) == j && !IsAlias(after, c) {
      forall m | m in names && m != c && Similar(ratio, threshold, c, m)
        ensures (c in after && m in after[c]) || Pos(names, m) < j || AliasedBefore(after, names, m, j)
      {
        AliasedBeforeKept(before, after, names, m, j);
      }
    }
  }

  /** Growing the mapping keeps every earlier entry. */
  lemma GrownKeeps(before: AliasMapping, aliases: seq<string>, names: seq<string>, i: nat)
    requires i < |names| && Pos(names, names[i]) == i
    requires forall k | k in before :: k in names && Pos(names, k) < i
    ensures forall k | k in before :: k in Grown(before, names, i, aliases) && Grown(before, names, i, aliases)[k] == before[k]
  {
  }

  lemma AliasKept(before: AliasMapping, after: AliasMapping, x: string)
    requires forall k | k in before :: k in after && after[k] == before[k]
    ensures IsAlias(before, x) ==> IsAlias(after, x)
  {
    if IsAlias(before, x) {
      var k :| k in before && x in before[k];
      assert x in after[k];
    }
  }

  lemma AliasedBeforeKept(before: AliasMapping, after: AliasMapping, names: seq<string>, x: string, j: nat)
    requires forall k | k in before :: k in after && after[k] == before[k]
    ensures AliasedBefore(before, names, x, j) ==> AliasedBefore(after, names, x, j)
  {
    if AliasedBefore(before, names, x, j) {
      var k :| k in before && k in names && Pos(names, k) < j && x in before[k];
      assert x in after[k];
    }
  }

  lemma AbsorbsStep(before: AliasMapping, aliases: seq<string>, names: seq<string>,
                    ratio: (string, string) -> int, threshold: int, i: nat, processed: set<string>)
    requires i < |names| && Pos(names, names[i]) == i
    requires forall k | k in before :: k in names && Pos(names, k) < i
    requires forall x | x in processed :: (x in names && Pos(names, x) < i) || IsAlias(before, x)
    requires forall s | 0 <= s < |names| ::
               names[s] != names[i] && names[s] !in processed && Similar(ratio, threshold, names[i], names[s]) ==>
                 names[s] in aliases
    ensures Absorbs(Grown(before, names, i, aliases), names, ratio, threshold, i)
  {
    var after := Grown(before, names, i, aliases);
    var c := names[i];
    forall m | m in names && m != c && Similar(ratio, threshold, c, m)
      ensures (c in after && m in after[c]) || Pos(names, m) < i || AliasedBefore(after, names, m, i)
    {
      var s := Pos(names, m);
      if m !in processed {
        assert m in aliases;
        assert c in after && after[c] == aliases;
      } else if !(s < i) {
        var k :| k in before && m in before[k];
        assert k in after && after[k] == before[k];
      }
    }
  }
}

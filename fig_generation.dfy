/** The chart operation suites of src/fig_generation.py: how a `Transformer` turns a
    concept into the list of operations it will run, which argument each operation
    takes, how each operation is dispatched on a table, and how a `FigGenerator` gathers
    its figure arguments and sizes a dimension.  The table transforms themselves and the
    plotting are not modelled; dispatch is stated as a classification of each operation. */
module FigGeneration {
  import opened Wrappers

  /** The five chart concepts, the keys of the suite table. */
  datatype Concept = Stability | Evolution | Specialization | Size | Repartition

  function ConceptName(c: Concept): string
  {
    match c
    case Stability => "stability"
    case Evolution => "evolution"
    case Specialization => "specialization"
    case Size => "size"
    case Repartition => "repartition"
  }

  /** Looking a concept up by name; any other name is the `KeyError` of the table. */
  function ParseConcept(s: string): (r: Option<Concept>)
  {
    if s == "stability" then Some(Stability)
    else if s == "evolution" then Some(Evolution)
    else if s == "specialization" then Some(Specialization)
    else if s == "size" then Some(Size)
    else if s == "repartition" then Some(Repartition)
    else None
  }

  /** Concept names and concepts are in one-to-one correspondence. */
  lemma ConceptNames(c: Concept, s: string)
    ensures ParseConcept(ConceptName(c)) == Some(c)
    ensures ParseConcept(s).Some? ==> ConceptName(ParseConcept(s).value) == s
    ensures ParseConcept(s).None? <==> forall c' :: ConceptName(c') != s
  {
    if ParseConcept(s).None? {
      forall c' ensures ConceptName(c') != s {
        assert ParseConcept(ConceptName(c')) == Some(c');
      }
    }
  }

  /** The operation suite of each concept, with the `agg` placeholder. */
  function OperationSuite(c: Concept): seq<string>
  {
    match c
    case Stability => ["groupby", "resample", "agg", "unstack", "normalize", "T", "round", "replace"]
    case Evolution => ["resample", "agg", "reset_index"]
    case Specialization => ["groupby", "agg", "unstack", "normalize", "T", "round", "replace"]
    case Size => ["groupby", "agg", "reset_index"]
    case Repartition => ["groupby", "agg", "reset_index"]
  }

  /** The attribute each operation takes its argument from; an operation not listed
      here is an attribute of the table. */
  const OperationArgNames: map<string, string> :=
    map["groupby" := "entity", "resample" := "freq", "agg" := "mesure", "unstack" := "unstack_level",
        "normalize" := "normalize_axis", "reset_index" := "NONE", "sum" := "NONE", "nunique" := "NONE",
        "count" := "NONE", "replace" := "REPLACE_ARG", "round" := "ROUND_ARG"]

  /** Number of occurrences of `x` in `s`. */
  function Count(s: seq<string>, x: string): nat
  {
    if |s| == 0 then 0 else (if s[0] == x then 1 else 0) + Count(s[1..], x)
  }

  /** Every suite holds the placeholder exactly once, and every other name in it is a
      listed operation or the transpose `T`. */
  lemma SuiteShape(c: Concept)
    ensures "agg" in OperationSuite(c) && Count(OperationSuite(c), "agg") == 1
    ensures forall op | op in OperationSuite(c) :: op in OperationArgNames || op == "T"
  {
    SuitePlaceholder(c);
    SuiteOperations(c);
  }

  /** The placeholder is in every suite, once. */
  lemma SuitePlaceholder(c: Concept)
    ensures "agg" in OperationSuite(c) && Count(OperationSuite(c), "agg") == 1
  {
    var s := OperationSuite(c);
    match c
    case Stability => CountOnce(s, 2, "agg");
    case Evolution => CountOnce(s, 1, "agg");
    case Specialization => CountOnce(s, 1, "agg");
    case Size => CountOnce(s, 1, "agg");
    case Repartition => CountOnce(s, 1, "agg");
  }

  /** Every name of a suite is a listed operation or the transpose. */
  lemma SuiteOperations(c: Concept)
    ensures forall op | op in OperationSuite(c) :: op in OperationArgNames || op == "T"
  {
    ListedOperations();
  }

  /** The operations the suites use have a row in the argument table. */
  lemma ListedOperations()
    ensures "groupby" in OperationArgNames && "resample" in OperationArgNames && "agg" in OperationArgNames
    ensures "unstack" in OperationArgNames && "normalize" in OperationArgNames && "round" in OperationArgNames
    ensures "replace" in OperationArgNames && "reset_index" in OperationArgNames
  {
  }

  /** A name found at `k` and nowhere else occurs once. */
  lemma CountOnce(s: seq<string>, k: nat, x: string)
    requires k < |s| && s[k] == x && x !in s[..k] && x !in s[k + 1..]
    ensures Count(s, x) == 1
  {
    assert s == s[..k] + ([x] + s[k + 1..]);
    CountAppend(s[..k], [x] + s[k + 1..], x);
    CountAppend([x], s[k + 1..], x);
    CountAbsent(s[..k], x);
    CountAbsent(s[k + 1..], x);
  }

  /** `list.index`: the first position of `x`. */
  function IndexOf(s: seq<string>, x: string): (r: nat)
    requires x in s
    ensures r < |s| && s[r] == x && x !in s[..r]
  {
    if s[0] == x then 0
    else
      assert x in s[1..] by { assert s == [s[0]] + s[1..]; }
      assert s[..IndexOf(s[1..], x) + 1] == [s[0]] + s[1..][..IndexOf(s[1..], x)];
      1 + IndexOf(s[1..], x)
  }

  /** `list.insert(i, x)`. */
  function Insert(s: seq<string>, i: nat, x: string): (r: seq<string>)
    requires i <= |s|
    ensures |r| == |s| + 1 && r[i] == x
    ensures forall j | 0 <= j < i :: r[j] == s[j]
    ensures forall j | i <= j < |s| :: r[j + 1] == s[j]
  {
    s[..i] + [x] + s[i..]
  }

  /** `list.pop(i)`. */
  function Pop(s: seq<string>, i: nat): (r: seq<string>)
    requires i < |s|
    ensures |r| == |s| - 1
    ensures forall j | 0 <= j < i :: r[j] == s[j]
    ensures forall j | i <= j < |r| :: r[j] == s[j + 1]
  {
    s[..i] + s[i + 1..]
  }

  /** Inserting `aggfunc` then `mesure` at `k` and popping what then stands at `k + 2`
      puts the two in place of the entry at `k`. */
  lemma InsertTwicePop(s: seq<string>, k: nat, mesure: string, aggfunc: string)
    requires k < |s|
    ensures Pop(Insert(Insert(s, k, aggfunc), k, mesure), k + 2) == s[..k] + [mesure, aggfunc] + s[k + 1..]
  {
    var s1 := s[..k] + [aggfunc] + s[k..];
    assert Insert(s, k, aggfunc) == s1;
    var s2 := s[..k] + [mesure] + s1[k..];
    assert s1[..k] == s[..k];
    assert Insert(s1, k, mesure) == s2;
    assert s2[..k + 2] == s[..k] + [mesure, aggfunc];
    assert s2[k + 3..] == s[k + 1..];
  }

  /** The values an attribute of a transformer may hold. */
  datatype Value = NoValue | Text(text: string) | Number(n: int) | Names(names: seq<string>) | ZeroToMissing

  /** How an operation is applied to the table. */
  datatype Dispatch =
    | AttributeAccess(name: string)
    | MethodCall(name: string, arg: Option<Value>)
    | CustomNormalize(axis: Value)
    | Unsupported(message: string)

  /** A count of ticks turned into a pixel size: 300 pixels per tick at the given font
      size, floored, plus a 200-pixel margin. */
  function DimSize(nTicks: nat, tickFontSize: nat): (r: int)
    requires tickFontSize > 0
  {
    (300 * nTicks) / tickFontSize + 200
  }

  const DefaultTickFontSize: nat := 13

  /** The size is never below the margin and never shrinks when ticks are added. */
  lemma DimSizeBounds(n: nat, m: nat, font: nat)
    requires font > 0 && n <= m
    ensures DimSize(n, font) >= 200
    ensures DimSize(n, font) <= DimSize(m, font)
  {
    DivMonotone(300 * n, 300 * m, font);
  }

  lemma DivMonotone(a: nat, b: nat, d: nat)
    requires d > 0 && a <= b
    ensures a / d <= b / d
  {
    var q1, q2 := a / d, b / d;
    assert q1 * d <= a;
    assert b < (q2 + 1) * d;
    MulLess(q1, q2 + 1, d);
  }

  lemma MulLess(x: int, y: int, d: nat)
    requires d > 0 && x * d < y * d
    ensures x < y
  {
    assert (y - x) * d > 0;
  }

  /** Default-font sizes: no ticks give the margin alone, 13 ticks give 500 pixels. */
  lemma DimSizeExamples()
    ensures DimSize(0, DefaultTickFontSize) == 200
    ensures DimSize(13, DefaultTickFontSize) == 500
    ensures DimSize(1, DefaultTickFontSize) == 223
  {
  }

  /** The suite of a concept with its placeholder replaced by `mesure` then `aggfunc`. */
  function FilledSuite(suite: seq<string>, mesure: string, aggfunc: string): (r: seq<string>)
    requires "agg" in suite
  {
    var k := IndexOf(suite, "agg");
    suite[..k] + [mesure, aggfunc] + suite[k + 1..]
  }

  /** A filled suite is one longer than the suite; before the placeholder nothing moves,
      after it everything moves one place right, and the placeholder is gone unless
      `mesure` or `aggfunc` is itself named `agg`. */
  lemma FilledSuiteShape(c: Concept, mesure: string, aggfunc: string)
    ensures "agg" in OperationSuite(c)
    ensures var suite := OperationSuite(c);
            var k := IndexOf(suite, "agg");
            var r := FilledSuite(suite, mesure, aggfunc);
            |r| == |suite| + 1 && r[k] == mesure && r[k + 1] == aggfunc &&
            (forall i | 0 <= i < k :: r[i] == suite[i]) &&
            (forall i | k < i < |suite| :: r[i + 1] == suite[i]) &&
            (mesure != "agg" && aggfunc != "agg" ==> "agg" !in r)
  {
    SuitePlaceholder(c);
    FilledShape(OperationSuite(c), mesure, aggfunc);
  }

  /** The same for any suite holding the placeholder once. */
  lemma FilledShape(suite: seq<string>, mesure: string, aggfunc: string)
    requires "agg" in suite && Count(suite, "agg") == 1
    ensures var k := IndexOf(suite, "agg");
            var r := FilledSuite(suite, mesure, aggfunc);
            |r| == |suite| + 1 && r[k] == mesure && r[k + 1] == aggfunc &&
            (forall i | 0 <= i < k :: r[i] == suite[i]) &&
            (forall i | k < i < |suite| :: r[i + 1] == suite[i]) &&
            (mesure != "agg" && aggfunc != "agg" ==> "agg" !in r)
  {
    var k := IndexOf(suite, "agg");
    assert "agg" !in suite[k + 1..] by {
      CountSplit(suite, k, "agg");
    }
  }

  /** With one occurrence found at `k`, none follows it. */
  lemma CountSplit(s: seq<string>, k: nat, x: string)
    requires k < |s| && s[k] == x && Count(s, x) == 1 && x !in s[..k]
    ensures x !in s[k + 1..]
  {
    CountAppend(s[..k], s[k..], x);
    assert s[..k] + s[k..] == s;
    CountAbsent(s[..k], x);
    assert s[k..] == [x] + s[k + 1..];
    CountAppend([x], s[k + 1..], x);
    CountZero(s[k + 1..], x);
  }

  lemma {:induction false} CountAppend(a: seq<string>, b: seq<string>, x: string)
    ensures Count(a + b, x) == Count(a, x) + Count(b, x)
  {
    if |a| > 0 {
      assert (a + b)[1..] == a[1..] + b;
      CountAppend(a[1..], b, x);
    } else {
      assert a + b == b;
    }
  }

  lemma {:induction false} CountAbsent(s: seq<string>, x: string)
    requires x !in s
    ensures Count(s, x) == 0
  {
    if |s| > 0 {
      CountAbsent(s[1..], x);
    }
  }

  lemma {:induction false} CountZero(s: seq<string>, x: string)
    ensures Count(s, x) == 0 ==> x !in s
  {
    if |s| > 0 {
      CountZero(s[1..], x);
      assert s == [s[0]] + s[1..];
    }
  }

  /** The evolution chart counting ids: resample, take the `id` column, count, reset. */
  lemma EvolutionExample()
    ensures FilledSuite(OperationSuite(Evolution), "id", "count") == ["resample", "id", "count", "reset_index"]
  {
    assert IndexOf(OperationSuite(Evolution), "agg") == 1;
  }

  class Transformer {
    const concept: Concept
    const mesure: string
    const entity: Value
    const normalizeAxis: Value
    const aggfunc: string
    const freq: Value
    const unstackLevel: Value
    var operations: seq<string>

    /** `__init__`: the attributes, then a copy of the concept's suite with its
        placeholder filled.  The suite table is a value, so filling the copy leaves the
        table as it was. */
    constructor (concept: Concept, mesure: string, entity: Value, normalizeAxis: Value,
                 aggfunc: string, freq: Value, unstackLevel: Value)
      ensures this.concept == concept && this.mesure == mesure && this.entity == entity
      ensures this.normalizeAxis == normalizeAxis && this.aggfunc == aggfunc
      ensures this.freq == freq && this.unstackLevel == unstackLevel
      ensures "agg" in OperationSuite(concept)
      ensures operations == FilledSuite(OperationSuite(concept), mesure, aggfunc)
    {
      this.concept := concept;
      this.mesure := mesure;
      this.entity := entity;
      this.normalizeAxis := normalizeAxis;
      this.aggfunc := aggfunc;
      this.freq := freq;
      this.unstackLevel := unstackLevel;
      new;
      SuiteShape(concept);
      operations := OperationSuite(concept);
      FillAggPlaceholderOperation(aggfunc, mesure);
    }

    /** `__fill_agg_placeholder_operation`: insert `aggfunc` then `mesure` at the
        placeholder's position, then pop the placeholder, now two places further. */
    method FillAggPlaceholderOperation(aggfunc: string, mesure: string)
      requires "agg" in operations
      modifies this`operations
      ensures operations == FilledSuite(old(operations), mesure, aggfunc)
    {
      var aggIndex := IndexOf(operations, "agg");
      ghost var suite := operations;
      operations := Insert(operations, aggIndex, aggfunc);
      operations := Insert(operations, aggIndex, mesure);
      operations := Pop(operations, aggIndex + 2);
      InsertTwicePop(suite, aggIndex, mesure, aggfunc);
    }

    /** `getattr` on the transformer: the attributes an argument name may refer to, and
        the class constants. */
    function Attribute(name: string): (r: Option<Value>)
    {
      if name == "entity" then Some(entity)
      else if name == "freq" then Some(freq)
      else if name == "mesure" then Some(Text(mesure))
      else if name == "unstack_level" then Some(unstackLevel)
      else if name == "normalize_axis" then Some(normalizeAxis)
      else if name == "aggfunc" then Some(Text(aggfunc))
      else if name == "concept" then Some(Text(ConceptName(concept)))
      else if name == "NONE" then Some(NoValue)
      else if name == "REPLACE_ARG" then Some(ZeroToMissing)
      else if name == "ROUND_ARG" then Some(Number(2))
      else None
    }

    /** `__get_operation_arg`: the attribute named in the argument table; an operation
        missing from the table is the `KeyError` (the name is always non-empty, so the
        `None` branch of the source is never taken). */
    function GetOperationArg(op: string): (r: Result<Value, string>)
      ensures r.Err? <==> op !in OperationArgNames
    {
      if op !in OperationArgNames then Err("KeyError")
      else
        var argNm := OperationArgNames[op];
        if argNm != "" then
          match Attribute(argNm)
          case Some(v) => Ok(v)
          case None => assert false; Err("AttributeError")
        else Ok(NoValue)
    }

    /** The argument table row by row. */
    lemma OperationArgTable()
      ensures GetOperationArg("groupby") == Ok(entity)
      ensures GetOperationArg("resample") == Ok(freq)
      ensures GetOperationArg("agg") == Ok(Text(mesure))
      ensures GetOperationArg("unstack") == Ok(unstackLevel)
      ensures GetOperationArg("normalize") == Ok(normalizeAxis)
      ensures GetOperationArg("round") == Ok(Number(2))
      ensures GetOperationArg("replace") == Ok(ZeroToMissing)
      ensures forall op | op in ["reset_index", "sum", "nunique", "count"] :: GetOperationArg(op) == Ok(NoValue)
    {
    }

    /** `__get_operation_result`, as a classification: an unlisted name is read as an
        attribute of the table; a listed one is called, with its argument unless that is
        `None`, when the table has such a method; otherwise `normalize` falls back to the
        custom normalisation and anything else is unsupported. */
    function GetOperationResult(op: string, hasMethod: string -> bool): (r: Dispatch)
      ensures r.AttributeAccess? <==> op !in OperationArgNames
      ensures r.MethodCall? <==> op in OperationArgNames && hasMethod(op)
      ensures r.MethodCall? ==>
                (r.name == op &&
                 (r.arg.None? <==> GetOperationArg(op) == Ok(NoValue)) &&
                 (r.arg.Some? ==> GetOperationArg(op) == Ok(r.arg.value)))
      ensures r.CustomNormalize? <==> op == "normalize" && !hasMethod(op)
      ensures r.CustomNormalize? ==> r.axis == normalizeAxis
      ensures r.Unsupported? <==> op in OperationArgNames && !hasMethod(op) && op != "normalize"
      ensures r.Unsupported? ==> r.message == "Operation: " + op + " is not supported"
    {
      match GetOperationArg(op)
      case Err(_) => AttributeAccess(op)
      case Ok(arg) =>
        if hasMethod(op) then MethodCall(op, if arg != NoValue then Some(arg) else None)
        else if op == "normalize" then CustomNormalize(arg)
        else Unsupported("Operation: " + op + " is not supported")
    }

    /** In a filled suite only `T`, `mesure` and `aggfunc` can be read as attributes, and
        nothing is unsupported as long as the table has every listed method except
        `normalize`. */
    lemma SuiteDispatch(hasMethod: string -> bool)
      requires "agg" in OperationSuite(concept)
      requires forall op | op in OperationArgNames && op != "normalize" :: hasMethod(op)
      ensures forall op | op in FilledSuite(OperationSuite(concept), mesure, aggfunc) ::
                (GetOperationResult(op, hasMethod).AttributeAccess? ==> op == "T" || op == mesure || op == aggfunc) &&
                !GetOperationResult(op, hasMethod).Unsupported?
    {
      SuiteShape(concept);
      var suite := OperationSuite(concept);
      var k := IndexOf(suite, "agg");
      forall op | op in FilledSuite(suite, mesure, aggfunc)
        ensures GetOperationResult(op, hasMethod).AttributeAccess? ==> op == "T" || op == mesure || op == aggfunc
      {
        if op != mesure && op != aggfunc {
          assert op in suite[..k] || op in suite[k + 1..];
        }
      }
    }
  }

  /** The figure argument structure of each concept: figure argument to attribute name,
      or to a `$`-prefixed literal. */
  function FigArgStruct(c: Concept): map<string, string>
  {
    match c
    case Specialization => map["title" := "title"]
    case Stability => map["title" := "title"]
    case Evolution => map["x" := "time", "y" := "mesure", "title" := "title"]
    case Size => map["x" := "mesure", "y" := "entity", "orientation" := "$h", "title" := "title"]
    case Repartition => map["names" := "entity", "values" := "mesure", "title" := "title"]
  }

  class FigGenerator {
    const transformer: Transformer
    const title: string
    const xaxisTitle: string
    const yaxisTitle: string
    const figArgStruct: map<string, string>
    const time: string

    /** `__init__`: the transformer part, the titles, the concept's argument structure
        and the time column. */
    constructor (concept: Concept, mesure: string, title: string, entity: Value, normalizeAxis: Value,
                 aggfunc: string, freq: Value, unstackLevel: Value, xaxisTitle: string, yaxisTitle: string)
      ensures fresh(transformer) && transformer.concept == concept && transformer.mesure == mesure
      ensures transformer.entity == entity && transformer.aggfunc == aggfunc
      ensures transformer.normalizeAxis == normalizeAxis && transformer.freq == freq
      ensures transformer.unstackLevel == unstackLevel
      ensures "agg" in OperationSuite(concept)
      ensures transformer.operations == FilledSuite(OperationSuite(concept), mesure, aggfunc)
      ensures this.title == title && this.xaxisTitle == xaxisTitle && this.yaxisTitle == yaxisTitle
      ensures figArgStruct == FigArgStruct(concept) && time == "creation_dt"
    {
      transformer := new Transformer(concept, mesure, entity, normalizeAxis, aggfunc, freq, unstackLevel);
      this.title := title;
      this.xaxisTitle := xaxisTitle;
      this.yaxisTitle := yaxisTitle;
      figArgStruct := FigArgStruct(concept);
      time := "creation_dt";
    }

    /** `getattr` on the figure generator: its own attributes, then the transformer's. */
    function Attribute(name: string): Option<Value>
    {
      if name == "title" then Some(Text(title))
      else if name == "time" then Some(Text(time))
      else if name == "xaxis_title" then Some(Text(xaxisTitle))
      else if name == "yaxis_title" then Some(Text(yaxisTitle))
      else transformer.Attribute(name)
    }

    /** One entry of the structure: a `$`-prefixed value is the literal without its `$`,
        any other the attribute of that name; an empty value has no first character. */
    function FigArgValue(v: string): (r: Option<Value>)
      ensures |v| > 0 && v[0] == '$' ==> r == Some(Text(v[1..]))
      ensures |v| > 0 && v[0] != '$' ==> r == Attribute(v)
      ensures |v| == 0 ==> r.None?
    {
      if |v| == 0 then None
      else if v[0] == '$' then Some(Text(v[1..]))
      else Attribute(v)
    }

    /** `__get_fig_arg`: a dictionary with the structure's keys, each bound to its
        entry's value; it fails as soon as an entry does not resolve. */
    method GetFigArg() returns (r: Result<map<string, Value>, string>)
      ensures r.Ok? <==> forall k | k in figArgStruct :: FigArgValue(figArgStruct[k]).Some?
      ensures r.Ok? ==> r.value.Keys == figArgStruct.Keys
      ensures r.Ok? ==> forall k | k in figArgStruct :: r.value[k] == FigArgValue(figArgStruct[k]).value
    {
      var figArg: map<string, Value> := map[];
      var todo := figArgStruct.Keys;
      while todo != {}
        invariant todo <= figArgStruct.Keys
        invariant figArg.Keys == figArgStruct.Keys - todo
        invariant forall k | k in figArg :: FigArgValue(figArgStruct[k]) == Some(figArg[k])
        decreases |todo|
      {
        var k :| k in todo;
        match FigArgValue(figArgStruct[k])
        case None =>
          return Err("AttributeError");
        case Some(v) =>
          figArg := figArg[k := v];
        todo := todo - {k};
      }
      return Ok(figArg);
    }

    /** The values the structures use and what they resolve to. */
    lemma NamedValues()
      ensures FigArgValue("title") == Some(Text(title))
      ensures FigArgValue("time") == Some(Text(time))
      ensures FigArgValue("mesure") == Some(Text(transformer.mesure))
      ensures FigArgValue("entity") == Some(transformer.entity)
      ensures FigArgValue("$h") == Some(Text("h"))
    {
      assert "$h"[1..] == "h";
    }

    /** Every structure of the table resolves, and the size chart is drawn horizontally
        with the measure on x and the entity on y. */
    lemma FigArgResolves()
      requires figArgStruct == FigArgStruct(transformer.concept)
      ensures forall k | k in figArgStruct :: FigArgValue(figArgStruct[k]).Some?
      ensures transformer.concept == Size ==>
                (FigArgValue(figArgStruct["orientation"]) == Some(Text("h")) &&
                 FigArgValue(figArgStruct["x"]) == Some(Text(transformer.mesure)) &&
                 FigArgValue(figArgStruct["y"]) == Some(transformer.entity))
    {
      NamedValues();
      forall k | k in figArgStruct
        ensures FigArgValue(figArgStruct[k]).Some?
      {
        assert figArgStruct[k] in {"title", "time", "mesure", "entity", "$h"};
      }
    }
  }
}

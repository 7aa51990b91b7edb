/** The operation suites of git_analytics/fig_generation.py.  The suite and argument
    tables are the same as in src/fig_generation.py, but they live at module level, the
    transformer's attributes are `_`-prefixed (so an argument name `n` is read from the
    attribute `_n`), and the figure argument structures carry no title. */
module AnalyticsFigGeneration {
  import opened Wrappers
  import opened FigGeneration

  class Transformer {
    const concept: Concept
    const mesure: string
    const entity: Value
    const normalizeAxis: Value
    const aggfunc: string
    const freq: Value
    const unstackLevel: Value
    var operations: seq<string>

    /** `__init__`: the `_`-prefixed attributes, then a copy of the module-level suite
        with its placeholder filled; the module-level table, a value here, is left as it
        was. */
    constructor (concept: Concept, mesure: string, entity: Value, normalizeAxis: Value,
                 aggfunc: string, freq: Value, unstackLevel: Value)
      ensures this.concept == concept && this.mesure == mesure && this.entity == entity
      ensures this.normalizeAxis == normalizeAxis && this.aggfunc == aggfunc
      ensures this.freq == freq && this.unstackLevel == unstackLevel
      ensures "agg" in OperationSuite(concept)
      ensures operations == FilledSuite(OperationSuite(concept), mesure, aggfunc)
    {
      this.concept := concept;
      this.mesure := mesure;
      this.entity := entity;
      this.normalizeAxis := normalizeAxis;
      this.aggfunc := aggfunc;
      this.freq := freq;
      this.unstackLevel := unstackLevel;
      new;
      SuiteShape(concept);
      operations := OperationSuite(concept);
      FillAggPlaceholderOperation(aggfunc, mesure);
    }

    /** `__fill_agg_placeholder_operation`, as in the src transformer. */
    method FillAggPlaceholderOperation(aggfunc: string, mesure: string)
      requires "agg" in operations
      modifies this`operations
      ensures operations == FilledSuite(old(operations), mesure, aggfunc)
    {
      var aggIndex := IndexOf(operations, "agg");
      ghost var suite := operations;
      operations := Insert(operations, aggIndex, aggfunc);
      operations := Insert(operations, aggIndex, mesure);
      operations := Pop(operations, aggIndex + 2);
      InsertTwicePop(suite, aggIndex, mesure, aggfunc);
    }

    /** `getattr` on the transformer: its attributes and class constants all carry a `_`
        before the name `Field` looks up. */
    function Attribute(name: string): Option<Value>
    {
      if |name| > 0 && name[0] == '_' then Field(name[1..]) else None
    }

    /** The attribute `_` + `bare`. */
    function Field(bare: string): Option<Value>
    {
      if bare == "entity" then Some(entity)
      else if bare == "freq" then Some(freq)
      else if bare == "mesure" then Some(Text(mesure))
      else if bare == "unstack_level" then Some(unstackLevel)
      else if bare == "normalize_axis" then Some(normalizeAxis)
      else if bare == "aggfunc" then Some(Text(aggfunc))
      else if bare == "concept" then Some(Text(ConceptName(concept)))
      else if bare == "NONE" then Some(NoValue)
      else if bare == "REPLACE_ARG" then Some(ZeroToMissing)
      else if bare == "ROUND_ARG" then Some(Number(2))
      else None
    }

    /** The attribute `_` + a name is the field of that name. */
    lemma PrefixedAttribute(bare: string)
      ensures Attribute("_" + bare) == Field(bare)
    {
      assert ("_" + bare)[1..] == bare;
    }

    /** `__get_operation_arg`: the attribute `_` + the name in the argument table; an
        operation missing from the table is the `KeyError`. */
    function GetOperationArg(op: string): (r: Result<Value, string>)
      ensures r.Err? <==> op !in OperationArgNames
    {
      if op !in OperationArgNames then Err("KeyError")
      else
        var argNm := OperationArgNames[op];
        if argNm != "" then
          PrefixedAttribute(argNm);
          match Attribute("_" + argNm)
          case Some(v) => Ok(v)
          case None => assert false; Err("AttributeError")
        else Ok(NoValue)
    }

    /** Every listed operation reads the `_`-prefixed attribute its table row names. */
    lemma OperationArgFromPrefixed(op: string)
      requires op in OperationArgNames
      ensures Attribute("_" + OperationArgNames[op]).Some?
      ensures GetOperationArg(op) == Ok(Attribute("_" + OperationArgNames[op]).value)
    {
      PrefixedAttribute(OperationArgNames[op]);
    }

    /** The argument table row by row. */
    lemma OperationArgTable()
      ensures GetOperationArg("groupby") == Ok(entity)
      ensures GetOperationArg("resample") == Ok(freq)
      ensures GetOperationArg("agg") == Ok(Text(mesure))
      ensures GetOperationArg("unstack") == Ok(unstackLevel)
      ensures GetOperationArg("normalize") == Ok(normalizeAxis)
      ensures GetOperationArg("round") == Ok(Number(2))
      ensures GetOperationArg("replace") == Ok(ZeroToMissing)
      ensures forall op | op in ["reset_index", "sum", "nunique", "count"] :: GetOperationArg(op) == Ok(NoValue)
    {
      PrefixedAttribute("entity");
      PrefixedAttribute("freq");
      PrefixedAttribute("mesure");
      PrefixedAttribute("unstack_level");
      PrefixedAttribute("normalize_axis");
      PrefixedAttribute("ROUND_ARG");
      PrefixedAttribute("REPLACE_ARG");
      PrefixedAttribute("NONE");
    }

    /** `__get_operation_result`, as a classification (the same rule as the src
        transformer, over this transformer's arguments). */
    function GetOperationResult(op: string, hasMethod: string -> bool): (r: Dispatch)
      ensures r.AttributeAccess? <==> op !in OperationArgNames
      ensures r.MethodCall? <==> op in OperationArgNames && hasMethod(op)
      ensures r.MethodCall? ==>
                (r.name == op &&
                 (r.arg.None? <==> GetOperationArg(op) == Ok(NoValue)) &&
                 (r.arg.Some? ==> GetOperationArg(op) == Ok(r.arg.value)))
      ensures r.CustomNormalize? <==> op == "normalize" && !hasMethod(op)
      ensures r.CustomNormalize? ==> r.axis == normalizeAxis
      ensures r.Unsupported? <==> op in OperationArgNames && !hasMethod(op) && op != "normalize"
      ensures r.Unsupported? ==> r.message == "Operation: " + op + " is not supported"
    {
      match GetOperationArg(op)
      case Err(_) => AttributeAccess(op)
      case Ok(arg) =>
        if hasMethod(op) then MethodCall(op, if arg != NoValue then Some(arg) else None)
        else if op == "normalize" then CustomNormalize(arg)
        else Unsupported("Operation: " + op + " is not supported")
    }
  }

  /** The module-level figure argument structures: no title, and none at all for the
      heat maps. */
  function AnalyticsFigArgStruct(c: Concept): map<string, string>
  {
    match c
    case Specialization => map[]
    case Stability => map[]
    case Evolution => map["x" := "time", "y" := "mesure"]
    case Size => map["x" := "mesure", "y" := "entity", "orientation" := "$h"]
    case Repartition => map["names" := "entity", "values" := "mesure"]
  }

  class FigGenerator {
    const transformer: Transformer
    const figArgStruct: map<string, string>
    const time: string

    /** `__init__`: the time column and the concept's argument structure, then the
        transformer part. */
    constructor (concept: Concept, mesure: string, entity: Value, normalizeAxis: Value,
                 aggfunc: string, freq: Value, unstackLevel: Value)
      ensures fresh(transformer) && transformer.concept == concept && transformer.mesure == mesure
      ensures transformer.entity == entity && transformer.aggfunc == aggfunc
      ensures transformer.normalizeAxis == normalizeAxis && transformer.freq == freq
      ensures transformer.unstackLevel == unstackLevel
      ensures "agg" in OperationSuite(concept)
      ensures transformer.operations == FilledSuite(OperationSuite(concept), mesure, aggfunc)
      ensures figArgStruct == AnalyticsFigArgStruct(concept) && time == "creation_dt"
    {
      time := "creation_dt";
      figArgStruct := AnalyticsFigArgStruct(concept);
      transformer := new Transformer(concept, mesure, entity, normalizeAxis, aggfunc, freq, unstackLevel);
    }

    /** `getattr` on the figure generator: `_time`, then the transformer's attributes. */
    function Attribute(name: string): Option<Value>
    {
      if name == "_time" then Some(Text(time)) else transformer.Attribute(name)
    }

    /** One entry of the structure: a `$`-prefixed value is the literal without its `$`,
        any other names the attribute `_` + value. */
    function FigArgValue(v: string): (r: Option<Value>)
      ensures |v| > 0 && v[0] == '$' ==> r == Some(Text(v[1..]))
      ensures |v| > 0 && v[0] != '$' ==> r == Attribute("_" + v)
      ensures |v| == 0 ==> r.None?
    {
      if |v| == 0 then None
      else if v[0] == '$' then Some(Text(v[1..]))
      else Attribute("_" + v)
    }

    /** `__get_fig_arg`: a dictionary with the structure's keys, each bound to its
        entry's value; it fails as soon as an entry does not resolve. */
    method GetFigArg() returns (r: Result<map<string, Value>, string>)
      ensures r.Ok? <==> forall k | k in figArgStruct :: FigArgValue(figArgStruct[k]).Some?
      ensures r.Ok? ==> r.value.Keys == figArgStruct.Keys
      ensures r.Ok? ==> forall k | k in figArgStruct :: r.value[k] == FigArgValue(figArgStruct[k]).value
    {
      var figArg: map<string, Value> := map[];
      var todo := figArgStruct.Keys;
      while todo != {}
        invariant todo <= figArgStruct.Keys
        invariant figArg.Keys == figArgStruct.Keys - todo
        invariant forall k | k in figArg :: FigArgValue(figArgStruct[k]) == Some(figArg[k])
        decreases |todo|
      {
        var k :| k in todo;
        match FigArgValue(figArgStruct[k])
        case None =>
          return Err("AttributeError");
        case Some(v) =>
          figArg := figArg[k := v];
        todo := todo - {k};
      }
      return Ok(figArg);
    }

    /** The values the structures use and what they resolve to. */
    lemma NamedValues()
      ensures FigArgValue("time") == Some(Text(time))
      ensures FigArgValue("mesure") == Some(Text(transformer.mesure))
      ensures FigArgValue("entity") == Some(transformer.entity)
      ensures FigArgValue("$h") == Some(Text("h"))
    {
      assert "_" + "time" == "_time";
      assert "_" + "mesure" == "_mesure";
      assert "_" + "entity" == "_entity";
      assert "$h"[1..] == "h";
    }

    /** Every structure of the table resolves; the heat maps take no figure argument and
        the size chart is drawn horizontally with the measure on x and the entity on y. */
    lemma FigArgResolves()
      requires figArgStruct == AnalyticsFigArgStruct(transformer.concept)
      ensures forall k | k in figArgStruct :: FigArgValue(figArgStruct[k]).Some?
      ensures transformer.concept in {Stability, Specialization} ==> figArgStruct == map[]
      ensures transformer.concept == Size ==>
                (FigArgValue(figArgStruct["orientation"]) == Some(Text("h")) &&
                 FigArgValue(figArgStruct["x"]) == Some(Text(transformer.mesure)) &&
                 FigArgValue(figArgStruct["y"]) == Some(transformer.entity))
    {
      NamedValues();
      forall k | k in figArgStruct
        ensures FigArgValue(figArgStruct[k]).Some?
      {
        assert figArgStruct[k] in {"time", "mesure", "entity", "$h"};
      }
    }
  }
}

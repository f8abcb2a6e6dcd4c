/** Turning a method signature into a docutils directive,
    lib/sphinx_exhibit/_util.py.

    `directive_runner` reads the parameters of the decorated method: the
    positional ones become the directive's required and optional arguments,
    the keyword-only ones its options (with `_` spelled `-`). The generated
    `run` converts each value through its parameter's annotation and calls
    the method with option names spelled back with `_`. */
module DirectiveRunner {
  import opened Wrappers

  // -------------------------------------------------------------------
  // `item`

  datatype ItemError = NotOneItem(length: nat)

  /** `obj, = seq`: the only element, or the unpacking error. */
  function Item<T>(s: seq<T>): (r: Result<T, ItemError>)
    ensures r.Success? <==> |s| == 1
    ensures r.Success? ==> s == [r.value]
    ensures r.Failure? ==> r.error.length == |s|
  {
    if |s| == 1 then Success(s[0]) else Failure(NotOneItem(|s|))
  }

  // -------------------------------------------------------------------
  // Parameters and option names

  /** The kinds of `inspect.Parameter`. */
  datatype Kind = PositionalOnly | PositionalOrKeyword | VarPositional | KeywordOnly | VarKeyword

  /** A parameter: its name, kind, whether it has a default and the name of
      its annotation, if any. */
  datatype Param = Param(name: string, kind: Kind, hasDefault: bool, annotation: Option<string>)

  /** A directive argument or option value: the text docutils passes, or the
      result of calling an annotation on a value. */
  datatype Value = Raw(text: string) | Converted(annotation: string, arg: Value)

  predicate IsPositional(p: Param) {
    p.kind == PositionalOnly || p.kind == PositionalOrKeyword
  }

  /** `s.replace(a, b)` for single characters `a` and `b`. */
  function Replaced(s: string, a: char, b: char): (r: string)
    ensures |r| == |s|
    ensures a != b ==> a !in r
  {
    if s == [] then []
    else [if s[0] == a then b else s[0]] + Replaced(s[1..], a, b)
  }

  /** `name.replace("_", "-")`. */
  function Dashed(name: string): string {
    Replaced(name, '_', '-')
  }

  /** `name.replace("-", "_")`. */
  function Undashed(name: string): string {
    Replaced(name, '-', '_')
  }

  /** Spelling a Python identifier (which has no `-`) with dashes and back gives it back. */
  lemma {:induction false} UndashedDashed(name: string)
    requires '-' !in name
    ensures Undashed(Dashed(name)) == name
  {
    if name != [] {
      assert '-' !in name[1..] by {
        assert forall c :: c in name[1..] ==> c in name;
      }
      UndashedDashed(name[1..]);
      assert Dashed(name)[0] == (if name[0] == '_' then '-' else name[0]);
      assert Dashed(name)[1..] == Dashed(name[1..]);
    }
  }

  /** Distinct identifiers get distinct option names. */
  lemma DashedInjective(a: string, b: string)
    requires '-' !in a && '-' !in b && Dashed(a) == Dashed(b)
    ensures a == b
  {
    UndashedDashed(a);
    UndashedDashed(b);
  }

  // -------------------------------------------------------------------
  // The parameter loop of `directive_runner`

  /** The class attributes the decorator sets. Options are all plain
      pass-through converters, so only their names are kept. */
  datatype DirectiveSpec = DirectiveSpec(requiredArguments: nat, optionalArguments: nat, optionSpec: set<string>)

  datatype SpecError = UnsupportedKind(param: Param)

  /** The loop body for one parameter. */
  function Classify(spec: DirectiveSpec, p: Param): Result<DirectiveSpec, SpecError> {
    if IsPositional(p) then
      if !p.hasDefault then Success(spec.(requiredArguments := spec.requiredArguments + 1))
      else Success(spec.(optionalArguments := spec.optionalArguments + 1))
    else if p.kind == KeywordOnly then
      Success(spec.(optionSpec := spec.optionSpec + {Dashed(p.name)}))
    else Failure(UnsupportedKind(p))
  }

  /** The loop over all parameters, stopping at the first unsupported one. */
  function DeriveSpec(params: seq<Param>): Result<DirectiveSpec, SpecError> {
    if params == [] then Success(DirectiveSpec(0, 0, {}))
    else
      var spec :- DeriveSpec(params[..|params| - 1]);
      Classify(spec, params[|params| - 1])
  }

  method DirectiveRunnerSpec(params: seq<Param>) returns (r: Result<DirectiveSpec, SpecError>)
    ensures r == DeriveSpec(params)
  {
    var requiredArguments := 0;
    var optionalArguments := 0;
    var optionSpec: set<string> := {};
    for i := 0 to |params|
      invariant DeriveSpec(params[..i]) == Success(DirectiveSpec(requiredArguments, optionalArguments, optionSpec))
    {
      assert params[..i + 1][..i] == params[..i];
      var param := params[i];
      if param.kind == PositionalOnly || param.kind == PositionalOrKeyword {
        if !param.hasDefault {
          requiredArguments := requiredArguments + 1;
        } else {
          optionalArguments := optionalArguments + 1;
        }
      } else if param.kind == KeywordOnly {
        optionSpec := optionSpec + {Dashed(param.name)};
      } else {
        DeriveSpecFailureSticks(params, i + 1);
        return Failure(UnsupportedKind(param));
      }
    }
    assert params[..|params|] == params;
    r := Success(DirectiveSpec(requiredArguments, optionalArguments, optionSpec));
  }

  lemma {:induction false} DeriveSpecFailureSticks(params: seq<Param>, n: nat)
    requires n <= |params| && DeriveSpec(params[..n]).Failure?
    ensures DeriveSpec(params) == DeriveSpec(params[..n])
    decreases |params| - n
  {
    if n == |params| {
      assert params[..n] == params;
    } else {
      var init := params[..|params| - 1];
      assert init[..n] == params[..n];
      DeriveSpecFailureSticks(init, n);
    }
  }

  /** How many parameters satisfy `p`. */
  function CountWhere(params: seq<Param>, p: Param -> bool): (n: nat)
    ensures n <= |params|
  {
    if params == [] then 0
    else CountWhere(params[..|params| - 1], p) + (if p(params[|params| - 1]) then 1 else 0)
  }

  predicate IsRequired(p: Param) { IsPositional(p) && !p.hasDefault }

  predicate IsOptional(p: Param) { IsPositional(p) && p.hasDefault }

  predicate IsKeywordOnly(p: Param) { p.kind == KeywordOnly }

  predicate Unsupported(p: Param) { p.kind == VarPositional || p.kind == VarKeyword }

  /** The derivation fails exactly when some parameter is `*args` or
      `**kwargs`, and then it names the first of them. */
  lemma DeriveSpecFails(params: seq<Param>)
    ensures DeriveSpec(params).Failure? <==> exists i :: 0 <= i < |params| && Unsupported(params[i])
    ensures DeriveSpec(params).Failure? ==>
      exists i :: 0 <= i < |params| && DeriveSpec(params).error == UnsupportedKind(params[i])
        && Unsupported(params[i]) && forall j :: 0 <= j < i ==> !Unsupported(params[j])
  {
    DeriveSpecFailsIff(params);
    if DeriveSpec(params).Failure? {
      DeriveSpecFirstFailure(params);
    }
  }

  lemma {:induction false} DeriveSpecFailsIff(params: seq<Param>)
    ensures DeriveSpec(params).Failure? <==> exists i :: 0 <= i < |params| && Unsupported(params[i])
  {
    if params != [] {
      var init := params[..|params| - 1];
      var last := params[|params| - 1];
      DeriveSpecFailsIff(init);
      if DeriveSpec(init).Failure? {
        var i :| 0 <= i < |init| && Unsupported(init[i]);
        assert params[i] == init[i];
      } else if !Unsupported(last) {
        forall i | 0 <= i < |params|
          ensures !Unsupported(params[i])
        {
          if i < |init| {
            assert params[i] == init[i];
          }
        }
      }
    }
  }

  lemma {:induction false} DeriveSpecFirstFailure(params: seq<Param>)
    requires DeriveSpec(params).Failure?
    ensures exists i :: 0 <= i < |params| && DeriveSpec(params).error == UnsupportedKind(params[i])
              && Unsupported(params[i]) && forall j :: 0 <= j < i ==> !Unsupported(params[j])
  {
    var init := params[..|params| - 1];
    if DeriveSpec(init).Failure? {
      DeriveSpecFirstFailure(init);
      var i :| 0 <= i < |init| && DeriveSpec(init).error == UnsupportedKind(init[i])
        && Unsupported(init[i]) && forall j :: 0 <= j < i ==> !Unsupported(init[j]);
      assert forall j :: 0 <= j <= i ==> params[j] == init[j];
    } else {
      DeriveSpecFailsIff(init);
      assert forall j :: 0 <= j < |init| ==> params[j] == init[j];
      assert DeriveSpec(params).error == UnsupportedKind(params[|params| - 1]);
    }
  }

  /** On success the counts are those of the positional parameters without
      and with a default, and the options are the keyword-only names with dashes. */
  lemma {:induction false} DeriveSpecCounts(params: seq<Param>)
    requires DeriveSpec(params).Success?
    ensures DeriveSpec(params).value.requiredArguments == CountWhere(params, IsRequired)
    ensures DeriveSpec(params).value.optionalArguments == CountWhere(params, IsOptional)
    ensures forall o :: o in DeriveSpec(params).value.optionSpec <==>
      exists i :: 0 <= i < |params| && IsKeywordOnly(params[i]) && o == Dashed(params[i].name)
  {
    if params != [] {
      var init := params[..|params| - 1];
      var last := params[|params| - 1];
      DeriveSpecCounts(init);
      forall o | o in DeriveSpec(params).value.optionSpec
        ensures exists i :: 0 <= i < |params| && IsKeywordOnly(params[i]) && o == Dashed(params[i].name)
      {
        if o in DeriveSpec(init).value.optionSpec {
          var i :| 0 <= i < |init| && IsKeywordOnly(init[i]) && o == Dashed(init[i].name);
          assert params[i] == init[i];
        }
      }
      forall o | exists i :: 0 <= i < |params| && IsKeywordOnly(params[i]) && o == Dashed(params[i].name)
        ensures o in DeriveSpec(params).value.optionSpec
      {
        var i :| 0 <= i < |params| && IsKeywordOnly(params[i]) && o == Dashed(params[i].name);
        if i < |init| {
          assert init[i] == params[i];
        }
      }
    }
  }

  /** Parameter names are distinct identifiers. */
  predicate DistinctIdentifiers(params: seq<Param>) {
    && (forall i :: 0 <= i < |params| ==> '-' !in params[i].name)
    && (forall i, j :: 0 <= i < j < |params| ==> params[i].name != params[j].name)
  }

  /** Every parameter lands in exactly one place: an argument count or an
      option, one option per keyword-only parameter. */
  lemma {:induction false} DeriveSpecAccountsForAll(params: seq<Param>)
    requires DistinctIdentifiers(params)
    requires DeriveSpec(params).Success?
    ensures var spec := DeriveSpec(params).value;
      spec.requiredArguments + spec.optionalArguments + |spec.optionSpec| == |params|
  {
    if params != [] {
      var init := params[..|params| - 1];
      var last := params[|params| - 1];
      assert DistinctIdentifiers(init);
      DeriveSpecAccountsForAll(init);
      if IsKeywordOnly(last) {
        var spec := DeriveSpec(init).value;
        assert Dashed(last.name) !in spec.optionSpec by {
          DeriveSpecCounts(init);
          if Dashed(last.name) in spec.optionSpec {
            var i :| 0 <= i < |init| && IsKeywordOnly(init[i]) && Dashed(last.name) == Dashed(init[i].name);
            DashedInjective(last.name, init[i].name);
            assert false;
          }
        }
      }
    }
  }

  // -------------------------------------------------------------------
  // `run`

  /** `apply_annotation`: the value through the parameter's annotation, if it has one. */
  function ApplyAnnotation(p: Param, v: Value): Value {
    if p.annotation.None? then v else Converted(p.annotation.value, v)
  }

  /** The value goes through the parameter's annotation exactly when there is
      one (a conversion is recorded as a `Converted` wrapper); otherwise it is
      passed on unconverted. */
  lemma ApplyAnnotationUnchanged(p: Param, v: Value)
    ensures ApplyAnnotation(p, v) == v <==> p.annotation.None?
  {
    if p.annotation.Some? {
      assert v < ApplyAnnotation(p, v);
    }
  }

  /** `sig.parameters[name]`: the parameter with that name. */
  function ParamNamed(params: seq<Param>, name: string): (r: Option<Param>)
    ensures r.Some? ==> r.value in params && r.value.name == name
    ensures r.None? ==> forall i :: 0 <= i < |params| ==> params[i].name != name
  {
    if params == [] then None
    else if params[0].name == name then Some(params[0])
    else ParamNamed(params[1..], name)
  }

  /** The call `run` makes: positional values and keyword values, in order. */
  datatype Call = Call(args: seq<Value>, kwargs: seq<(string, Value)>)

  /** Option names docutils can pass are names of parameters once spelled back. */
  predicate KnownOptions(params: seq<Param>, options: seq<(string, Value)>) {
    forall i :: 0 <= i < |options| ==> ParamNamed(params, Undashed(options[i].0)).Some?
  }

  /** The options dict after conversion. */
  function ConvertOptions(params: seq<Param>, options: seq<(string, Value)>): (r: seq<(string, Value)>)
    requires KnownOptions(params, options)
    ensures |r| == |options|
    ensures forall i :: 0 <= i < |options| ==>
      r[i] == (options[i].0, ApplyAnnotation(ParamNamed(params, Undashed(options[i].0)).value, options[i].1))
  {
    seq(|options|, i requires 0 <= i < |options| =>
      (options[i].0, ApplyAnnotation(ParamNamed(params, Undashed(options[i].0)).value, options[i].1)))
  }

  /** The keyword arguments of the call: option names spelled back with `_`. */
  function KeywordArguments(options: seq<(string, Value)>): (r: seq<(string, Value)>)
    ensures |r| == |options|
    ensures forall i :: 0 <= i < |options| ==> r[i] == (Undashed(options[i].0), options[i].1)
  {
    seq(|options|, i requires 0 <= i < |options| => (Undashed(options[i].0), options[i].1))
  }

  /** The directive instance docutils builds: its arguments and options. */
  class Directive {
    var arguments: seq<Value>
    var options: seq<(string, Value)>

    constructor(arguments: seq<Value>, options: seq<(string, Value)>)
      ensures this.arguments == arguments && this.options == options
    {
      this.arguments := arguments;
      this.options := options;
    }

    /** `run`: converts the arguments in place, replaces the options, and makes the call. */
    method Run(params: seq<Param>) returns (call: Call)
      requires |arguments| <= |params|
      requires KnownOptions(params, options)
      modifies this
      ensures |arguments| == |old(arguments)|
      ensures forall i :: 0 <= i < |arguments| ==> arguments[i] == ApplyAnnotation(params[i], old(arguments)[i])
      ensures options == ConvertOptions(params, old(options))
      ensures call == Call(arguments, KeywordArguments(options))
    {
      for i := 0 to |arguments|
        invariant |arguments| == |old(arguments)|
        invariant forall k :: 0 <= k < i ==> arguments[k] == ApplyAnnotation(params[k], old(arguments)[k])
        invariant forall k :: i <= k < |arguments| ==> arguments[k] == old(arguments)[k]
        invariant options == old(options)
      {
        arguments := arguments[i := ApplyAnnotation(params[i], arguments[i])];
      }
      options := ConvertOptions(params, options);
      call := Call(arguments, KeywordArguments(options));
    }
  }

  /** For options named from keyword-only parameters, the call passes each
      value under the parameter's own name, converted by its annotation. */
  lemma CallUsesParameterNames(params: seq<Param>, options: seq<(string, Value)>, i: nat)
    requires DistinctIdentifiers(params)
    requires i < |options|
    requires exists j :: 0 <= j < |params| && IsKeywordOnly(params[j]) && options[i].0 == Dashed(params[j].name)
    ensures KnownOptions(params, [options[i]])
    ensures exists j :: (0 <= j < |params| && IsKeywordOnly(params[j])
      && KeywordArguments(ConvertOptions(params, [options[i]]))[0] == (params[j].name, ApplyAnnotation(params[j], options[i].1)))
  {
    var j :| 0 <= j < |params| && IsKeywordOnly(params[j]) && options[i].0 == Dashed(params[j].name);
    UndashedDashed(params[j].name);
    var found := ParamNamed(params, params[j].name);
    var k :| 0 <= k < |params| && params[k] == found.value;
    assert k == j;
  }
}

/**
 The surface case generator of scripts/e2e/_lib/surface_matrix.py: dry-run invocations that together
 exercise every parameter of a command. The texts of parameter values are inputs.
 */
module SurfaceMatrix {
  import opened Prelude
  import opened Strings

  /** A parameter of a command; an absent long name is the empty string. */
  datatype Parameter = Parameter(name: string, long: string, positional: bool, required: bool, takesValue: bool) {
    /** `_parameter_key`: the long name, or else the name; a parameter with neither is an assertion error. */
    function Key(): string {
      if long != "" then long else name
    }
  }

  /** One text of a command line; a positional argument remembers the key of the parameter it is for. */
  datatype Token = Word(text: string) | Flag(long: string) | Value(text: string) | Argument(key: string, text: string)

  /** The texts that the value helpers produce for one command. */
  datatype Values = Values(
    named: Parameter -> string,
    positional: (Parameter, nat) -> string,
    bucket: string,
    bucketUri: string,
    objectKey: string)

  datatype Variant = Variant(args: seq<Token>, covered: set<string>, excluded: set<string>)

  datatype SurfaceCase = SurfaceCase(args: seq<Token>, covered: set<string>)

  datatype GenerationError = UnexpectedCommandShape | ParameterWithoutKey | NoBucketParameter

  // ----- Parameter lists -----

  function Positional(parameters: seq<Parameter>): seq<Parameter> {
    if parameters == [] then []
    else if parameters[0].positional then [parameters[0]] + Positional(parameters[1..])
    else Positional(parameters[1..])
  }

  function Named(parameters: seq<Parameter>): seq<Parameter> {
    if parameters == [] then []
    else if parameters[0].long != "" then [parameters[0]] + Named(parameters[1..])
    else Named(parameters[1..])
  }

  function Keys(parameters: seq<Parameter>): (keys: set<string>)
    ensures forall k :: k in keys <==> exists i :: 0 <= i < |parameters| && parameters[i].Key() == k
  {
    set i | 0 <= i < |parameters| :: parameters[i].Key()
  }

  ghost predicate DistinctKeys(parameters: seq<Parameter>) {
    forall i, j :: 0 <= i < j < |parameters| ==> parameters[i].Key() != parameters[j].Key()
  }

  /** The flags on a command line, in order. */
  function Flags(args: seq<Token>): seq<string> {
    if args == [] then []
    else if args[0].Flag? then [args[0].long] + Flags(args[1..])
    else Flags(args[1..])
  }

  /** The keys of the positional arguments on a command line, in order. */
  function ArgumentKeys(args: seq<Token>): seq<string> {
    if args == [] then []
    else if args[0].Argument? then [args[0].key] + ArgumentKeys(args[1..])
    else ArgumentKeys(args[1..])
  }

  ghost predicate NoRepeats(flags: seq<string>) {
    forall i, j :: 0 <= i < j < |flags| ==> flags[i] != flags[j]
  }

  // ----- Identity variants -----

  /** `--long` and, unless the parameter is a switch, its value. */
  function Emit(values: Values, p: Parameter): seq<Token> {
    if p.takesValue then [Flag(p.long), Value(values.named(p))] else [Flag(p.long)]
  }

  function EmitAll(values: Values, parameters: seq<Parameter>): seq<Token> {
    if parameters == [] then [] else Emit(values, parameters[0]) + EmitAll(values, parameters[1..])
  }

  function Required(named: seq<Parameter>): seq<Parameter> {
    if named == [] then []
    else if named[0].required then [named[0]] + Required(named[1..])
    else Required(named[1..])
  }

  function PositionalArgument(values: Values, p: Parameter, index: nat): Token {
    Argument(p.Key(), values.positional(p, index))
  }

  function PositionalArgs(values: Values, positional: seq<Parameter>): (args: seq<Token>)
    ensures |args| == |positional|
    ensures forall i :: 0 <= i < |args| ==> args[i] == PositionalArgument(values, positional[i], i)
  {
    seq(|positional|, i requires 0 <= i < |positional| => PositionalArgument(values, positional[i], i))
  }

  /** `--bucket`, and `--key` and `--prefix` where the command has them. */
  function TargetArgs(values: Values, namedKeys: set<string>): seq<Token> {
    [Flag("bucket"), Value(values.bucket)]
    + (if "key" in namedKeys then [Flag("key"), Value(values.objectKey)] else [])
    + (if "prefix" in namedKeys then [Flag("prefix"), Value("prefix/")] else [])
  }

  function TargetKeys(namedKeys: set<string>): set<string> {
    {"bucket"} + ({"key", "prefix"} * namedKeys)
  }

  /** A target given as one positional argument, or as flags. */
  function TargetVariants(values: Values, key: string, argument: Token, namedKeys: set<string>): seq<Variant> {
    [Variant([argument], {key}, {"bucket", "key", "prefix"}),
     Variant(TargetArgs(values, namedKeys), TargetKeys(namedKeys), {key})]
  }

  function IndexOfKey(parameters: seq<Parameter>, key: string): (i: nat)
    requires key in Keys(parameters)
    ensures i < |parameters| && parameters[i].Key() == key
  {
    if parameters[0].Key() == key then 0
    else
      assert forall i :: 0 < i < |parameters| ==> parameters[i] == parameters[1..][i - 1];
      1 + IndexOfKey(parameters[1..], key)
  }

  /** The first positional parameter whose name starts with "bucket". */
  function BucketParameter(positional: seq<Parameter>): (found: Option<Parameter>)
    ensures found.Some? ==> found.value in positional
  {
    if positional == [] then None
    else if StartsWith(AsciiLower(positional[0].name), "bucket") then Some(positional[0])
    else BucketParameter(positional[1..])
  }

  predicate TargetsUri(positionalKeys: set<string>, namedKeys: set<string>) {
    "uri" in positionalKeys && "bucket" in namedKeys
  }

  predicate TargetsPath(positionalKeys: set<string>, namedKeys: set<string>) {
    "path" in positionalKeys && "bucket" in namedKeys
  }

  predicate TargetsBucket(positionalKeys: set<string>, namedKeys: set<string>) {
    (exists k :: k in positionalKeys && StartsWith(k, "bucket")) && "bucket" in namedKeys
  }

  function IdentityVariants(values: Values, positional: seq<Parameter>, named: seq<Parameter>)
    : Result<seq<Variant>, GenerationError>
  {
    var namedKeys := Keys(named);
    var positionalKeys := Keys(positional);
    if "" in positionalKeys then Failure(ParameterWithoutKey)
    else if TargetsUri(positionalKeys, namedKeys) then
      Success(TargetVariants(values, "uri", PositionalArgument(values, positional[0], 0), namedKeys))
    else if TargetsPath(positionalKeys, namedKeys) then
      var path := positional[IndexOfKey(positional, "path")];
      Success(TargetVariants(values, "path", PositionalArgument(values, path, 0), namedKeys))
    else if TargetsBucket(positionalKeys, namedKeys) then
      match BucketParameter(positional)
      case None => Failure(NoBucketParameter)
      case Some(p) =>
        Success([Variant([Argument(p.Key(), values.bucketUri)], {p.Key()}, {"bucket"}),
                 Variant([Flag("bucket"), Value(values.bucket)], {"bucket"}, {p.Key()})])
    else if positional != [] then
      Success([Variant(PositionalArgs(values, positional), positionalKeys, {})])
    else
      Success([Variant(EmitAll(values, Required(named)), Keys(Required(named)), {})])
  }

  // ----- Parameter modes -----

  const GRANTS := {"grant-full-control", "grant-read", "grant-read-non-list", "grant-read-acp", "grant-write",
                   "grant-write-acp"}

  function ModeExclusions(command: string): seq<set<string>> {
    if command == "ve-tos bucket delete" then [{"destroy"}, {"force"}]
    else if command == "ve-tos acl set" then [{"acl"} + GRANTS, {"config"} + GRANTS, {"config", "acl"}]
    else []
  }

  /** Each variant in each mode, variants outermost. */
  function ExpandModes(variants: seq<Variant>, modes: seq<set<string>>): seq<Variant> {
    if variants == [] then []
    else if modes == [] then variants
    else InModes(variants[0], modes) + ExpandModes(variants[1..], modes)
  }

  function InModes(variant: Variant, modes: seq<set<string>>): (expanded: seq<Variant>)
    ensures |expanded| == |modes|
    ensures forall m :: 0 <= m < |modes| ==>
              expanded[m] == variant.(excluded := variant.excluded + modes[m])
  {
    seq(|modes|, m requires 0 <= m < |modes| => variant.(excluded := variant.excluded + modes[m]))
  }

  // ----- The fill loop -----

  /** The named parameters that a variant neither covers nor excludes, in order. */
  function Unfilled(named: seq<Parameter>, covered: set<string>, excluded: set<string>): seq<Parameter> {
    if named == [] then []
    else if named[0].Key() in excluded || named[0].Key() in covered then Unfilled(named[1..], covered, excluded)
    else [named[0]] + Unfilled(named[1..], covered + {named[0].Key()}, excluded)
  }

  /** The case that one variant gives. */
  function CaseOf(values: Values, words: seq<Token>, named: seq<Parameter>, variant: Variant): SurfaceCase {
    var added := Unfilled(named, variant.covered, variant.excluded);
    SurfaceCase(words + variant.args + EmitAll(values, added), variant.covered + Keys(added))
  }

  function AllCases(values: Values, words: seq<Token>, named: seq<Parameter>, variants: seq<Variant>)
    : (cases: seq<SurfaceCase>)
    ensures |cases| == |variants|
    ensures forall i :: 0 <= i < |cases| ==> cases[i] == CaseOf(values, words, named, variants[i])
  {
    seq(|variants|, i requires 0 <= i < |variants| => CaseOf(values, words, named, variants[i]))
  }

  method FillCase(values: Values, words: seq<Token>, named: seq<Parameter>, variant: Variant)
    returns (built: SurfaceCase)
    ensures built == CaseOf(values, words, named, variant)
  {
    var args := words + variant.args;
    var covered := variant.covered;
    ghost var added := Unfilled(named, variant.covered, variant.excluded);
    var i := 0;
    assert named[0..] == named;
    while i < |named|
      invariant i <= |named|
      invariant words + variant.args + EmitAll(values, added)
                == args + EmitAll(values, Unfilled(named[i..], covered, variant.excluded))
      invariant variant.covered + Keys(added) == covered + Keys(Unfilled(named[i..], covered, variant.excluded))
    {
      assert named[i..][1..] == named[i + 1..];
      var p := named[i];
      i := i + 1;
      if p.Key() in variant.excluded || p.Key() in covered {
        continue;
      }
      ghost var rest := Unfilled(named[i..], covered + {p.Key()}, variant.excluded);
      EmitCons(values, p, rest);
      EmitAssoc(args, Emit(values, p), EmitAll(values, rest));
      args := args + [Flag(p.long)];
      covered := covered + {p.Key()};
      if p.takesValue {
        args := args + [Value(values.named(p))];
      }
    }
    assert named[i..] == [];
    return SurfaceCase(args, covered);
  }

  lemma {:induction false} EmitCons(values: Values, p: Parameter, rest: seq<Parameter>)
    ensures EmitAll(values, [p] + rest) == Emit(values, p) + EmitAll(values, rest)
    ensures Keys([p] + rest) == {p.Key()} + Keys(rest)
  {
  }

  lemma {:induction false} EmitAssoc(a: seq<Token>, b: seq<Token>, c: seq<Token>)
    ensures a + (b + c) == a + b + c
    ensures |b| == 2 ==> a + b == a + [b[0]] + [b[1]]
  {
  }

  function CommandWords(command: string): (words: seq<Token>)
    ensures forall i :: 0 <= i < |words| ==> words[i].Word?
  {
    var texts := Words(command, IsSpace);
    seq(|texts|, i requires 0 <= i < |texts| => Word(texts[i]))
  }

  predicate IsExpectedShape(command: string) {
    var texts := Words(command, IsSpace);
    |texts| >= 2 && texts[0] in {"tos", "ve-tos"}
  }

  /** `build_surface_cases`. */
  method BuildSurfaceCases(values: Values, command: string, parameters: seq<Parameter>)
    returns (result: Result<seq<SurfaceCase>, GenerationError>)
    ensures result == SurfaceCases(values, command, parameters)
  {
    if !IsExpectedShape(command) {
      return Failure(UnexpectedCommandShape);
    }
    var named := Named(parameters);
    var identity := IdentityVariants(values, Positional(parameters), named);
    if identity.Failure? {
      return Failure(identity.error);
    }
    var variants := ExpandModes(identity.value, ModeExclusions(command));
    var cases: seq<SurfaceCase> := [];
    for i := 0 to |variants|
      invariant |cases| == i
      invariant forall j :: 0 <= j < i ==> cases[j] == CaseOf(values, CommandWords(command), named, variants[j])
    {
      var built := FillCase(values, CommandWords(command), named, variants[i]);
      cases := cases + [built];
    }
    assert cases == AllCases(values, CommandWords(command), named, variants);
    return Success(cases);
  }

  function SurfaceCases(values: Values, command: string, parameters: seq<Parameter>)
    : Result<seq<SurfaceCase>, GenerationError>
  {
    if !IsExpectedShape(command) then Failure(UnexpectedCommandShape)
    else
      match IdentityVariants(values, Positional(parameters), Named(parameters))
      case Failure(error) => Failure(error)
      case Success(variants) =>
        Success(AllCases(values, CommandWords(command), Named(parameters),
                         ExpandModes(variants, ModeExclusions(command))))
  }

  // ----- Flags on a command line -----

  lemma {:induction false} FlagsConcat(a: seq<Token>, b: seq<Token>)
    ensures Flags(a + b) == Flags(a) + Flags(b)
    ensures ArgumentKeys(a + b) == ArgumentKeys(a) + ArgumentKeys(b)
  {
    if a == [] {
      assert a + b == b;
    } else {
      assert (a + b)[1..] == a[1..] + b;
      FlagsConcat(a[1..], b);
    }
  }

  lemma {:induction false} NoFlagsInWords(words: seq<Token>)
    requires forall i :: 0 <= i < |words| ==> words[i].Word?
    ensures Flags(words) == [] && ArgumentKeys(words) == []
  {
    if words != [] {
      NoFlagsInWords(words[1..]);
    }
  }

  function Longs(parameters: seq<Parameter>): (longs: seq<string>)
    ensures |longs| == |parameters|
    ensures forall i :: 0 <= i < |parameters| ==> longs[i] == parameters[i].long
  {
    seq(|parameters|, i requires 0 <= i < |parameters| => parameters[i].long)
  }

  lemma {:induction false} FlagsOfEmit(values: Values, p: Parameter)
    ensures Flags(Emit(values, p)) == [p.long] && ArgumentKeys(Emit(values, p)) == []
  {
    if p.takesValue {
      FlagThenValue(p.long, values.named(p));
    } else {
      assert Emit(values, p)[1..] == [];
    }
  }

  lemma {:induction false} FlagsOfEmitAll(values: Values, parameters: seq<Parameter>)
    ensures Flags(EmitAll(values, parameters)) == Longs(parameters) && ArgumentKeys(EmitAll(values, parameters)) == []
  {
    if parameters != [] {
      var p := parameters[0];
      FlagsOfEmitAll(values, parameters[1..]);
      FlagsOfEmit(values, p);
      FlagsConcat(Emit(values, p), EmitAll(values, parameters[1..]));
      assert Longs(parameters) == [p.long] + Longs(parameters[1..]);
    }
  }

  lemma {:induction false} FlagThenValue(long: string, text: string)
    ensures Flags([Flag(long), Value(text)]) == [long] && ArgumentKeys([Flag(long), Value(text)]) == []
  {
    assert [Flag(long), Value(text)][1..] == [Value(text)] && [Value(text)][1..] == [];
    assert Flags([Value(text)]) == Flags([]) && ArgumentKeys([Value(text)]) == ArgumentKeys([]);
  }

  lemma {:induction false} OneArgument(argument: Token)
    requires argument.Argument?
    ensures Flags([argument]) == [] && ArgumentKeys([argument]) == [argument.key]
  {
    assert [argument][1..] == [];
  }

  lemma {:induction false} OnlyArguments(args: seq<Token>)
    requires forall i :: 0 <= i < |args| ==> args[i].Argument?
    ensures Flags(args) == [] && |ArgumentKeys(args)| == |args|
    ensures forall i :: 0 <= i < |args| ==> ArgumentKeys(args)[i] == args[i].key
  {
    if args != [] {
      OnlyArguments(args[1..]);
    }
  }

  // ----- What the lists hold -----

  lemma {:induction false} NamedAre(parameters: seq<Parameter>)
    ensures forall p :: p in Named(parameters) <==> p in parameters && p.long != ""
  {
    if parameters != [] {
      NamedAre(parameters[1..]);
      assert parameters == [parameters[0]] + parameters[1..];
    }
  }

  lemma {:induction false} PositionalAre(parameters: seq<Parameter>)
    ensures forall p :: p in Positional(parameters) <==> p in parameters && p.positional
  {
    if parameters != [] {
      PositionalAre(parameters[1..]);
      assert parameters == [parameters[0]] + parameters[1..];
    }
  }

  lemma {:induction false} SameKeySame(parameters: seq<Parameter>, p: Parameter, q: Parameter)
    requires DistinctKeys(parameters) && p in parameters && q in parameters && p.Key() == q.Key()
    ensures p == q
  {
  }

  lemma {:induction false} UnfilledAre(named: seq<Parameter>, covered: set<string>, excluded: set<string>)
    requires DistinctKeys(named)
    ensures var added := Unfilled(named, covered, excluded);
            && (forall p :: p in added <==> p in named && p.Key() !in covered && p.Key() !in excluded)
            && DistinctKeys(added)
  {
    if named != [] {
      var p := named[0];
      var rest := named[1..];
      assert named == [p] + rest;
      assert forall i :: 0 <= i < |rest| ==> rest[i] == named[i + 1];
      if p.Key() in excluded || p.Key() in covered {
        UnfilledAre(rest, covered, excluded);
      } else {
        UnfilledAre(rest, covered + {p.Key()}, excluded);
      }
    }
  }

  lemma {:induction false} RequiredAre(named: seq<Parameter>)
    requires DistinctKeys(named)
    ensures forall p :: p in Required(named) <==> p in named && p.required
    ensures DistinctKeys(Required(named))
  {
    if named != [] {
      assert named == [named[0]] + named[1..];
      assert forall i :: 0 <= i < |named| - 1 ==> named[1..][i] == named[i + 1];
      RequiredAre(named[1..]);
    }
  }

  lemma {:induction false} NamedAreDistinct(parameters: seq<Parameter>)
    requires DistinctKeys(parameters)
    ensures DistinctKeys(Named(parameters))
  {
    if parameters != [] {
      var rest := parameters[1..];
      assert forall i :: 0 <= i < |rest| ==> rest[i] == parameters[i + 1];
      NamedAreDistinct(rest);
      NamedAre(rest);
    }
  }

  // ----- What every variant keeps -----

  /** A variant's flags are apart, covered, and everything it covers is emitted or positional. */
  ghost predicate Sound(v: Variant, positionalKeys: set<string>) {
    && NoRepeats(Flags(v.args))
    && (forall f :: f in Flags(v.args) ==> f in v.covered)
    && (forall k :: k in v.covered ==> k in Flags(v.args) || k in positionalKeys)
  }

  lemma {:induction false} TargetFlags(values: Values, namedKeys: set<string>)
    ensures var flags := Flags(TargetArgs(values, namedKeys));
            && flags == ["bucket"] + (if "key" in namedKeys then ["key"] else [])
                        + (if "prefix" in namedKeys then ["prefix"] else [])
            && NoRepeats(flags)
            && (forall k :: k in TargetKeys(namedKeys) <==> k in flags)
            && ArgumentKeys(TargetArgs(values, namedKeys)) == []
  {
    var key := if "key" in namedKeys then [Flag("key"), Value(values.objectKey)] else [];
    var prefix := if "prefix" in namedKeys then [Flag("prefix"), Value("prefix/")] else [];
    var bucket := [Flag("bucket"), Value(values.bucket)];
    FlagThenValue("bucket", values.bucket);
    FlagThenValue("key", values.objectKey);
    FlagThenValue("prefix", "prefix/");
    FlagsConcat(bucket + key, prefix);
    FlagsConcat(bucket, key);
    assert |"bucket"| == 6 && |"key"| == 3 && |"prefix"| == 6 && "bucket"[0] != "prefix"[0];
  }

  lemma {:induction false} TargetVariantsAreSound(values: Values, key: string, argument: Token,
                                                  namedKeys: set<string>, positionalKeys: set<string>)
    requires key in positionalKeys && argument.Argument?
    ensures var variants := TargetVariants(values, key, argument, namedKeys);
            Sound(variants[0], positionalKeys) && Sound(variants[1], positionalKeys)
  {
    OneArgument(argument);
    TargetFlags(values, namedKeys);
  }

  lemma {:induction false} RequiredVariantIsSound(values: Values, named: seq<Parameter>, positionalKeys: set<string>)
    requires DistinctKeys(named) && forall p :: p in named ==> p.long != ""
    ensures Sound(Variant(EmitAll(values, Required(named)), Keys(Required(named)), {}), positionalKeys)
  {
    var required := Required(named);
    RequiredAre(named);
    FlagsOfEmitAll(values, required);
    assert forall i :: 0 <= i < |required| ==> required[i] in named && required[i].Key() == Longs(required)[i];
  }

  lemma {:induction false} VariantsAreSound(values: Values, positional: seq<Parameter>, named: seq<Parameter>)
    requires DistinctKeys(named) && forall p :: p in named ==> p.long != ""
    requires IdentityVariants(values, positional, named).Success?
    ensures var variants := IdentityVariants(values, positional, named).value;
            forall i :: 0 <= i < |variants| ==> Sound(variants[i], Keys(positional))
  {
    hide TargetVariants, Sound;
    var namedKeys := Keys(named);
    var positionalKeys := Keys(positional);
    if TargetsUri(positionalKeys, namedKeys) {
      TargetVariantsAreSound(values, "uri", PositionalArgument(values, positional[0], 0), namedKeys, positionalKeys);
      TargetVariantsAreTwo(values, "uri", PositionalArgument(values, positional[0], 0), namedKeys);
    } else if TargetsPath(positionalKeys, namedKeys) {
      var path := positional[IndexOfKey(positional, "path")];
      TargetVariantsAreSound(values, "path", PositionalArgument(values, path, 0), namedKeys, positionalKeys);
      TargetVariantsAreTwo(values, "path", PositionalArgument(values, path, 0), namedKeys);
    } else if TargetsBucket(positionalKeys, namedKeys) {
      var p := BucketParameter(positional).value;
      BucketVariantsAreSound(values, p.Key(), positionalKeys);
    } else if positional != [] {
      PositionalVariantIsSound(values, positional);
    } else {
      RequiredVariantIsSound(values, named, positionalKeys);
    }
  }

  lemma {:induction false} TargetVariantsAreTwo(values: Values, key: string, argument: Token, namedKeys: set<string>)
    ensures |TargetVariants(values, key, argument, namedKeys)| == 2
  {
  }

  lemma {:induction false} BucketVariantsAreSound(values: Values, key: string, positionalKeys: set<string>)
    requires key in positionalKeys
    ensures Sound(Variant([Argument(key, values.bucketUri)], {key}, {"bucket"}), positionalKeys)
    ensures Sound(Variant([Flag("bucket"), Value(values.bucket)], {"bucket"}, {key}), positionalKeys)
  {
    OneArgument(Argument(key, values.bucketUri));
    FlagThenValue("bucket", values.bucket);
  }

  lemma {:induction false} PositionalVariantIsSound(values: Values, positional: seq<Parameter>)
    ensures Sound(Variant(PositionalArgs(values, positional), Keys(positional), {}), Keys(positional))
  {
    OnlyArguments(PositionalArgs(values, positional));
  }

  lemma {:induction false} ExpandedFrom(variants: seq<Variant>, modes: seq<set<string>>, i: nat)
    requires i < |ExpandModes(variants, modes)|
    ensures exists v: Variant :: v in variants
              && ExpandModes(variants, modes)[i].args == v.args && ExpandModes(variants, modes)[i].covered == v.covered
              && v.excluded <= ExpandModes(variants, modes)[i].excluded
  {
    if modes == [] {
      assert ExpandModes(variants, modes)[i] in variants;
    } else {
      var first := InModes(variants[0], modes);
      if i < |first| {
        assert ExpandModes(variants, modes)[i] == first[i];
        assert variants[0] in variants;
      } else {
        var rest := variants[1..];
        assert ExpandModes(variants, modes)[i] == ExpandModes(rest, modes)[i - |first|];
        ExpandedFrom(rest, modes, i - |first|);
      }
    }
  }

  // ----- The laws of the generated cases -----

  lemma {:induction false} CaseFlags(values: Values, words: seq<Token>, named: seq<Parameter>, v: Variant)
    requires forall i :: 0 <= i < |words| ==> words[i].Word?
    ensures Flags(CaseOf(values, words, named, v).args)
            == Flags(v.args) + Longs(Unfilled(named, v.covered, v.excluded))
    ensures ArgumentKeys(CaseOf(values, words, named, v).args) == ArgumentKeys(v.args)
  {
    var added := Unfilled(named, v.covered, v.excluded);
    FlagsOfEmitAll(values, added);
    NoFlagsInWords(words);
    FlagsConcat(words + v.args, EmitAll(values, added));
    FlagsConcat(words, v.args);
  }

  /** One case: exactly the uncovered, unexcluded named parameters are added, each flag once. */
  lemma {:induction false} CaseIsExact(values: Values, words: seq<Token>, named: seq<Parameter>, v: Variant,
                                       positionalKeys: set<string>)
    requires DistinctKeys(named) && (forall p :: p in named ==> p.long != "") && Sound(v, positionalKeys)
    requires forall i :: 0 <= i < |words| ==> words[i].Word?
    ensures var flags := Flags(CaseOf(values, words, named, v).args);
            && NoRepeats(flags)
            && (forall f :: f in flags <==>
                  f in Flags(v.args) || (f in Keys(named) && f !in v.covered && f !in v.excluded))
            && (forall k :: k in CaseOf(values, words, named, v).covered <==>
                  k in v.covered || (k in Keys(named) && k !in v.excluded))
  {
    hide Flags, Unfilled, EmitAll, Longs;
    var added := Unfilled(named, v.covered, v.excluded);
    UnfilledAre(named, v.covered, v.excluded);
    CaseFlags(values, words, named, v);
    AddedKeys(named, added, v.covered, v.excluded);
    NoRepeatsConcat(Flags(v.args), Longs(added));
  }

  lemma {:induction false} AddedKeys(named: seq<Parameter>, added: seq<Parameter>, covered: set<string>,
                                     excluded: set<string>)
    requires DistinctKeys(added) && forall p :: p in named ==> p.long != ""
    requires forall p :: p in added <==> p in named && p.Key() !in covered && p.Key() !in excluded
    ensures NoRepeats(Longs(added))
    ensures forall f :: f in Longs(added) <==> f in Keys(named) && f !in covered && f !in excluded
    ensures forall f :: f in Longs(added) <==> f in Keys(added)
  {
    forall i | 0 <= i < |added|
      ensures added[i].Key() == Longs(added)[i] && added[i] in named
    {
      assert added[i] in added;
    }
    forall f | f in Keys(named) && f !in covered && f !in excluded
      ensures f in Longs(added)
    {
      var i :| 0 <= i < |named| && named[i].Key() == f;
      assert named[i] in added;
      var j :| 0 <= j < |added| && added[j] == named[i];
      assert Longs(added)[j] == f;
    }
  }

  lemma {:induction false} NoRepeatsConcat(a: seq<string>, b: seq<string>)
    requires NoRepeats(a) && NoRepeats(b) && forall f :: f in a ==> f !in b
    ensures NoRepeats(a + b)
  {
    forall i, j | 0 <= i < j < |a + b|
      ensures (a + b)[i] != (a + b)[j]
    {
      if i < |a| && j >= |a| {
        assert (a + b)[i] in a && (a + b)[j] == b[j - |a|];
      }
    }
  }

  /**
   No case repeats a flag, and the fill loop adds only flags that neither the identity variant nor the
   mode excludes: a flag of the case that is excluded was emitted by the variant itself.
   */
  lemma {:induction false} CasesDoNotConflict(values: Values, command: string, parameters: seq<Parameter>, i: nat)
    requires DistinctKeys(parameters) && SurfaceCases(values, command, parameters).Success?
    requires i < |SurfaceCases(values, command, parameters).value|
    ensures var variants := ExpandModes(IdentityVariants(values, Positional(parameters), Named(parameters)).value,
                                        ModeExclusions(command));
            var flags := Flags(SurfaceCases(values, command, parameters).value[i].args);
            && i < |variants|
            && NoRepeats(flags)
            && (forall f :: f in flags && f in variants[i].excluded ==> f in Flags(variants[i].args))
  {
    var named := Named(parameters);
    NamedAre(parameters);
    NamedAreDistinct(parameters);
    var variants := IdentityVariants(values, Positional(parameters), named).value;
    var expanded := ExpandModes(variants, ModeExclusions(command));
    VariantsAreSound(values, Positional(parameters), named);
    ExpandedFrom(variants, ModeExclusions(command), i);
    assert Sound(expanded[i], Keys(Positional(parameters)));
    CaseIsExact(values, CommandWords(command), named, expanded[i], Keys(Positional(parameters)));
  }

  /** On the command line of a case, an added parameter's value directly follows its flag. */
  lemma {:induction false} ValueFollowsFlag(values: Values, added: seq<Parameter>, p: Parameter) returns (i: nat)
    requires p in added && p.takesValue
    ensures var args := EmitAll(values, added);
            i + 1 < |args| && args[i] == Flag(p.long) && args[i + 1] == Value(values.named(p))
  {
    var first := Emit(values, added[0]);
    if added[0] == p {
      i := 0;
    } else {
      assert p in added[1..];
      var j := ValueFollowsFlag(values, added[1..], p);
      i := |first| + j;
    }
  }

  // ----- Coverage -----

  /** Every key is left in by some mode. */
  lemma {:induction false} SomeModeKeeps(command: string, key: string) returns (m: nat)
    requires ModeExclusions(command) != []
    ensures m < |ModeExclusions(command)| && key !in ModeExclusions(command)[m]
  {
    var modes := ModeExclusions(command);
    if key !in modes[0] {
      m := 0;
    } else if key !in modes[1] {
      m := 1;
    } else {
      m := 2;
      assert forall g :: g in GRANTS ==> |g| >= 10;
      assert |"acl"| == 3 && |"config"| == 6 && |"destroy"| == 7 && |"force"| == 5;
    }
  }

  /** Every named parameter is covered, or at least not excluded, by some identity variant. */
  lemma {:induction false} SomeVariantKeeps(values: Values, positional: seq<Parameter>, named: seq<Parameter>,
                                            key: string)
    returns (i: nat)
    requires IdentityVariants(values, positional, named).Success? && key in Keys(named)
    ensures var variants := IdentityVariants(values, positional, named).value;
            i < |variants| && (key in variants[i].covered || key !in variants[i].excluded)
  {
    var variants := IdentityVariants(values, positional, named).value;
    i := if key in variants[0].covered || key !in variants[0].excluded then 0 else 1;
  }

  lemma {:induction false} ExpandedHas(variants: seq<Variant>, modes: seq<set<string>>, i: nat, m: nat) returns (k: nat)
    requires i < |variants| && m < |modes|
    ensures k < |ExpandModes(variants, modes)|
    ensures ExpandModes(variants, modes)[k] == variants[i].(excluded := variants[i].excluded + modes[m])
  {
    var first := InModes(variants[0], modes);
    if i == 0 {
      k := m;
      assert ExpandModes(variants, modes)[k] == first[m];
    } else {
      var rest := ExpandedHas(variants[1..], modes, i - 1, m);
      k := |first| + rest;
      assert ExpandModes(variants, modes)[k] == ExpandModes(variants[1..], modes)[rest];
    }
  }

  lemma {:induction false} SomeExpandedKeeps(values: Values, command: string, positional: seq<Parameter>,
                                             named: seq<Parameter>, key: string) returns (k: nat)
    requires IdentityVariants(values, positional, named).Success? && key in Keys(named)
    ensures var expanded := ExpandModes(IdentityVariants(values, positional, named).value, ModeExclusions(command));
            k < |expanded| && (key in expanded[k].covered || key !in expanded[k].excluded)
  {
    hide IdentityVariants, ModeExclusions;
    var variants := IdentityVariants(values, positional, named).value;
    var modes := ModeExclusions(command);
    var i := SomeVariantKeeps(values, positional, named, key);
    if modes == [] {
      k := i;
    } else {
      var m := SomeModeKeeps(command, key);
      k := ExpandedHas(variants, modes, i, m);
    }
  }

  /**
   Coverage is complete: whenever generation succeeds, every named parameter is covered by some case,
   and unless it is also positional its flag really stands on that case's command line.
   */
  lemma {:induction false} EveryNamedParameterIsCovered(values: Values, command: string, parameters: seq<Parameter>,
                                                        p: Parameter) returns (k: nat)
    requires DistinctKeys(parameters) && SurfaceCases(values, command, parameters).Success?
    requires p in parameters && p.long != ""
    ensures var cases := SurfaceCases(values, command, parameters).value;
            k < |cases| && p.Key() in cases[k].covered && (!p.positional ==> p.long in Flags(cases[k].args))
  {
    var named := Named(parameters);
    var positional := Positional(parameters);
    NamedAre(parameters);
    NamedAreDistinct(parameters);
    PositionalAre(parameters);
    KeyOfMember(named, p);
    k := SomeExpandedKeeps(values, command, positional, named, p.Key());
    var variants := IdentityVariants(values, positional, named).value;
    var expanded := ExpandModes(variants, ModeExclusions(command));
    VariantsAreSound(values, positional, named);
    ExpandedFrom(variants, ModeExclusions(command), k);
    assert Sound(expanded[k], Keys(positional));
    CaseIsExact(values, CommandWords(command), named, expanded[k], Keys(positional));
    if !p.positional && p.Key() in Keys(positional) {
      var j :| 0 <= j < |positional| && positional[j].Key() == p.Key();
      assert positional[j] in positional;
      SameKeySame(parameters, p, positional[j]);
      assert false;
    }
  }

  lemma {:induction false} KeyOfMember(parameters: seq<Parameter>, p: Parameter)
    requires p in parameters
    ensures p.Key() in Keys(parameters)
  {
  }
}

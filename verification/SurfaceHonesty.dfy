/** What the generated surface cases claim to cover, against what stands on their command lines. */
module SurfaceHonesty {
  import opened Prelude
  import opened SurfaceMatrix

  // ----- What is covered and what stands on the command line -----

  /** The keys that a command line really exercises: its flags and its positional arguments. */
  ghost predicate Stands(args: seq<Token>, key: string) {
    key in Flags(args) || key in ArgumentKeys(args)
  }

  /** Covering claims exactly what stands on the command line. */
  ghost predicate Honest(args: seq<Token>, covered: set<string>) {
    forall k :: k in covered <==> Stands(args, k)
  }

  lemma {:induction false} TargetVariantsAreHonestIff(values: Values, key: string, argument: Token,
                                                      namedKeys: set<string>)
    requires argument.Argument?
    ensures var variants := TargetVariants(values, key, argument, namedKeys);
            && (Honest(variants[0].args, variants[0].covered) <==> argument.key == key)
            && (argument.key != key ==> key in variants[0].covered && !Stands(variants[0].args, key))
            && Honest(variants[1].args, variants[1].covered)
  {
    OneArgument(argument);
    TargetFlags(values, namedKeys);
    var first := TargetVariants(values, key, argument, namedKeys)[0];
    assert key in first.covered && Stands(first.args, argument.key);
  }

  lemma {:induction false} BucketVariantsAreHonest(values: Values, key: string)
    ensures Honest([Argument(key, values.bucketUri)], {key})
    ensures Honest([Flag("bucket"), Value(values.bucket)], {"bucket"})
  {
    OneArgument(Argument(key, values.bucketUri));
    FlagThenValue("bucket", values.bucket);
  }

  lemma {:induction false} PositionalVariantIsHonest(values: Values, positional: seq<Parameter>)
    ensures Honest(PositionalArgs(values, positional), Keys(positional))
  {
    var args := PositionalArgs(values, positional);
    OnlyArguments(args);
    forall i | 0 <= i < |positional|
      ensures ArgumentKeys(args)[i] == positional[i].Key() && positional[i].Key() in ArgumentKeys(args)
    {
      assert ArgumentKeys(args)[i] == args[i].key;
    }
  }

  lemma {:induction false} RequiredVariantIsHonest(values: Values, named: seq<Parameter>)
    requires DistinctKeys(named) && forall p :: p in named ==> p.long != ""
    ensures Honest(EmitAll(values, Required(named)), Keys(Required(named)))
  {
    var required := Required(named);
    RequiredAre(named);
    FlagsOfEmitAll(values, required);
    assert forall i :: 0 <= i < |required| ==> required[i] in named && required[i].Key() == Longs(required)[i];
  }

  /** The first positional parameter is printed for a `uri`, whichever of them has that key. */
  predicate MistakesUri(positional: seq<Parameter>, named: seq<Parameter>) {
    TargetsUri(Keys(positional), Keys(named)) && positional[0].Key() != "uri"
  }

  lemma {:induction false} VariantsAreHonestIff(values: Values, positional: seq<Parameter>, named: seq<Parameter>)
    requires DistinctKeys(named) && forall p :: p in named ==> p.long != ""
    requires IdentityVariants(values, positional, named).Success?
    ensures var variants := IdentityVariants(values, positional, named).value;
            && |variants| > 0
            && (!MistakesUri(positional, named) ==>
                  forall i :: 0 <= i < |variants| ==> Honest(variants[i].args, variants[i].covered))
            && (MistakesUri(positional, named) ==>
                  "uri" in variants[0].covered && !Stands(variants[0].args, "uri"))
  {
    hide TargetVariants, Honest, Stands;
    var namedKeys := Keys(named);
    var positionalKeys := Keys(positional);
    if TargetsUri(positionalKeys, namedKeys) {
      TargetVariantsAreHonestIff(values, "uri", PositionalArgument(values, positional[0], 0), namedKeys);
      TargetVariantsAreTwo(values, "uri", PositionalArgument(values, positional[0], 0), namedKeys);
    } else if TargetsPath(positionalKeys, namedKeys) {
      var path := positional[IndexOfKey(positional, "path")];
      TargetVariantsAreHonestIff(values, "path", PositionalArgument(values, path, 0), namedKeys);
      TargetVariantsAreTwo(values, "path", PositionalArgument(values, path, 0), namedKeys);
    } else if TargetsBucket(positionalKeys, namedKeys) {
      BucketVariantsAreHonest(values, BucketParameter(positional).value.Key());
    } else if positional != [] {
      PositionalVariantIsHonest(values, positional);
    } else {
      RequiredVariantIsHonest(values, named);
    }
  }

  /** The fill loop adds flags exactly with their keys. */
  lemma {:induction false} CaseIsAsHonest(values: Values, words: seq<Token>, named: seq<Parameter>, v: Variant,
                                          positionalKeys: set<string>)
    requires DistinctKeys(named) && (forall p :: p in named ==> p.long != "") && Sound(v, positionalKeys)
    requires forall i :: 0 <= i < |words| ==> words[i].Word?
    ensures var built := CaseOf(values, words, named, v);
            && (Honest(v.args, v.covered) ==> Honest(built.args, built.covered))
            && (forall k :: k in v.covered && !Stands(v.args, k) ==> k in built.covered && !Stands(built.args, k))
  {
    CaseIsExact(values, words, named, v, positionalKeys);
    CaseFlags(values, words, named, v);
  }

  /** Cases claim exactly what stands on their command lines, unless a `uri` is not the first positional parameter. */
  lemma {:induction false} CasesAreHonestIff(values: Values, command: string, parameters: seq<Parameter>)
    requires DistinctKeys(parameters) && SurfaceCases(values, command, parameters).Success?
    ensures var cases := SurfaceCases(values, command, parameters).value;
            (forall k :: 0 <= k < |cases| ==> Honest(cases[k].args, cases[k].covered))
            <==> !MistakesUri(Positional(parameters), Named(parameters))
  {
    hide IdentityVariants, ExpandModes, ModeExclusions, CaseOf, Honest, Stands, Sound, MistakesUri;
    var named, positional := Named(parameters), Positional(parameters);
    NamedAre(parameters);
    NamedAreDistinct(parameters);
    var variants := IdentityVariants(values, positional, named).value;
    var expanded := ExpandModes(variants, ModeExclusions(command));
    VariantsAreSound(values, positional, named);
    VariantsAreHonestIff(values, positional, named);
    forall k | 0 <= k < |expanded|
      ensures Sound(expanded[k], Keys(positional))
      ensures !MistakesUri(positional, named) ==> Honest(expanded[k].args, expanded[k].covered)
    {
      ExpandedFrom(variants, ModeExclusions(command), k);
      SoundAnyMode(variants, expanded[k], Keys(positional));
    }
    forall k | 0 <= k < |expanded| && !MistakesUri(positional, named)
      ensures Honest(CaseOf(values, CommandWords(command), named, expanded[k]).args,
                     CaseOf(values, CommandWords(command), named, expanded[k]).covered)
    {
      CaseIsAsHonest(values, CommandWords(command), named, expanded[k], Keys(positional));
    }
    if MistakesUri(positional, named) {
      var k := SomeModeOf(variants, ModeExclusions(command), 0);
      CaseIsAsHonest(values, CommandWords(command), named, expanded[k], Keys(positional));
      NotHonest(CaseOf(values, CommandWords(command), named, expanded[k]), "uri");
    }
  }

  lemma {:induction false} NotHonest(built: SurfaceCase, key: string)
    requires key in built.covered && !Stands(built.args, key)
    ensures !Honest(built.args, built.covered)
  {
  }

  /** Soundness does not depend on what a mode excludes. */
  lemma {:induction false} SoundAnyMode(variants: seq<Variant>, v: Variant, positionalKeys: set<string>)
    requires forall i :: 0 <= i < |variants| ==> Sound(variants[i], positionalKeys)
    requires exists w: Variant :: w in variants && v.args == w.args && v.covered == w.covered
    ensures Sound(v, positionalKeys)
  {
  }

  lemma {:induction false} SomeModeOf(variants: seq<Variant>, modes: seq<set<string>>, i: nat) returns (k: nat)
    requires i < |variants|
    ensures k < |ExpandModes(variants, modes)|
    ensures ExpandModes(variants, modes)[k].args == variants[i].args
    ensures ExpandModes(variants, modes)[k].covered == variants[i].covered
  {
    if modes == [] {
      k := i;
    } else {
      k := ExpandedHas(variants, modes, i, 0);
    }
  }

  /** A target is given in one of two ways instead of listing all positional parameters. */
  predicate HasTarget(positionalKeys: set<string>, namedKeys: set<string>) {
    TargetsUri(positionalKeys, namedKeys) || TargetsPath(positionalKeys, namedKeys)
    || TargetsBucket(positionalKeys, namedKeys)
  }

  /** The one positional parameter that is printed for a target. */
  function TargetParameter(positional: seq<Parameter>, named: seq<Parameter>): (p: Option<Parameter>)
    ensures p.Some? ==> p.value in positional
  {
    if TargetsUri(Keys(positional), Keys(named)) then Some(positional[0])
    else if TargetsPath(Keys(positional), Keys(named)) then Some(positional[IndexOfKey(positional, "path")])
    else if TargetsBucket(Keys(positional), Keys(named)) then BucketParameter(positional)
    else None
  }

  lemma {:induction false} TargetArguments(values: Values, positional: seq<Parameter>, named: seq<Parameter>)
    requires IdentityVariants(values, positional, named).Success? && HasTarget(Keys(positional), Keys(named))
    ensures var variants := IdentityVariants(values, positional, named).value;
            && |variants| == 2 && TargetParameter(positional, named).Some?
            && ArgumentKeys(variants[0].args) == [TargetParameter(positional, named).value.Key()]
            && ArgumentKeys(variants[1].args) == []
  {
    var variants := IdentityVariants(values, positional, named).value;
    TargetFlags(values, Keys(named));
    FlagThenValue("bucket", values.bucket);
    OneArgument(variants[0].args[0]);
    assert variants[0].args == [variants[0].args[0]];
  }

  lemma {:induction false} AllArguments(values: Values, positional: seq<Parameter>, named: seq<Parameter>)
    requires IdentityVariants(values, positional, named).Success? && !HasTarget(Keys(positional), Keys(named))
    ensures var variants := IdentityVariants(values, positional, named).value;
            |variants| == 1 && forall k :: k in ArgumentKeys(variants[0].args) <==> k in Keys(positional)
  {
    if positional == [] {
      FlagsOfEmitAll(values, Required(named));
    } else {
      PositionalVariantIsHonest(values, positional);
      OnlyArguments(PositionalArgs(values, positional));
    }
  }

  /** The parameter's value is a positional argument of some case. */
  ghost predicate IsArgument(cases: seq<SurfaceCase>, key: string) {
    exists k :: 0 <= k < |cases| && key in ArgumentKeys(cases[k].args)
  }

  ghost predicate IsArgumentOf(variants: seq<Variant>, key: string) {
    exists i :: 0 <= i < |variants| && key in ArgumentKeys(variants[i].args)
  }

  lemma {:induction false} ModesKeepArguments(variants: seq<Variant>, modes: seq<set<string>>, key: string)
    ensures IsArgumentOf(ExpandModes(variants, modes), key) <==> IsArgumentOf(variants, key)
  {
    hide ExpandModes, ArgumentKeys;
    var expanded := ExpandModes(variants, modes);
    if IsArgumentOf(expanded, key) {
      var k :| 0 <= k < |expanded| && key in ArgumentKeys(expanded[k].args);
      ExpandedFrom(variants, modes, k);
      var v :| v in variants && expanded[k].args == v.args;
      assert IsArgumentOf(variants, key);
    }
    if IsArgumentOf(variants, key) {
      var i :| 0 <= i < |variants| && key in ArgumentKeys(variants[i].args);
      var k := SomeModeOf(variants, modes, i);
      assert key in ArgumentKeys(expanded[k].args);
    }
  }

  /** The cases have the arguments of the identity variants. */
  lemma {:induction false} ArgumentsAreOfVariants(values: Values, command: string, parameters: seq<Parameter>,
                                                  key: string)
    requires SurfaceCases(values, command, parameters).Success?
    ensures IsArgument(SurfaceCases(values, command, parameters).value, key)
            <==> IsArgumentOf(IdentityVariants(values, Positional(parameters), Named(parameters)).value, key)
  {
    hide IdentityVariants, ExpandModes, ModeExclusions, CaseOf, ArgumentKeys;
    var named := Named(parameters);
    var variants := IdentityVariants(values, Positional(parameters), named).value;
    var expanded := ExpandModes(variants, ModeExclusions(command));
    ModesKeepArguments(variants, ModeExclusions(command), key);
    forall k | 0 <= k < |expanded|
      ensures ArgumentKeys(SurfaceCases(values, command, parameters).value[k].args) == ArgumentKeys(expanded[k].args)
    {
      CaseFlags(values, CommandWords(command), named, expanded[k]);
    }
  }

  lemma {:induction false} CasesHaveVariants(values: Values, command: string, parameters: seq<Parameter>)
    requires SurfaceCases(values, command, parameters).Success?
    ensures IdentityVariants(values, Positional(parameters), Named(parameters)).Success?
  {
  }

  /** A positional parameter really is given exactly when there is no target, or it is the one printed for it. */
  lemma {:induction false} PositionalIsGivenIff(values: Values, command: string, parameters: seq<Parameter>,
                                                p: Parameter)
    requires DistinctKeys(parameters) && SurfaceCases(values, command, parameters).Success?
    requires p in parameters && p.positional
    ensures IsArgument(SurfaceCases(values, command, parameters).value, p.Key())
            <==> !HasTarget(Keys(Positional(parameters)), Keys(Named(parameters)))
                 || TargetParameter(Positional(parameters), Named(parameters)) == Some(p)
  {
    hide IdentityVariants, ArgumentKeys, TargetParameter, HasTarget, IsArgument;
    CasesHaveVariants(values, command, parameters);
    hide SurfaceCases;
    var named, positional := Named(parameters), Positional(parameters);
    PositionalAre(parameters);
    KeyOfMember(positional, p);
    ArgumentsAreOfVariants(values, command, parameters, p.Key());
    if HasTarget(Keys(positional), Keys(named)) {
      TargetArguments(values, positional, named);
      var q := TargetParameter(positional, named).value;
      assert q in positional;
      if p.Key() == q.Key() {
        SameKeySame(parameters, p, q);
      }
    } else {
      AllArguments(values, positional, named);
    }
  }

  /** So all of them are given exactly when there is no target or only one of them. */
  lemma {:induction false} EveryPositionalIsGivenIff(values: Values, command: string, parameters: seq<Parameter>)
    requires DistinctKeys(parameters) && SurfaceCases(values, command, parameters).Success?
    ensures var positional := Positional(parameters);
            (forall p :: p in positional ==> IsArgument(SurfaceCases(values, command, parameters).value, p.Key()))
            <==> !HasTarget(Keys(positional), Keys(Named(parameters))) || |positional| <= 1
  {
    hide TargetParameter, IsArgument, HasTarget, ArgumentKeys, IdentityVariants;
    var positional := Positional(parameters);
    var target := TargetParameter(positional, Named(parameters));
    PositionalAre(parameters);
    forall p | p in positional
      ensures IsArgument(SurfaceCases(values, command, parameters).value, p.Key())
              <==> !HasTarget(Keys(positional), Keys(Named(parameters))) || target == Some(p)
    {
      PositionalIsGivenIff(values, command, parameters, p);
    }
    if HasTarget(Keys(positional), Keys(Named(parameters))) {
      TargetArguments(values, positional, Named(parameters));
      PositionalAreDistinct(parameters);
      if |positional| > 1 {
        assert positional[0].Key() != positional[1].Key();
        assert positional[0] in positional && positional[1] in positional;
      }
    }
  }

  lemma {:induction false} PositionalAreDistinct(parameters: seq<Parameter>)
    requires DistinctKeys(parameters)
    ensures DistinctKeys(Positional(parameters))
  {
    if parameters != [] {
      var rest := parameters[1..];
      assert forall i :: 0 <= i < |rest| ==> rest[i] == parameters[i + 1];
      PositionalAreDistinct(rest);
      PositionalAre(rest);
    }
  }
}

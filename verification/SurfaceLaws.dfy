/**
 What the generated command lines of scripts/e2e/_lib/surface_matrix.py say: their layout, the value of
 each flag, the two ways to give a target, the modes that must not be mixed, and the errors.
 */
module SurfaceLaws {
  import opened Prelude
  import opened Strings
  import opened SurfaceMatrix
  import opened SurfaceHonesty

  // ----- The value of a flag -----

  /** The value that stands behind the first `--flag` on a command line. */
  function GivenValue(args: seq<Token>, flag: string): Option<string> {
    if args == [] then None
    else if args[0] == Flag(flag) then (if |args| > 1 && args[1].Value? then Some(args[1].text) else None)
    else GivenValue(args[1..], flag)
  }

  lemma {:induction false} GivenConcat(a: seq<Token>, b: seq<Token>, flag: string)
    requires b == [] || !b[0].Value?
    ensures GivenValue(a + b, flag) == if flag in Flags(a) then GivenValue(a, flag) else GivenValue(b, flag)
  {
    if a == [] {
      assert a + b == b;
    } else {
      assert (a + b)[1..] == a[1..] + b;
      GivenConcat(a[1..], b, flag);
    }
  }

  function ParameterValue(values: Values, p: Parameter): Option<string> {
    if p.takesValue then Some(values.named(p)) else None
  }

  lemma {:induction false} EmitStartsWithFlag(values: Values, parameters: seq<Parameter>)
    ensures EmitAll(values, parameters) == [] || EmitAll(values, parameters)[0].Flag?
  {
  }

  lemma {:induction false} GivenInEmit(values: Values, p: Parameter)
    ensures GivenValue(Emit(values, p), p.long) == ParameterValue(values, p)
  {
  }

  lemma {:induction false} GivenInEmitAll(values: Values, parameters: seq<Parameter>, p: Parameter)
    requires p in parameters && NoRepeats(Longs(parameters))
    ensures GivenValue(EmitAll(values, parameters), p.long) == ParameterValue(values, p)
  {
    var rest := parameters[1..];
    FlagsOfEmit(values, parameters[0]);
    EmitStartsWithFlag(values, rest);
    GivenConcat(Emit(values, parameters[0]), EmitAll(values, rest), p.long);
    if parameters[0] == p {
      GivenInEmit(values, p);
    } else {
      var i :| 0 <= i < |parameters| && parameters[i] == p;
      assert Longs(parameters)[0] != Longs(parameters)[i];
      assert rest[i - 1] == p;
      assert forall j :: 0 <= j < |rest| ==> Longs(rest)[j] == Longs(parameters)[j + 1];
      GivenInEmitAll(values, rest, p);
    }
  }

  lemma {:induction false} GivenInCase(values: Values, words: seq<Token>, named: seq<Parameter>, v: Variant,
                                       flag: string)
    requires forall i :: 0 <= i < |words| ==> words[i].Word?
    requires v.args == [] || !v.args[0].Value?
    ensures GivenValue(CaseOf(values, words, named, v).args, flag)
            == if flag in Flags(v.args) then GivenValue(v.args, flag)
               else GivenValue(EmitAll(values, Unfilled(named, v.covered, v.excluded)), flag)
  {
    hide Unfilled, EmitAll;
    var added := EmitAll(values, Unfilled(named, v.covered, v.excluded));
    NoFlagsInWords(words);
    EmitStartsWithFlag(values, Unfilled(named, v.covered, v.excluded));
    GivenConcat(words + v.args, added, flag);
    GivenConcat(words, v.args, flag);
    FlagsConcat(words, v.args);
  }

  lemma {:induction false} GivenInTarget(values: Values, namedKeys: set<string>)
    ensures var args := TargetArgs(values, namedKeys);
            && args[0].Flag?
            && GivenValue(args, "bucket") == Some(values.bucket)
            && ("key" in namedKeys ==> GivenValue(args, "key") == Some(values.objectKey))
            && ("prefix" in namedKeys ==> GivenValue(args, "prefix") == Some("prefix/"))
  {
    var key := if "key" in namedKeys then [Flag("key"), Value(values.objectKey)] else [];
    var prefix := if "prefix" in namedKeys then [Flag("prefix"), Value("prefix/")] else [];
    var bucket := [Flag("bucket"), Value(values.bucket)];
    FlagThenValue("bucket", values.bucket);
    FlagThenValue("key", values.objectKey);
    assert |"bucket"| == 6 && |"key"| == 3 && |"prefix"| == 6 && "bucket"[0] != "prefix"[0];
    forall flag: string
      ensures GivenValue(bucket + key + prefix, flag)
              == if flag == "bucket" then GivenValue(bucket, flag)
                 else if flag in Flags(key) then GivenValue(key, flag)
                 else GivenValue(prefix, flag)
    {
      GivenConcat(bucket + key, prefix, flag);
      GivenConcat(bucket, key, flag);
      FlagsConcat(bucket, key);
    }
  }

  // ----- The identity variants of a target -----

  /**
   A command has a target when it has a `--bucket` and a positional parameter whose key is `uri` or `path`
   or starts with `bucket`.
   */
  lemma {:induction false} HasTargetIff(positional: seq<Parameter>, named: seq<Parameter>)
    ensures HasTarget(Keys(positional), Keys(named))
            <==> && (exists q :: q in named && q.Key() == "bucket")
                 && exists p :: p in positional && (p.Key() == "uri" || p.Key() == "path" || "bucket" <= p.Key())
  {
    forall p | p in positional
      ensures p.Key() in Keys(positional)
    {
      KeyOfMember(positional, p);
    }
    forall q | q in named
      ensures q.Key() in Keys(named)
    {
      KeyOfMember(named, q);
    }
    forall k | k in Keys(positional)
      ensures exists p :: p in positional && p.Key() == k
    {
      var i :| 0 <= i < |positional| && positional[i].Key() == k;
      assert positional[i] in positional;
    }
    forall k | k in Keys(named)
      ensures exists q :: q in named && q.Key() == k
    {
      var i :| 0 <= i < |named| && named[i].Key() == k;
      assert named[i] in named;
    }
  }

  /** One form gives the target as its one argument, the other as flags; neither admits what the other is for. */
  lemma {:induction false} TargetForms(values: Values, positional: seq<Parameter>, named: seq<Parameter>)
    requires IdentityVariants(values, positional, named).Success? && HasTarget(Keys(positional), Keys(named))
    ensures var variants := IdentityVariants(values, positional, named).value;
            && |variants| == 2 && TargetParameter(positional, named).Some?
            && var p := TargetParameter(positional, named).value;
               var byName := "uri" in Keys(positional) || "path" in Keys(positional);
               var key := if "uri" in Keys(positional) then "uri" else if byName then "path" else p.Key();
               && variants[0].args
                  == [Argument(p.Key(), if byName then values.positional(p, 0) else values.bucketUri)]
               && variants[0].covered == {key} && variants[1].excluded == {key}
               && variants[0].excluded == (if byName then {"bucket", "key", "prefix"} else {"bucket"})
               && variants[1].args == TargetArgs(values, if byName then Keys(named) else {})
               && variants[1].covered == {"bucket"} + (if byName then {"key", "prefix"} * Keys(named) else {})
  {
    hide Keys, BucketParameter;
    TargetArguments(values, positional, named);
  }

  /** Without a target, the positional parameters are all given; with none of those, the required ones are. */
  lemma {:induction false} OtherForms(values: Values, positional: seq<Parameter>, named: seq<Parameter>)
    requires IdentityVariants(values, positional, named).Success? && !HasTarget(Keys(positional), Keys(named))
    ensures var variants := IdentityVariants(values, positional, named).value;
            && |variants| == 1 && variants[0].excluded == {}
            && (positional == [] ==> variants[0].args == EmitAll(values, Required(named)))
            && (positional != [] ==>
                  |variants[0].args| == |positional|
                  && forall i :: 0 <= i < |positional| ==>
                       variants[0].args[i] == Argument(positional[i].Key(), values.positional(positional[i], i)))
  {
  }

  /** Which flags a variant gives by itself. */
  lemma {:induction false} FlagsOfVariants(values: Values, positional: seq<Parameter>, named: seq<Parameter>, i: nat,
                                           flag: string)
    requires IdentityVariants(values, positional, named).Success?
    requires i < |IdentityVariants(values, positional, named).value|
    requires flag in Flags(IdentityVariants(values, positional, named).value[i].args)
    ensures HasTarget(Keys(positional), Keys(named)) ==> i == 1 && flag in {"bucket", "key", "prefix"}
    ensures !HasTarget(Keys(positional), Keys(named)) ==> exists p :: p in Required(named) && p.long == flag
  {
    hide IdentityVariants, HasTarget;
    var v := IdentityVariants(values, positional, named).value[i];
    if HasTarget(Keys(positional), Keys(named)) {
      TargetForms(values, positional, named);
      TargetFlags(values, Keys(named));
      TargetFlags(values, {});
      if i == 0 {
        OneArgument(v.args[0]);
      }
    } else {
      OtherForms(values, positional, named);
      if positional == [] {
        FlagsOfEmitAll(values, Required(named));
        var j :| 0 <= j < |Required(named)| && Longs(Required(named))[j] == flag;
        assert Required(named)[j] in Required(named);
      } else {
        OnlyArguments(v.args);
      }
    }
  }

  /** The value that a flag must have: its parameter's, or that of the target. */
  ghost predicate IsItsValue(values: Values, named: seq<Parameter>, target: bool, flag: string, given: Option<string>) {
    || (exists p :: p in named && p.long == flag && given == ParameterValue(values, p))
    || (target && flag == "bucket" && given == Some(values.bucket))
    || (target && flag == "key" && given == Some(values.objectKey))
    || (target && flag == "prefix" && given == Some("prefix/"))
  }

  lemma {:induction false} TargetFlagHasValue(values: Values, named: seq<Parameter>, namedKeys: set<string>,
                                              flag: string)
    requires flag in Flags(TargetArgs(values, namedKeys))
    ensures IsItsValue(values, named, true, flag, GivenValue(TargetArgs(values, namedKeys), flag))
  {
    hide GivenValue, Flags;
    GivenInTarget(values, namedKeys);
    TargetFlags(values, namedKeys);
  }

  lemma {:induction false} VariantFlagHasValue(values: Values, positional: seq<Parameter>, named: seq<Parameter>,
                                               i: nat, flag: string)
    requires DistinctKeys(named) && forall p :: p in named ==> p.long != ""
    requires IdentityVariants(values, positional, named).Success?
    requires i < |IdentityVariants(values, positional, named).value|
    ensures var v := IdentityVariants(values, positional, named).value[i];
            && (v.args == [] || !v.args[0].Value?)
            && (flag in Flags(v.args) ==>
                  IsItsValue(values, named, HasTarget(Keys(positional), Keys(named)), flag, GivenValue(v.args, flag)))
  {
    hide IdentityVariants, HasTarget, GivenValue;
    var v := IdentityVariants(values, positional, named).value[i];
    if HasTarget(Keys(positional), Keys(named)) {
      TargetForms(values, positional, named);
      if i == 0 {
        OneArgument(v.args[0]);
      } else if flag in Flags(v.args) {
        TargetFlagHasValue(values, named, if v.args == TargetArgs(values, {}) then {} else Keys(named), flag);
      }
    } else {
      OtherForms(values, positional, named);
      if positional == [] {
        EmitStartsWithFlag(values, Required(named));
        if flag in Flags(v.args) {
          FlagsOfVariants(values, positional, named, i, flag);
          var p :| p in Required(named) && p.long == flag;
          RequiredAre(named);
          RequiredLongs(named);
          GivenInEmitAll(values, Required(named), p);
        }
      } else {
        OnlyArguments(v.args);
      }
    }
  }

  lemma {:induction false} RequiredLongs(named: seq<Parameter>)
    requires DistinctKeys(named) && forall p :: p in named ==> p.long != ""
    ensures NoRepeats(Longs(Required(named)))
  {
    RequiredAre(named);
    LongsAreKeys(Required(named));
  }

  lemma {:induction false} LongsAreKeys(parameters: seq<Parameter>)
    requires DistinctKeys(parameters) && forall p :: p in parameters ==> p.long != ""
    ensures NoRepeats(Longs(parameters))
  {
    assert forall i :: 0 <= i < |parameters| ==>
        parameters[i] in parameters && parameters[i].Key() == Longs(parameters)[i];
  }

  /** On every generated command line, each flag has its own parameter's value, or the target's. */
  lemma {:induction false} FlagsHaveTheirValues(values: Values, command: string, parameters: seq<Parameter>, k: nat,
                                                flag: string)
    requires DistinctKeys(parameters) && SurfaceCases(values, command, parameters).Success?
    requires k < |SurfaceCases(values, command, parameters).value|
    requires flag in Flags(SurfaceCases(values, command, parameters).value[k].args)
    ensures var target := HasTarget(Keys(Positional(parameters)), Keys(Named(parameters)));
            IsItsValue(values, Named(parameters), target, flag,
                       GivenValue(SurfaceCases(values, command, parameters).value[k].args, flag))
  {
    hide IdentityVariants, ExpandModes, ModeExclusions, GivenValue, HasTarget, IsItsValue, Unfilled, CaseOf, Flags;
    var named, positional := Named(parameters), Positional(parameters);
    NamedAre(parameters);
    NamedAreDistinct(parameters);
    var variants := IdentityVariants(values, positional, named).value;
    var v := ExpandModes(variants, ModeExclusions(command))[k];
    ExpandedFrom(variants, ModeExclusions(command), k);
    var w :| w in variants && v.args == w.args && v.covered == w.covered;
    var i :| 0 <= i < |variants| && variants[i] == w;
    VariantFlagHasValue(values, positional, named, i, flag);
    GivenInCase(values, CommandWords(command), named, v, flag);
    if flag !in Flags(v.args) {
      CaseFlags(values, CommandWords(command), named, v);
      AddedFlagHasValue(values, named, v, flag);
      AddedIsItsValue(values, named, v, HasTarget(Keys(positional), Keys(named)), flag);
    }
  }

  lemma {:induction false} AddedFlagHasValue(values: Values, named: seq<Parameter>, v: Variant, flag: string)
    requires DistinctKeys(named) && forall p :: p in named ==> p.long != ""
    requires flag in Longs(Unfilled(named, v.covered, v.excluded))
    ensures exists p :: p in named && p.long == flag
              && GivenValue(EmitAll(values, Unfilled(named, v.covered, v.excluded)), flag) == ParameterValue(values, p)
  {
    hide GivenValue, EmitAll, Unfilled;
    var added := Unfilled(named, v.covered, v.excluded);
    UnfilledAre(named, v.covered, v.excluded);
    LongsAreKeys(added);
    var j :| 0 <= j < |added| && Longs(added)[j] == flag;
    assert added[j] in added;
    GivenInEmitAll(values, added, added[j]);
  }

  lemma {:induction false} AddedIsItsValue(values: Values, named: seq<Parameter>, v: Variant, target: bool,
                                           flag: string)
    requires exists p :: p in named && p.long == flag
               && GivenValue(EmitAll(values, Unfilled(named, v.covered, v.excluded)), flag) == ParameterValue(values, p)
    ensures IsItsValue(values, named, target, flag,
                       GivenValue(EmitAll(values, Unfilled(named, v.covered, v.excluded)), flag))
  {
  }

  // ----- Layout and number of cases -----

  /** A command line is the command's words, what identifies the target, and the remaining parameters. */
  lemma {:induction false} CaseLayout(values: Values, command: string, parameters: seq<Parameter>, k: nat)
    requires SurfaceCases(values, command, parameters).Success?
    requires k < |SurfaceCases(values, command, parameters).value|
    ensures var args := SurfaceCases(values, command, parameters).value[k].args;
            var words := Words(command, IsSpace);
            && |words| <= |args|
            && (forall i :: 0 <= i < |words| ==> args[i] == Word(words[i]))
            && exists v, added :: v in IdentityVariants(values, Positional(parameters), Named(parameters)).value
                                  && args[|words|..] == v.args + EmitAll(values, added)
  {
    hide IdentityVariants, ModeExclusions, EmitAll, Unfilled;
    var named := Named(parameters);
    var variants := IdentityVariants(values, Positional(parameters), named).value;
    var v := ExpandModes(variants, ModeExclusions(command))[k];
    ExpandedFrom(variants, ModeExclusions(command), k);
    var w :| w in variants && v.args == w.args && v.covered == w.covered;
    var args := SurfaceCases(values, command, parameters).value[k].args;
    var added := Unfilled(named, v.covered, v.excluded);
    assert args == CommandWords(command) + (w.args + EmitAll(values, added));
    assert args[|Words(command, IsSpace)|..] == w.args + EmitAll(values, added);
  }

  lemma {:induction false} ExpandedCount(variants: seq<Variant>, modes: seq<set<string>>)
    ensures |ExpandModes(variants, modes)| == |variants| * if modes == [] then 1 else |modes|
  {
    if variants != [] && modes != [] {
      ExpandedCount(variants[1..], modes);
    }
  }

  lemma {:induction false} ModesOf(command: string)
    ensures |ModeExclusions(command)|
            == if command == "ve-tos bucket delete" then 2 else if command == "ve-tos acl set" then 3 else 0
  {
  }

  /** Two cases with a target and one without, for each mode of the command. */
  lemma {:induction false} CaseCount(values: Values, command: string, parameters: seq<Parameter>)
    requires SurfaceCases(values, command, parameters).Success?
    ensures |SurfaceCases(values, command, parameters).value|
            == (if HasTarget(Keys(Positional(parameters)), Keys(Named(parameters))) then 2 else 1)
               * (if command == "ve-tos bucket delete" then 2 else if command == "ve-tos acl set" then 3 else 1)
  {
    ModesOf(command);
    hide IdentityVariants, ExpandModes, HasTarget, ModeExclusions, Words;
    var variants := IdentityVariants(values, Positional(parameters), Named(parameters)).value;
    ExpandedCount(variants, ModeExclusions(command));
    if HasTarget(Keys(Positional(parameters)), Keys(Named(parameters))) {
      TargetForms(values, Positional(parameters), Named(parameters));
    } else {
      OtherForms(values, Positional(parameters), Named(parameters));
    }
  }

  // ----- Modes -----

  lemma {:induction false} ExpandedInMode(variants: seq<Variant>, modes: seq<set<string>>, i: nat)
    requires i < |ExpandModes(variants, modes)| && modes != []
    ensures exists m :: 0 <= m < |modes| && modes[m] <= ExpandModes(variants, modes)[i].excluded
  {
    var first := InModes(variants[0], modes);
    if i < |first| {
      assert ExpandModes(variants, modes)[i] == first[i];
      assert modes[i] <= first[i].excluded;
    } else {
      assert ExpandModes(variants, modes)[i] == ExpandModes(variants[1..], modes)[i - |first|];
      ExpandedInMode(variants[1..], modes, i - |first|);
    }
  }

  /** Parameters that only a mode decides about: optional ones that do not name the target. */
  ghost predicate IsOptional(parameters: seq<Parameter>, flag: string) {
    flag !in {"bucket", "key", "prefix"} && forall p :: p in parameters && p.long == flag ==> !p.required
  }

  /** What a mode excludes is not on the command line. */
  lemma {:induction false} ExcludedIsAbsent(values: Values, command: string, parameters: seq<Parameter>, k: nat)
    returns (m: nat)
    requires DistinctKeys(parameters) && SurfaceCases(values, command, parameters).Success?
    requires k < |SurfaceCases(values, command, parameters).value| && ModeExclusions(command) != []
    ensures m < |ModeExclusions(command)|
    ensures forall flag :: flag in ModeExclusions(command)[m] && IsOptional(parameters, flag) ==>
              flag !in Flags(SurfaceCases(values, command, parameters).value[k].args)
  {
    hide IdentityVariants, ExpandModes, ModeExclusions, Flags, HasTarget;
    var named, positional := Named(parameters), Positional(parameters);
    var variants := IdentityVariants(values, positional, named).value;
    var expanded := ExpandModes(variants, ModeExclusions(command));
    NamedAre(parameters);
    NamedAreDistinct(parameters);
    RequiredAre(named);
    CasesDoNotConflict(values, command, parameters, k);
    ExpandedInMode(variants, ModeExclusions(command), k);
    ExpandedFrom(variants, ModeExclusions(command), k);
    m :| 0 <= m < |ModeExclusions(command)| && ModeExclusions(command)[m] <= expanded[k].excluded;
    var w :| w in variants && expanded[k].args == w.args && expanded[k].covered == w.covered;
    var i :| 0 <= i < |variants| && variants[i] == w;
    forall flag | flag in ModeExclusions(command)[m] && IsOptional(parameters, flag)
      ensures flag !in Flags(SurfaceCases(values, command, parameters).value[k].args)
    {
      if flag in Flags(w.args) {
        FlagsOfVariants(values, positional, named, i, flag);
      }
    }
  }

  /** A bucket is deleted by force or destroyed, never both on one command line. */
  lemma {:induction false} DeleteModesAreApart(values: Values, parameters: seq<Parameter>, k: nat)
    requires var command := "ve-tos bucket delete";
             DistinctKeys(parameters) && SurfaceCases(values, command, parameters).Success?
             && k < |SurfaceCases(values, command, parameters).value|
    requires IsOptional(parameters, "destroy") && IsOptional(parameters, "force")
    ensures var flags := Flags(SurfaceCases(values, "ve-tos bucket delete", parameters).value[k].args);
            "destroy" !in flags || "force" !in flags
  {
    hide SurfaceCases, IsOptional;
    var m := ExcludedIsAbsent(values, "ve-tos bucket delete", parameters, k);
  }

  /** An access list is set by a canned name, by a configuration or by grants, never by two of them. */
  lemma {:induction false} AclModesAreApart(values: Values, parameters: seq<Parameter>, k: nat, grant: string)
    requires var command := "ve-tos acl set";
             DistinctKeys(parameters) && SurfaceCases(values, command, parameters).Success?
             && k < |SurfaceCases(values, command, parameters).value|
    requires grant in {"grant-full-control", "grant-read", "grant-read-non-list", "grant-read-acp", "grant-write",
                       "grant-write-acp"}
    requires IsOptional(parameters, "acl") && IsOptional(parameters, "config") && IsOptional(parameters, grant)
    ensures var flags := Flags(SurfaceCases(values, "ve-tos acl set", parameters).value[k].args);
            && ("acl" !in flags || "config" !in flags)
            && ("acl" !in flags || grant !in flags)
            && ("config" !in flags || grant !in flags)
  {
    hide SurfaceCases, IsOptional;
    var m := ExcludedIsAbsent(values, "ve-tos acl set", parameters, k);
    assert |"ve-tos acl set"| == 14 && |"ve-tos bucket delete"| == 20;
    assert grant in GRANTS;
  }

  // ----- Errors -----

  lemma {:induction false} NoBucketParameterIff(positional: seq<Parameter>)
    ensures BucketParameter(positional).None? <==> forall p :: p in positional ==> !("bucket" <= AsciiLower(p.name))
  {
    if positional != [] {
      NoBucketParameterIff(positional[1..]);
      assert positional[0] in positional;
      assert forall p :: p in positional <==> p == positional[0] || p in positional[1..];
    }
  }

  lemma {:induction false} KeylessIff(positional: seq<Parameter>)
    ensures "" in Keys(positional) <==> exists p :: p in positional && p.long == "" && p.name == ""
  {
    if p :| p in positional && p.long == "" && p.name == "" {
      KeyOfMember(positional, p);
    }
    if "" in Keys(positional) {
      var i :| 0 <= i < |positional| && positional[i].Key() == "";
      assert positional[i] in positional;
    }
  }

  /** The identity variants fail on a parameter without any name, and on a bucket whose name hides that it is one. */
  lemma {:induction false} IdentityFailsIff(values: Values, positional: seq<Parameter>, named: seq<Parameter>)
    ensures var keyless := exists p :: p in positional && p.long == "" && p.name == "";
            var nameless := && HasTarget(Keys(positional), Keys(named))
                            && "uri" !in Keys(positional)
                            && "path" !in Keys(positional)
                            && forall p :: p in positional ==> !("bucket" <= AsciiLower(p.name));
            var variants := IdentityVariants(values, positional, named);
            && (variants.Failure? <==> keyless || nameless)
            && (variants.Failure? ==> variants.error == if keyless then ParameterWithoutKey else NoBucketParameter)
  {
    hide Keys, TargetVariants, PositionalArgs, EmitAll, Required, BucketParameter, AsciiLower;
    KeylessIff(positional);
    NoBucketParameterIff(positional);
  }

  /** Generation fails exactly on those and on a command that does not start with a tool and a group. */
  lemma {:induction false} GenerationFailsIff(values: Values, command: string, parameters: seq<Parameter>)
    ensures var words := Words(command, IsSpace);
            var shapeless := |words| < 2 || (words[0] != "tos" && words[0] != "ve-tos");
            var variants := IdentityVariants(values, Positional(parameters), Named(parameters));
            var cases := SurfaceCases(values, command, parameters);
            && (cases.Failure? <==> shapeless || variants.Failure?)
            && (cases.Failure? ==> cases.error == if shapeless then UnexpectedCommandShape else variants.error)
  {
    hide IdentityVariants, Words;
  }
}
